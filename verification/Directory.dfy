/**
  The hashed multi-level directory (dir.c): a lookup structure over dentry blocks
  that behaves as a map from names to entries.

  Level l has Buckets(l) buckets of BucketBlocks(l) blocks.  A name may sit in
  bucket hash % Buckets(l) of any level below i_current_depth.
*/
module Directory {

  import opened Bitmap
  import opened DentryBlock
  import Arith
  import opened Errno
  import opened Options
  import opened Widths

  /** Layout constants, i_dir_level and the largest number of blocks of a file. */
  datatype Geometry = Geometry(slots: nat, maxDepth: nat, maxBuckets: nat, dirLevel: nat, maxBlocks: nat)

  predicate Sane(g: Geometry) { g.maxBuckets > 0 && g.maxBlocks + 4 <= U32 }

  // ------------------------------------------------------- levels and buckets

  function Pow2(k: nat): (r: nat)
    ensures r > 0
  {
    if k == 0 then 1 else 2 * Pow2(k - 1)
  }

  /** dir_buckets. */
  function Buckets(g: Geometry, level: nat): (r: nat)
    ensures g.maxBuckets > 0 ==> r > 0
  {
    if level + g.dirLevel < g.maxDepth / 2 then Pow2(level + g.dirLevel) else g.maxBuckets
  }

  /** bucket_blocks. */
  function BucketBlocks(g: Geometry, level: nat): nat { if level < g.maxDepth / 2 then 2 else 4 }

  /** The first block of a level. */
  function Base(g: Geometry, level: nat): nat {
    if level == 0 then 0 else Base(g, level - 1) + Buckets(g, level - 1) * BucketBlocks(g, level - 1)
  }

  function BlockIndex(g: Geometry, level: nat, bucket: nat): nat {
    Base(g, level) + bucket * BucketBlocks(g, level)
  }

  predicate InRange(g: Geometry, level: nat, bucket: nat, k: nat) {
    BlockIndex(g, level, bucket) <= k < BlockIndex(g, level, bucket) + BucketBlocks(g, level)
  }

  /** dir_block_index. */
  method DirBlockIndex(g: Geometry, level: nat, bucket: nat) returns (bidx: nat)
    ensures bidx == BlockIndex(g, level, bucket)
  {
    hide Buckets, BucketBlocks;
    bidx := 0;
    for i := 0 to level
      invariant bidx == Base(g, i)
    {
      bidx := bidx + Buckets(g, i) * BucketBlocks(g, i);
    }
    bidx := bidx + bucket * BucketBlocks(g, level);
  }

  lemma {:induction false} BaseGrows(g: Geometry, l: nat, m: nat)
    requires l <= m
    ensures Base(g, l) <= Base(g, m)
  {
    if l < m { BaseGrows(g, l, m - 1); }
  }

  /** How far the levels below half the maximal depth reach: each is twice as long as the one before. */
  lemma {:induction false} BaseIs(g: Geometry, level: nat)
    requires level + g.dirLevel <= g.maxDepth / 2
    ensures Base(g, level) == 2 * (Pow2(level + g.dirLevel) - Pow2(g.dirLevel))
  {
    if level > 0 { BaseIs(g, level - 1); }
  }

  /** From half the maximal depth on all levels are equally long. */
  lemma BaseAbove(g: Geometry, level: nat)
    requires level >= g.maxDepth / 2
    ensures Base(g, level + 1) == Base(g, level) + 4 * g.maxBuckets
  {
  }

  /** A bucket stays within its level. */
  lemma BucketInLevel(g: Geometry, level: nat, bucket: nat)
    requires bucket < Buckets(g, level)
    ensures BlockIndex(g, level, bucket) + BucketBlocks(g, level) <= Base(g, level + 1)
  {
    Arith.Multiples(bucket, Buckets(g, level), BucketBlocks(g, level));
  }

  /** Bucket ranges never overlap. */
  lemma BucketsApart(g: Geometry, l: nat, b: nat, l': nat, b': nat, k: nat)
    requires b < Buckets(g, l) && b' < Buckets(g, l')
    requires InRange(g, l, b, k) && InRange(g, l', b', k)
    ensures l == l' && b == b'
  {
    if l < l' { LevelsApart(g, l, b, l', b', k); }
    if l' < l { LevelsApart(g, l', b', l, b, k); }
    if l == l' {
      if b < b' { Arith.Multiples(b, b', BucketBlocks(g, l)); }
      if b' < b { Arith.Multiples(b', b, BucketBlocks(g, l)); }
    }
  }

  lemma LevelsApart(g: Geometry, l: nat, b: nat, l': nat, b': nat, k: nat)
    requires l < l' && b < Buckets(g, l) && InRange(g, l, b, k)
    ensures !InRange(g, l', b', k)
  {
    BucketInLevel(g, l, b);
    BaseGrows(g, l + 1, l');
  }

  /** And leave no gap: every block below the base of `depth` is in a bucket. */
  lemma {:induction false} BucketsTile(g: Geometry, depth: nat, k: nat) returns (l: nat, b: nat)
    requires k < Base(g, depth)
    ensures l < depth && b < Buckets(g, l) && InRange(g, l, b, k)
  {
    l := depth - 1;
    if k < Base(g, l) {
      l, b := BucketsTile(g, l, k);
    } else {
      var n := BucketBlocks(g, l);
      b := (k - Base(g, l)) / n;
      assert b * n <= k - Base(g, l) < b * n + n;
      Arith.Quotient(b, Buckets(g, l), n, k - Base(g, l));
    }
  }

  // -------------------------------------------------------- what the blocks say

  datatype Pos = Pos(level: nat, block: nat, slot: nat)

  type Blocks = map<nat, Block>

  /** Block `k` is one that a lookup of this hash visits on this level. */
  predicate InBucket(g: Geometry, level: nat, hash: nat, k: nat)
    requires g.maxBuckets > 0
  {
    InRange(g, level, hash % Buckets(g, level), k)
  }

  type Maybe = Option<Entry>

  /** The entry that starts in slot `p` of block `k`, if any. */
  ghost function At(blocks: Blocks, k: nat, p: nat): Maybe {
    if k in blocks && Live(blocks[k], p) && Whole(blocks[k], p) then Some(EntryAt(blocks[k], p)) else None
  }

  ghost predicate BlocksOk(g: Geometry, blocks: Blocks) {
    forall k :: k in blocks ==> k < g.maxBlocks && WF(blocks[k], g.slots) && Tight(blocks[k])
  }

  /** The entry of name `n` is where a lookup will find it. */
  ghost predicate Placed(g: Geometry, hash: Name -> nat, blocks: Blocks, depth: nat, n: Name, w: Pos)
    requires g.maxBuckets > 0
  {
    && w.level < depth && InBucket(g, w.level, hash(n), w.block)
    && var m := At(blocks, w.block, w.slot);
    m.Some? && m.value.name == n && m.value.hash == hash(n)
  }

  /** `at` lists the entries: each is placed, and there are no others. */
  ghost predicate Consistent(g: Geometry, hash: Name -> nat, blocks: Blocks, depth: nat, at: map<Name, Pos>)
    requires g.maxBuckets > 0
  {
    && (forall n :: n in at ==> Placed(g, hash, blocks, depth, n, at[n]))
    && (forall k, p: nat :: At(blocks, k, p).Some? ==>
          var n := At(blocks, k, p).value.name;
          n in at && at[n].block == k && at[n].slot == p)
  }

  /** The directory as a map. */
  ghost function View(blocks: Blocks, at: map<Name, Pos>): map<Name, Maybe> {
    map n | n in at :: At(blocks, at[n].block, at[n].slot)
  }

  /** Slot `p` of block `k` now says `m`; every other slot says what it did. */
  ghost predicate Changed(blocks: Blocks, k: nat, p: nat, m: Maybe, blocks': Blocks) {
    forall j: nat, q: nat :: At(blocks', j, q) == if j == k && q == p then m else At(blocks, j, q)
  }

  ghost predicate Same(blocks: Blocks, blocks': Blocks) {
    forall j: nat, q: nat :: At(blocks', j, q) == At(blocks, j, q)
  }

  lemma SameKeeps(g: Geometry, hash: Name -> nat, blocks: Blocks, blocks': Blocks, depth: nat, at: map<Name, Pos>)
    requires g.maxBuckets > 0 && Consistent(g, hash, blocks, depth, at) && Same(blocks, blocks')
    ensures Consistent(g, hash, blocks', depth, at) && View(blocks', at) == View(blocks, at)
  {
    hide At;
  }

  lemma PutKeeps(g: Geometry, hash: Name -> nat, blocks: Blocks, depth: nat, depth': nat, at: map<Name, Pos>,
                 w: Pos, e: Entry, blocks': Blocks)
    requires g.maxBuckets > 0 && Consistent(g, hash, blocks, depth, at)
    requires e.name !in at && e.hash == hash(e.name)
    requires depth <= depth' && w.level < depth' && InBucket(g, w.level, e.hash, w.block)
    requires At(blocks, w.block, w.slot).None? && Changed(blocks, w.block, w.slot, Some(e), blocks')
    ensures Consistent(g, hash, blocks', depth', at[e.name := w])
    ensures View(blocks', at[e.name := w]) == View(blocks, at)[e.name := Some(e)]
  {
    hide At, InBucket;
  }

  lemma ClearKeeps(g: Geometry, hash: Name -> nat, blocks: Blocks, depth: nat, at: map<Name, Pos>,
                   k: nat, p: nat, blocks': Blocks)
    requires g.maxBuckets > 0 && Consistent(g, hash, blocks, depth, at)
    requires At(blocks, k, p).Some? && Changed(blocks, k, p, None, blocks')
    ensures var n := At(blocks, k, p).value.name;
            && Consistent(g, hash, blocks', depth, at - {n})
            && View(blocks', at - {n}) == View(blocks, at) - {n}
  {
    hide At, InBucket;
  }

  lemma AllocSame(g: Geometry, blocks: Blocks, k: nat)
    requires BlocksOk(g, blocks) && k !in blocks && k < g.maxBlocks
    ensures BlocksOk(g, blocks[k := Empty(g.slots)]) && Same(blocks, blocks[k := Empty(g.slots)])
  {
  }

  lemma DropSame(g: Geometry, blocks: Blocks, k: nat)
    requires BlocksOk(g, blocks) && k in blocks && forall q :: 0 <= q < |blocks[k].bits| ==> !blocks[k].bits[q]
    ensures BlocksOk(g, blocks - {k}) && Same(blocks, blocks - {k})
  {
  }

  lemma PutChanged(g: Geometry, blocks: Blocks, k: nat, p: nat, e: Entry, b': Block)
    requires BlocksOk(g, blocks) && k in blocks && WF(b', g.slots) && Tight(b')
    requires !Live(blocks[k], p) && Live(b', p) && EntryAt(b', p) == e
    requires forall q: nat :: q != p ==> (Live(b', q) <==> Live(blocks[k], q))
    requires forall q: nat :: Live(blocks[k], q) ==> EntryAt(b', q) == EntryAt(blocks[k], q)
    ensures BlocksOk(g, blocks[k := b']) && Changed(blocks, k, p, Some(e), blocks[k := b'])
    ensures At(blocks, k, p).None?
  {
    hide Whole, Live, EntryAt;
    var blocks' := blocks[k := b'];
    forall j: nat, q: nat
      ensures At(blocks', j, q) == if j == k && q == p then Some(e) else At(blocks, j, q)
    {
      if j == k { assert WF(b', g.slots) && WF(blocks[k], g.slots); }
    }
  }

  lemma ClearChanged(g: Geometry, blocks: Blocks, k: nat, p: nat, b': Block)
    requires BlocksOk(g, blocks) && k in blocks && WF(b', g.slots) && Tight(b') && Live(blocks[k], p)
    requires forall q: nat :: Live(b', q) <==> Live(blocks[k], q) && q != p
    requires forall q: nat :: Live(b', q) ==> EntryAt(b', q) == EntryAt(blocks[k], q)
    ensures BlocksOk(g, blocks[k := b']) && Changed(blocks, k, p, None, blocks[k := b'])
  {
    hide Whole, Live, EntryAt;
    var blocks' := blocks[k := b'];
    forall j: nat, q: nat
      ensures At(blocks', j, q) == if j == k && q == p then None else At(blocks, j, q)
    {
      if j == k { assert WF(b', g.slots) && WF(blocks[k], g.slots); }
    }
  }

  // -------------------------------------------------------------- the directory

  datatype Lookup = Found(block: nat, slot: nat) | Missing | Failed(errno: int)

  datatype Room = RoomAt(block: nat, slot: nat) | Full | NoPage(errno: int)

  /** No block that a lookup of `hash` visits on this level holds the name. */
  ghost predicate NotOnLevel(g: Geometry, blocks: Blocks, level: nat, name: Name, hash: nat)
    requires g.maxBuckets > 0
  {
    forall k, p: nat :: InBucket(g, level, hash, k) && At(blocks, k, p).Some? ==>
      !Matches(At(blocks, k, p).value, name, hash)
  }

  ghost predicate Hit(blocks: Blocks, r: Lookup, name: Name, hash: nat) {
    r.Found? ==>
      var m := At(blocks, r.block, r.slot);
      m.Some? && Matches(m.value, name, hash)
  }

  ghost predicate NoneIn(blocks: Blocks, lo: nat, hi: nat, name: Name, hash: nat) {
    forall k: nat, p: nat :: lo <= k < hi && At(blocks, k, p).Some? ==> !Matches(At(blocks, k, p).value, name, hash)
  }

  lemma NoneInEmpty(blocks: Blocks, k: nat, name: Name, hash: nat)
    ensures NoneIn(blocks, k, k, name, hash)
  {
  }

  lemma NoneInNext(g: Geometry, blocks: Blocks, lo: nat, k: nat, name: Name, hash: nat)
    requires BlocksOk(g, blocks) && NoneIn(blocks, lo, k, name, hash)
    requires k in blocks ==> NoMatch(blocks[k], g.slots, name, hash)
    ensures NoneIn(blocks, lo, k + 1, name, hash)
  {
    hide Whole, EntryAt;
    forall p: nat | At(blocks, k, p).Some?
      ensures !Matches(At(blocks, k, p).value, name, hash)
    {
      assert WF(blocks[k], g.slots);
    }
  }

  /** No wrap-around in 32 bits where the block exists. */
  lemma NoWrap(g: Geometry, index: nat, nblock: nat, k: nat)
    requires Sane(g) && index <= k < index + nblock && nblock <= 4 && k < g.maxBlocks
    ensures index % U32 == index && (index % U32 + nblock) % U32 == index + nblock
  {
  }

  /** The 32-bit range covers whatever part of the bucket exists. */
  lemma ScannedAll(g: Geometry, blocks: Blocks, level: nat, name: Name, hash: nat, upto: nat)
    requires Sane(g) && BlocksOk(g, blocks)
    requires var start := BlockIndex(g, level, hash % Buckets(g, level)) % U32;
             && NoneIn(blocks, start, upto, name, hash)
             && (start + BucketBlocks(g, level)) % U32 <= upto
    ensures NotOnLevel(g, blocks, level, name, hash)
  {
    hide Base, Pow2, Buckets, BlockIndex, WF, Tight, Live, Whole, EntryAt;
    forall k: nat, p: nat | InBucket(g, level, hash, k) && At(blocks, k, p).Some?
      ensures !Matches(At(blocks, k, p).value, name, hash)
    {
      NoWrap(g, BlockIndex(g, level, hash % Buckets(g, level)), BucketBlocks(g, level), k);
    }
  }

  /** Block `k` has, or once allocated will have, so many free slots in a row. */
  ghost predicate BlockRoom(g: Geometry, blocks: Blocks, k: nat, slots: nat) {
    if k in blocks then HasRoom(blocks[k].bits, slots) else slots <= g.slots
  }

  ghost predicate RoomOn(g: Geometry, blocks: Blocks, level: nat, hash: nat, slots: nat)
    requires g.maxBuckets > 0
  {
    exists k: nat :: InBucket(g, level, hash, k) && BlockRoom(g, blocks, k, slots)
  }

  ghost predicate RoomIn(g: Geometry, blocks: Blocks, lo: nat, hi: nat, slots: nat) {
    exists k: nat :: lo <= k < hi && BlockRoom(g, blocks, k, slots)
  }

  /** A name's buckets on the levels in use have 32-bit block numbers, and the name fits into a block. */
  ghost predicate Reachable(g: Geometry, depth: nat, slots: nat) {
    Base(g, depth) < U32 && 0 < slots <= g.slots
  }

  lemma RoomInEmpty(g: Geometry, blocks: Blocks, k: nat, slots: nat)
    ensures !RoomIn(g, blocks, k, k, slots)
  {
  }

  lemma RoomInNext(g: Geometry, blocks: Blocks, lo: nat, k: nat, slots: nat)
    requires lo <= k
    ensures RoomIn(g, blocks, lo, k + 1, slots) <==> RoomIn(g, blocks, lo, k, slots) || BlockRoom(g, blocks, k, slots)
  {
    hide BlockRoom;
  }

  lemma RoomInAll(g: Geometry, blocks: Blocks, depth: nat, level: nat, hash: nat, slots: nat)
    requires Sane(g) && Reachable(g, depth, slots) && level < depth
    ensures slots <= g.slots
    ensures var index := BlockIndex(g, level, hash % Buckets(g, level));
            && index % U32 == index && (index + BucketBlocks(g, level)) % U32 == index + BucketBlocks(g, level)
            && (RoomOn(g, blocks, level, hash, slots)
                <==> RoomIn(g, blocks, index, index + BucketBlocks(g, level), slots))
  {
    hide BlockRoom, Base, Buckets, BlockIndex;
    IndexFits(g, depth, level, hash % Buckets(g, level));
    var index := BlockIndex(g, level, hash % Buckets(g, level));
    assert RoomOn(g, blocks, level, hash, slots) <==>
             RoomIn(g, blocks, index, index + BucketBlocks(g, level), slots) by {
      assert forall k: nat :: InBucket(g, level, hash, k) <==> index <= k < index + BucketBlocks(g, level);
    }
  }

  lemma IndexFits(g: Geometry, depth: nat, level: nat, bucket: nat)
    requires Base(g, depth) < U32 && level < depth && bucket < Buckets(g, level)
    ensures var index := BlockIndex(g, level, bucket);
            index % U32 == index && (index + BucketBlocks(g, level)) % U32 == index + BucketBlocks(g, level)
  {
    BucketInLevel(g, level, bucket);
    BaseGrows(g, level + 1, depth);
    hide Base, Buckets, BlockIndex;
  }

  lemma WithinBucket(g: Geometry, level: nat, hash: nat, index: nat, d: nat)
    requires g.maxBuckets > 0 && index == BlockIndex(g, level, hash % Buckets(g, level)) && d < BucketBlocks(g, level)
    ensures InBucket(g, level, hash, index + d)
  {
  }

  /** The page of block `k` cannot be had: reading it fails, or it lies past the file size limit. */
  predicate Unread(g: Geometry, bad: map<nat, int>, k: nat) { k in bad || k >= g.maxBlocks }

  function ErrorOf(bad: map<nat, int>, k: nat): int { if k in bad then bad[k] else E2BIG }

  /** The bucket of this hash has 32-bit block numbers. */
  ghost predicate Narrow(g: Geometry, level: nat, hash: nat)
    requires g.maxBuckets > 0
  {
    BlockIndex(g, level, hash % Buckets(g, level)) + BucketBlocks(g, level) < U32
  }

  ghost predicate Clear(g: Geometry, level: nat, hash: nat, bad: map<nat, int>, upto: nat)
    requires g.maxBuckets > 0
  {
    forall k: nat :: InBucket(g, level, hash, k) && k < upto ==> !Unread(g, bad, k)
  }

  /** A page of the bucket stops the search: the first that cannot be had, with no match before it. */
  ghost predicate StopsAt(g: Geometry, blocks: Blocks, level: nat, name: Name, hash: nat, bad: map<nat, int>, k: nat)
    requires g.maxBuckets > 0
  {
    && InBucket(g, level, hash, k) && Unread(g, bad, k) && Clear(g, level, hash, bad, k)
    && forall j: nat, p: nat :: InBucket(g, level, hash, j) && j < k && At(blocks, j, p).Some? ==>
         !Matches(At(blocks, j, p).value, name, hash)
  }

  /** Every page up to the one that gives the answer could be had, and that one could not if the search failed. */
  ghost predicate Scanned(g: Geometry, blocks: Blocks, level: nat, name: Name, hash: nat, bad: map<nat, int>, r: Lookup)
    requires g.maxBuckets > 0
  {
    match r
    case Found(k, _) => InBucket(g, level, hash, k) && Clear(g, level, hash, bad, k + 1)
    case Missing => forall k: nat :: InBucket(g, level, hash, k) ==> !Unread(g, bad, k)
    case Failed(e) => exists k: nat :: StopsAt(g, blocks, level, name, hash, bad, k) && e == ErrorOf(bad, k)
  }

  /**
    The loop of find_in_level.  Block numbers are 32 bits wide here.  `bad` are the
    blocks whose page cannot be read, with the error; neither can one past the file
    size limit.
  */
  method ScanBucket(g: Geometry, blocks: Blocks, level: nat, name: Name, hash: nat, bad: map<nat, int>)
    returns (r: Lookup, room: bool)
    requires Sane(g) && BlocksOk(g, blocks) && |name| > 0
    ensures Hit(blocks, r, name, hash)
    ensures r.Missing? ==> NotOnLevel(g, blocks, level, name, hash)
    ensures r.Failed? ==> exists k: nat :: Unread(g, bad, k) && InBucket(g, level, hash, k)
    ensures Narrow(g, level, hash) ==> Scanned(g, blocks, level, name, hash, bad, r)
    ensures forall depth: nat :: r.Missing? && level < depth && Reachable(g, depth, Slots(|name|)) ==>
              (room <==> RoomOn(g, blocks, level, hash, Slots(|name|)))
  {
    hide NoneIn, NotOnLevel, Base, Pow2, Buckets, NoMatch, RoomIn, RoomOn, HasRoom, BlockIndex, InBucket, Reachable,
      EntryAt, Matches, Narrow, Scanned, Unread;
    var s := Slots(|name|);
    var nbucket := Buckets(g, level);
    var nblock := BucketBlocks(g, level);
    var index := DirBlockIndex(g, level, hash % nbucket);
    var bidx := index % U32;
    var end := (bidx + nblock) % U32;
    room := false;
    ghost var start := bidx;
    NoneInEmpty(blocks, start, name, hash);
    RoomInEmpty(g, blocks, start, s);
    while bidx < end
      invariant start <= bidx && (bidx <= end || bidx == start)
      invariant NoneIn(blocks, start, bidx, name, hash)
      invariant forall k: nat :: start <= k < bidx ==> !Unread(g, bad, k)
      invariant s <= g.slots ==> (room <==> RoomIn(g, blocks, start, bidx, s))
    {
      NotUnread(g, bad, bidx);
      if bidx in bad {
        ScanStops(g, blocks, level, name, hash, bad, index, bidx);
        return Failed(bad[bidx]), room;
      }
      if bidx >= g.maxBlocks {
        ScanStops(g, blocks, level, name, hash, bad, index, bidx);
        return Failed(E2BIG), room;
      }
      if bidx !in blocks {
        room := true;
      } else {
        var found, pos, maxSlots := FindTarget(blocks[bidx], g.slots, name, hash);
        if found {
          ScanFinds(g, blocks, level, name, hash, bad, bidx, pos);
          return Found(bidx, pos), room;
        }
        if maxSlots >= s { room := true; }
      }
      NoneInNext(g, blocks, start, bidx, name, hash);
      RoomInNext(g, blocks, start, bidx, s);
      bidx := bidx + 1;
    }
    forall depth: nat | level < depth && Reachable(g, depth, s)
      ensures room <==> RoomOn(g, blocks, level, hash, s)
    {
      RoomInAll(g, blocks, depth, level, hash, s);
    }
    ScannedAll(g, blocks, level, name, hash, bidx);
    ScanMisses(g, blocks, level, name, hash, bad, bidx);
    r := Missing;
  }

  lemma NotUnread(g: Geometry, bad: map<nat, int>, k: nat)
    ensures Unread(g, bad, k) <==> k in bad || k >= g.maxBlocks
  {
  }

  lemma ScanStops(g: Geometry, blocks: Blocks, level: nat, name: Name, hash: nat, bad: map<nat, int>, index: nat,
                  k: nat)
    requires Sane(g) && index == BlockIndex(g, level, hash % Buckets(g, level)) && Unread(g, bad, k)
    requires var start := index % U32;
             && start <= k < (start + BucketBlocks(g, level)) % U32 && NoneIn(blocks, start, k, name, hash)
             && forall j: nat :: start <= j < k ==> !Unread(g, bad, j)
    ensures exists k: nat :: Unread(g, bad, k) && InBucket(g, level, hash, k)
    ensures Narrow(g, level, hash) ==> Scanned(g, blocks, level, name, hash, bad, Failed(ErrorOf(bad, k)))
  {
    hide Base, Buckets, BlockIndex, Pow2, At, Matches;
    WithinBucket(g, level, hash, index, k - index % U32);
    assert Unread(g, bad, index + (k - index % U32)) by {
      assert index % U32 == index || index >= U32;
    }
    if Narrow(g, level, hash) { assert StopsAt(g, blocks, level, name, hash, bad, k); }
  }

  lemma ScanFinds(g: Geometry, blocks: Blocks, level: nat, name: Name, hash: nat, bad: map<nat, int>, k: nat, p: nat)
    requires Sane(g) && !Unread(g, bad, k)
    requires var start := BlockIndex(g, level, hash % Buckets(g, level)) % U32;
             && start <= k < (start + BucketBlocks(g, level)) % U32
             && forall j: nat :: start <= j < k ==> !Unread(g, bad, j)
    ensures Narrow(g, level, hash) ==> Scanned(g, blocks, level, name, hash, bad, Found(k, p))
  {
    hide Base, Buckets, BlockIndex, Pow2;
  }

  lemma ScanMisses(g: Geometry, blocks: Blocks, level: nat, name: Name, hash: nat, bad: map<nat, int>, upto: nat)
    requires Sane(g)
    requires var start := BlockIndex(g, level, hash % Buckets(g, level)) % U32;
             && (start + BucketBlocks(g, level)) % U32 <= upto
             && forall j: nat :: start <= j < upto ==> !Unread(g, bad, j)
    ensures Narrow(g, level, hash) ==> Scanned(g, blocks, level, name, hash, bad, Missing)
  {
    hide Base, Buckets, BlockIndex, Pow2;
  }

  lemma NoBlocks(g: Geometry, hash: Name -> nat, blocks: Blocks, depth: nat, at: map<Name, Pos>, npages: nat)
    requires g.maxBuckets > 0 && Consistent(g, hash, blocks, depth, at)
    requires npages == 0 && forall k :: k in blocks ==> k < npages
    ensures at == map[]
  {
    assert at.Keys == {};
  }

  lemma HitListed(g: Geometry, hash: Name -> nat, blocks: Blocks, depth: nat, at: map<Name, Pos>, r: Lookup, name: Name)
    requires g.maxBuckets > 0 && Consistent(g, hash, blocks, depth, at) && Hit(blocks, r, name, hash(name))
    ensures r.Found? ==> name in at && at[name].block == r.block && at[name].slot == r.slot
  {
  }

  // ------------------------------------------------------ where a lookup stops

  /** A lookup of `hash` asks for block `k`, and cannot have its page. */
  ghost predicate Stop(g: Geometry, depth: nat, hash: nat, bad: map<nat, int>, k: nat)
    requires g.maxBuckets > 0
  {
    Unread(g, bad, k) && exists l: nat :: l < depth && InBucket(g, l, hash, k)
  }

  ghost predicate FirstStop(g: Geometry, depth: nat, hash: nat, bad: map<nat, int>, k: nat)
    requires g.maxBuckets > 0
  {
    Stop(g, depth, hash, bad, k) && forall j: nat :: j < k ==> !Stop(g, depth, hash, bad, j)
  }

  ghost predicate Answered(g: Geometry, depth: nat, at: map<Name, Pos>, name: Name, hash: nat, bad: map<nat, int>,
                           r: Lookup)
    requires g.maxBuckets > 0
  {
    && (r.Failed? ==> exists k: nat :: Stop(g, depth, hash, bad, k) && (name in at ==> k <= at[name].block))
    && (name in at || Base(g, depth) < U32 ==>
          forall k: nat :: FirstStop(g, depth, hash, bad, k) && (name in at ==> k <= at[name].block) ==>
            r == Failed(ErrorOf(bad, k)))
  }

  /** The name is not on this level, and every page of its bucket could be had. */
  ghost predicate LevelDone(g: Geometry, blocks: Blocks, level: nat, name: Name, hash: nat, bad: map<nat, int>)
    requires g.maxBuckets > 0
  {
    && NotOnLevel(g, blocks, level, name, hash)
    && (Narrow(g, level, hash) ==> forall k: nat :: InBucket(g, level, hash, k) ==> !Unread(g, bad, k))
  }

  lemma LevelIsDone(g: Geometry, blocks: Blocks, level: nat, name: Name, hash: nat, bad: map<nat, int>)
    requires g.maxBuckets > 0 && NotOnLevel(g, blocks, level, name, hash)
    requires Narrow(g, level, hash) ==> Scanned(g, blocks, level, name, hash, bad, Missing)
    ensures LevelDone(g, blocks, level, name, hash, bad)
  {
    hide NotOnLevel, Narrow, InBucket, Unread;
  }

  /** Blocks of a higher level come later. */
  lemma LaterLevel(g: Geometry, l: nat, l': nat, hash: nat, k: nat, k': nat)
    requires g.maxBuckets > 0 && l < l' && InBucket(g, l, hash, k) && InBucket(g, l', hash, k')
    ensures k < k' && k < Base(g, l + 1)
  {
    BucketInLevel(g, l, hash % Buckets(g, l));
    BaseGrows(g, l + 1, l');
  }

  lemma NarrowBelow(g: Geometry, l: nat, level: nat, hash: nat, k: nat)
    requires Sane(g) && l <= level && InBucket(g, level, hash, k) && k < g.maxBlocks
    ensures Narrow(g, l, hash)
  {
    if l < level {
      BucketInLevel(g, l, hash % Buckets(g, l));
      BaseGrows(g, l + 1, level);
    }
  }

  lemma NarrowAll(g: Geometry, l: nat, depth: nat, hash: nat)
    requires g.maxBuckets > 0 && l < depth && Base(g, depth) < U32
    ensures Narrow(g, l, hash)
  {
    BucketInLevel(g, l, hash % Buckets(g, l));
    BaseGrows(g, l + 1, depth);
  }

  /** The level of a listed name is not yet done, and has 32-bit block numbers as have those below it. */
  lemma ListedLevel(g: Geometry, hash: Name -> nat, blocks: Blocks, depth: nat, at: map<Name, Pos>, name: Name,
                    bad: map<nat, int>, level: nat)
    requires Sane(g) && BlocksOk(g, blocks) && Consistent(g, hash, blocks, depth, at) && name in at
    requires forall l: nat :: l < level ==> LevelDone(g, blocks, l, name, hash(name), bad)
    ensures var w := at[name]; level <= w.level < depth && InBucket(g, w.level, hash(name), w.block)
    ensures forall l: nat :: l <= at[name].level ==> Narrow(g, l, hash(name))
  {
    hide InBucket, Narrow, WF, Tight, Live, Whole, EntryAt;
    var w := at[name];
    assert Placed(g, hash, blocks, depth, name, w);
    assert w.level < level ==> LevelDone(g, blocks, w.level, name, hash(name), bad);
    forall l: nat | l <= w.level
      ensures Narrow(g, l, hash(name))
    {
      NarrowBelow(g, l, w.level, hash(name), w.block);
    }
  }

  /** No block before `k` stops the search, when the levels below are done and `k` is on this one. */
  lemma NoneBefore(g: Geometry, blocks: Blocks, depth: nat, name: Name, hash: nat, bad: map<nat, int>, level: nat,
                   k: nat, j: nat)
    requires g.maxBuckets > 0 && level < depth && InBucket(g, level, hash, k)
    requires Clear(g, level, hash, bad, j + 1) && j <= k
    requires forall l: nat :: l < level ==> LevelDone(g, blocks, l, name, hash, bad) && Narrow(g, l, hash)
    ensures !Stop(g, depth, hash, bad, j)
  {
    hide InBucket, Narrow, NotOnLevel, Unread;
    forall l: nat | l < depth && InBucket(g, l, hash, j)
      ensures !Unread(g, bad, j)
    {
      if l > level { LaterLevel(g, level, l, hash, k, j); }
      assert l < level ==> LevelDone(g, blocks, l, name, hash, bad);
    }
  }

  lemma AnsweredMissing(g: Geometry, hash: Name -> nat, blocks: Blocks, depth: nat, at: map<Name, Pos>, name: Name,
                        bad: map<nat, int>)
    requires Sane(g) && BlocksOk(g, blocks) && Consistent(g, hash, blocks, depth, at)
    requires forall l: nat :: l < depth ==> LevelDone(g, blocks, l, name, hash(name), bad)
    ensures name !in at && Answered(g, depth, at, name, hash(name), bad, Missing)
  {
    hide InBucket, Narrow, NotOnLevel, Unread, Consistent, BlocksOk, Base;
    if name in at { ListedLevel(g, hash, blocks, depth, at, name, bad, depth); }
    if Base(g, depth) < U32 {
      forall l: nat | l < depth
        ensures Narrow(g, l, hash(name))
      {
        NarrowAll(g, l, depth, hash(name));
      }
      forall k: nat
        ensures !Stop(g, depth, hash(name), bad, k)
      {
        if l: nat :| l < depth && InBucket(g, l, hash(name), k) {
          assert LevelDone(g, blocks, l, name, hash(name), bad);
        }
      }
    }
  }

  lemma AnsweredAt(g: Geometry, hash: Name -> nat, blocks: Blocks, depth: nat, at: map<Name, Pos>, name: Name,
                   bad: map<nat, int>, level: nat, r: Lookup)
    requires Sane(g) && BlocksOk(g, blocks) && Consistent(g, hash, blocks, depth, at) && level < depth && !r.Missing?
    requires forall l: nat :: l < level ==> LevelDone(g, blocks, l, name, hash(name), bad)
    requires r.Found? ==> name in at && at[name].block == r.block
    requires r.Failed? ==> exists k: nat :: Unread(g, bad, k) && InBucket(g, level, hash(name), k)
    requires Narrow(g, level, hash(name)) ==> Scanned(g, blocks, level, name, hash(name), bad, r)
    ensures Answered(g, depth, at, name, hash(name), bad, r)
  {
    hide InBucket, Narrow, NotOnLevel, Unread, Consistent, BlocksOk, Base, Scanned, LevelDone;
    if name in at || Base(g, depth) < U32 {
      if name in at { ListedLevel(g, hash, blocks, depth, at, name, bad, level); }
      forall l: nat | l <= level
        ensures Narrow(g, l, hash(name))
      {
        if name !in at { NarrowAll(g, l, depth, hash(name)); }
      }
      if r.Found? {
        FoundFirst(g, blocks, depth, name, hash(name), bad, level, r.block, r.slot);
      } else {
        var k := FailedFirst(g, hash, blocks, depth, at, name, bad, level, r.errno);
      }
    } else {
      assert forall k: nat :: Unread(g, bad, k) && InBucket(g, level, hash(name), k) ==>
          Stop(g, depth, hash(name), bad, k);
    }
  }

  lemma FoundFirst(g: Geometry, blocks: Blocks, depth: nat, name: Name, hash: nat, bad: map<nat, int>, level: nat,
                   k: nat, p: nat)
    requires g.maxBuckets > 0 && level < depth && Scanned(g, blocks, level, name, hash, bad, Found(k, p))
    requires forall l: nat :: l < level ==> LevelDone(g, blocks, l, name, hash, bad) && Narrow(g, l, hash)
    ensures forall j: nat :: j <= k ==> !Stop(g, depth, hash, bad, j)
  {
    hide InBucket, Narrow, Unread, LevelDone, Stop;
    forall j: nat | j <= k
      ensures !Stop(g, depth, hash, bad, j)
    {
      NoneBefore(g, blocks, depth, name, hash, bad, level, k, j);
    }
  }

  lemma FailedFirst(g: Geometry, hash: Name -> nat, blocks: Blocks, depth: nat, at: map<Name, Pos>, name: Name,
                    bad: map<nat, int>, level: nat, e: int) returns (k: nat)
    requires Sane(g) && BlocksOk(g, blocks) && Consistent(g, hash, blocks, depth, at)
    requires level < depth && Scanned(g, blocks, level, name, hash(name), bad, Failed(e))
    requires forall l: nat :: l < level ==> LevelDone(g, blocks, l, name, hash(name), bad) && Narrow(g, l, hash(name))
    ensures FirstStop(g, depth, hash(name), bad, k) && e == ErrorOf(bad, k) && (name in at ==> k <= at[name].block)
  {
    hide InBucket, Narrow, Unread, LevelDone, BlocksOk, WF, Tight, Live, Whole, EntryAt;
    k :| StopsAt(g, blocks, level, name, hash(name), bad, k) && e == ErrorOf(bad, k);
    forall j: nat | j < k
      ensures !Stop(g, depth, hash(name), bad, j)
    {
      NoneBefore(g, blocks, depth, name, hash(name), bad, level, k, j);
    }
    if name in at {
      ListedLevel(g, hash, blocks, depth, at, name, bad, level);
      var w := at[name];
      assert Placed(g, hash, blocks, depth, name, w);
      if level < w.level { LaterLevel(g, level, w.level, hash(name), k, w.block); }
    }
  }

  /** The hint of a lookup that has seen the first `level` levels. */
  ghost predicate Hinted(g: Geometry, blocks: Blocks, level: nat, chash: nat, clevel: nat, hash: nat, slots: nat)
    requires g.maxBuckets > 0
  {
    if chash == hash then LowestWithRoom(g, blocks, 0, clevel, hash, slots)
    else forall l: nat :: l < level ==> !RoomOn(g, blocks, l, hash, slots)
  }

  lemma HintedNext(g: Geometry, blocks: Blocks, level: nat, chash: nat, clevel: nat, chash': nat, clevel': nat,
                   hash: nat, slots: nat)
    requires g.maxBuckets > 0
    ensures Hinted(g, blocks, level, chash, clevel, hash, slots) &&
            (if RoomOn(g, blocks, level, hash, slots) && chash != hash then chash' == hash && clevel' == level
             else chash' == chash && clevel' == clevel)
            ==> Hinted(g, blocks, level + 1, chash', clevel', hash, slots)
  {
    hide RoomOn;
  }

  ghost predicate SameRoom(g: Geometry, blocks: Blocks, blocks': Blocks) {
    forall k: nat, s: nat :: BlockRoom(g, blocks', k, s) <==> BlockRoom(g, blocks, k, s)
  }

  lemma SameRoomRefl(g: Geometry, blocks: Blocks)
    ensures SameRoom(g, blocks, blocks)
  {
  }

  lemma AllocRoom(g: Geometry, was: Blocks, blocks: Blocks, k: nat)
    requires SameRoom(g, was, blocks) && k !in blocks
    ensures SameRoom(g, was, blocks[k := Empty(g.slots)])
  {
    var blocks' := blocks[k := Empty(g.slots)];
    forall j: nat, s: nat
      ensures BlockRoom(g, blocks', j, s) <==> BlockRoom(g, was, j, s)
    {
      assert BlockRoom(g, blocks, j, s) <==> BlockRoom(g, was, j, s);
      if j == k && s <= g.slots { assert Fits(blocks'[j].bits, s, 0); }
    }
  }

  lemma RoomThen(g: Geometry, was: Blocks, blocks: Blocks, k: nat, slots: nat)
    requires SameRoom(g, was, blocks) && k in blocks
    ensures BlockRoom(g, was, k, slots) <==> HasRoom(blocks[k].bits, slots)
  {
    assert BlockRoom(g, blocks, k, slots) <==> BlockRoom(g, was, k, slots);
  }

  lemma SameRoomTrans(g: Geometry, a: Blocks, b: Blocks, c: Blocks)
    requires SameRoom(g, a, b) && SameRoom(g, b, c)
    ensures SameRoom(g, a, c)
  {
    forall k: nat, s: nat
      ensures BlockRoom(g, c, k, s) <==> BlockRoom(g, a, k, s)
    {
      assert BlockRoom(g, b, k, s) <==> BlockRoom(g, a, k, s);
    }
  }

  lemma SameRoomOn(g: Geometry, a: Blocks, b: Blocks, level: nat, hash: nat, slots: nat)
    requires g.maxBuckets > 0 && SameRoom(g, a, b)
    ensures RoomOn(g, a, level, hash, slots) <==> RoomOn(g, b, level, hash, slots)
  {
    hide BlockRoom, InBucket;
  }

  lemma FitsNotLive(b: Block, slots: nat, p: nat)
    requires Fits(b.bits, slots, p) && slots > 0
    ensures !Live(b, p)
  {
  }

  lemma AtLive(g: Geometry, blocks: Blocks, k: nat, p: nat)
    requires BlocksOk(g, blocks) && At(blocks, k, p).Some?
    ensures k in blocks && Live(blocks[k], p) && WF(blocks[k], g.slots) && Tight(blocks[k])
  {
  }

  ghost predicate OnlyEntry(blocks: Blocks, k: nat, p: nat) {
    forall q: nat :: q != p ==> At(blocks, k, q).None?
  }

  /** No slot is taken when no entry is left. */
  lemma LastEntry(g: Geometry, blocks: Blocks, k: nat, p: nat, blocks': Blocks)
    requires BlocksOk(g, blocks') && Changed(blocks, k, p, None, blocks') && k in blocks'
    ensures OnlyEntry(blocks, k, p) <==> forall q :: 0 <= q < |blocks'[k].bits| ==> !blocks'[k].bits[q]
  {
    var b := blocks'[k];
    assert WF(b, g.slots);
    if q: nat :| q < |b.bits| && b.bits[q] {
      var s: nat :| Covers(b, s, q);
      assert At(blocks', k, s).Some?;
    } else {
      forall q: nat ensures At(blocks', k, q).None? {
      }
    }
    if q: nat :| q != p && At(blocks, k, q).Some? {
      assert At(blocks', k, q).Some?;
    }
  }

  ghost predicate LowestWithRoom(g: Geometry, blocks: Blocks, start: nat, level: nat, hash: nat, slots: nat)
    requires g.maxBuckets > 0
  {
    && start <= level && RoomOn(g, blocks, level, hash, slots)
    && (forall l: nat :: start <= l < level ==> !RoomOn(g, blocks, l, hash, slots))
  }

  ghost predicate NoRoomFrom(g: Geometry, blocks: Blocks, start: nat, hash: nat, slots: nat)
    requires g.maxBuckets > 0
  {
    forall l: nat :: start <= l < g.maxDepth ==> !RoomOn(g, blocks, l, hash, slots)
  }

  /** The pages that an addition asks for, in order, until one has room or cannot be had. */
  datatype Probe = Takes(level: nat, block: nat) | Refuses(errno: int) | Nothing

  /** What an addition answers, and where the name then is, when its search for room ends so. */
  ghost predicate Ends(p: Probe, initErr: int, name: Name, r: Result, at: map<Name, Pos>) {
    match p
    case Refuses(e) => r == Err(e)
    case Takes(l, k) =>
      if initErr != 0 then r == Err(initErr)
      else r.Ok? && name in at && at[name].level == l && at[name].block == k
    case Nothing => false
  }

  ghost function ProbeBlocks(g: Geometry, blocks: Blocks, level: nat, k: nat, end: nat, slots: nat,
                             bad: map<nat, int>): Probe
    decreases end - k
  {
    if k >= end then Nothing
    else if k in bad then Refuses(bad[k])
    else if k >= g.maxBlocks then Refuses(E2BIG)
    else if BlockRoom(g, blocks, k, slots) then Takes(level, k)
    else ProbeBlocks(g, blocks, level, k + 1, end, slots, bad)
  }

  ghost function ProbeBucket(g: Geometry, blocks: Blocks, level: nat, h: nat, slots: nat, bad: map<nat, int>): Probe
    requires g.maxBuckets > 0
  {
    var k := BlockIndex(g, level, h % Buckets(g, level));
    ProbeBlocks(g, blocks, level, k, k + BucketBlocks(g, level), slots, bad)
  }

  ghost function ProbeLevels(g: Geometry, blocks: Blocks, level: nat, current: nat, h: nat, slots: nat,
                             bad: map<nat, int>): Probe
    requires g.maxBuckets > 0 && level <= current <= g.maxDepth
    decreases g.maxDepth - level
  {
    if current == g.maxDepth then Refuses(ENOSPC)
    else if ProbeBucket(g, blocks, level, h, slots, bad) != Nothing then ProbeBucket(g, blocks, level, h, slots, bad)
    else ProbeLevels(g, blocks, level + 1, if level == current then current + 1 else current, h, slots, bad)
  }

  lemma {:induction false} ProbeSame(g: Geometry, a: Blocks, b: Blocks, level: nat, k: nat, end: nat, slots: nat,
                                     bad: map<nat, int>)
    requires SameRoom(g, a, b)
    ensures ProbeBlocks(g, a, level, k, end, slots, bad) == ProbeBlocks(g, b, level, k, end, slots, bad)
    decreases end - k
  {
    if k < end { ProbeSame(g, a, b, level, k + 1, end, slots, bad); }
  }

  /** Blocks are as they were, or new and empty. */
  ghost predicate Allocated(g: Geometry, was: Blocks, now: Blocks) {
    && was.Keys <= now.Keys
    && forall k :: k in now ==> now[k] == if k in was then was[k] else Empty(g.slots)
  }

  function BitsOf(g: Geometry, blocks: Blocks, k: nat): seq<bool> {
    if k in blocks then blocks[k].bits else Empty(g.slots).bits
  }

  /** The first slots that fit in block `k` have been taken, and no other. */
  ghost predicate Filled(g: Geometry, was: Blocks, now: Blocks, k: nat, p: nat, slots: nat) {
    && was.Keys <= now.Keys && k in now
    && (forall j :: j in now ==>
          if j == k then Occupied(BitsOf(g, was, j), now[j].bits, p, slots) else now[j].bits == BitsOf(g, was, j))
    && Fits(BitsOf(g, was, k), slots, p) && forall q: nat :: q < p ==> !Fits(BitsOf(g, was, k), slots, q)
  }

  lemma ProbeSameBucket(g: Geometry, a: Blocks, b: Blocks, level: nat, h: nat, slots: nat, bad: map<nat, int>)
    requires g.maxBuckets > 0 && SameRoom(g, a, b)
    ensures ProbeBucket(g, a, level, h, slots, bad) == ProbeBucket(g, b, level, h, slots, bad)
  {
    hide SameRoom, BlockRoom;
    var k := BlockIndex(g, level, h % Buckets(g, level));
    ProbeSame(g, a, b, level, k, k + BucketBlocks(g, level), slots, bad);
  }

  lemma ProbeStep(g: Geometry, blocks: Blocks, level: nat, current: nat, h: nat, slots: nat, bad: map<nat, int>)
    requires g.maxBuckets > 0 && level <= current <= g.maxDepth
    ensures ProbeLevels(g, blocks, level, current, h, slots, bad) ==
            if current == g.maxDepth then Refuses(ENOSPC)
            else if ProbeBucket(g, blocks, level, h, slots, bad) != Nothing then
              ProbeBucket(g, blocks, level, h, slots, bad)
            else ProbeLevels(g, blocks, level + 1, if level == current then current + 1 else current, h, slots, bad)
  {
  }

  /** After a lookup in vain, starting at the level of its hint finds what starting from the bottom would. */
  lemma ProbeHinted(g: Geometry, blocks: Blocks, level: nat, depth: nat, h: nat, slots: nat, bad: map<nat, int>)
    requires g.maxBuckets > 0 && (level < depth || level == 0) && depth <= g.maxDepth
    requires LowestWithRoom(g, blocks, 0, level, h, slots)
    ensures (forall k: nat :: !Stop(g, depth, h, bad, k)) ==>
              ProbeLevels(g, blocks, 0, depth, h, slots, bad) == ProbeLevels(g, blocks, level, depth, h, slots, bad)
  {
    if forall k: nat :: !Stop(g, depth, h, bad, k) {
      ProbeSkips(g, blocks, level, depth, h, slots, bad);
    }
  }

  lemma {:induction false} ProbeSkips(g: Geometry, blocks: Blocks, level: nat, depth: nat, h: nat, slots: nat,
                                      bad: map<nat, int>)
    requires g.maxBuckets > 0 && (level < depth || level == 0) && depth <= g.maxDepth
    requires forall l: nat :: l < level ==> !RoomOn(g, blocks, l, h, slots)
    requires forall k: nat :: !Stop(g, depth, h, bad, k)
    ensures ProbeLevels(g, blocks, 0, depth, h, slots, bad) == ProbeLevels(g, blocks, level, depth, h, slots, bad)
  {
    if level > 0 {
      var l := level - 1;
      ProbeSkips(g, blocks, l, depth, h, slots, bad);
      ProbeFull(g, blocks, l, depth, h, slots, bad);
      ProbeStep(g, blocks, l, depth, h, slots, bad);
    }
  }

  lemma ProbeFull(g: Geometry, blocks: Blocks, level: nat, depth: nat, h: nat, slots: nat, bad: map<nat, int>)
    requires g.maxBuckets > 0 && level < depth && !RoomOn(g, blocks, level, h, slots)
    requires forall k: nat :: !Stop(g, depth, h, bad, k)
    ensures ProbeBucket(g, blocks, level, h, slots, bad) == Nothing
  {
    hide InBucket, RoomOn, Unread, ProbeBucket;
    forall k: nat | InBucket(g, level, h, k)
      ensures !Unread(g, bad, k)
    {
      assert !Stop(g, depth, h, bad, k);
    }
    BucketTaken(g, blocks, level, h, slots, bad);
  }

  /** Where every page asked for can be had, a level with room is reached, if one is left. */
  lemma {:induction false} RoomTaken(g: Geometry, blocks: Blocks, start: nat, current: nat, h: nat, slots: nat,
                                     bad: map<nat, int>, level: nat)
    requires g.maxBuckets > 0 && start <= current < g.maxDepth && start <= level < g.maxDepth
    requires RoomOn(g, blocks, level, h, slots)
    requires forall l: nat, k: nat :: start <= l <= level && InBucket(g, l, h, k) ==> !Unread(g, bad, k)
    ensures ProbeLevels(g, blocks, start, current, h, slots, bad).Takes?
    decreases level - start
  {
    hide InBucket, RoomOn, Unread, ProbeBucket, ProbeLevels;
    BucketTaken(g, blocks, start, h, slots, bad);
    ProbeStep(g, blocks, start, current, h, slots, bad);
    if !RoomOn(g, blocks, start, h, slots) {
      RoomTaken(g, blocks, start + 1, if start == current then current + 1 else current, h, slots, bad, level);
    }
  }

  lemma BucketTaken(g: Geometry, blocks: Blocks, level: nat, h: nat, slots: nat, bad: map<nat, int>)
    requires g.maxBuckets > 0 && forall k: nat :: InBucket(g, level, h, k) ==> !Unread(g, bad, k)
    ensures var p := ProbeBucket(g, blocks, level, h, slots, bad);
            if RoomOn(g, blocks, level, h, slots) then p.Takes? else p == Nothing
  {
    hide Base, Buckets, BlockIndex, BlockRoom, Unread;
    var k := BlockIndex(g, level, h % Buckets(g, level));
    var end := k + BucketBlocks(g, level);
    assert forall j: nat :: InBucket(g, level, h, j) <==> k <= j < end;
    BlocksTaken(g, blocks, level, k, end, slots, bad);
  }

  lemma {:induction false} BlocksTaken(g: Geometry, blocks: Blocks, level: nat, k: nat, end: nat, slots: nat,
                                       bad: map<nat, int>)
    requires forall j: nat :: k <= j < end ==> !Unread(g, bad, j)
    ensures var p := ProbeBlocks(g, blocks, level, k, end, slots, bad);
            if RoomIn(g, blocks, k, end, slots) then p.Takes? else p == Nothing
    decreases end - k
  {
    hide BlockRoom;
    if k < end {
      BlocksTaken(g, blocks, level, k + 1, end, slots, bad);
      assert !Unread(g, bad, k);
      assert RoomIn(g, blocks, k, end, slots) <==>
             BlockRoom(g, blocks, k, slots) || RoomIn(g, blocks, k + 1, end, slots);
    }
  }

  lemma AllocatedNone(g: Geometry, blocks: Blocks)
    ensures Allocated(g, blocks, blocks)
  {
  }

  lemma AllocatedThen(g: Geometry, a: Blocks, b: Blocks, c: Blocks)
    requires Allocated(g, a, b) && Allocated(g, b, c)
    ensures Allocated(g, a, c)
  {
  }

  lemma FilledIs(g: Geometry, was: Blocks, ready: Blocks, now: Blocks, k: nat, p: nat, slots: nat)
    requires Allocated(g, was, ready) && k in ready && k in now && now == ready[k := now[k]]
    requires Occupied(ready[k].bits, now[k].bits, p, slots) && Fits(ready[k].bits, slots, p)
    requires forall q: nat :: q < p ==> !Fits(ready[k].bits, slots, q)
    ensures Filled(g, was, now, k, p, slots)
  {
    hide Empty, Fits, Occupied;
  }

  class Dir {
    const g: Geometry
    const hash: Name -> nat
    var blocks: Blocks
    var npages: nat       // i_size in pages
    var depth: nat        // i_current_depth
    var chash: nat        // where the last failed lookup saw room:
    var clevel: nat       // hash and level
    ghost var at: map<Name, Pos>

    ghost predicate Valid()
      reads this
    {
      && Sane(g) && BlocksOk(g, blocks) && Consistent(g, hash, blocks, depth, at)
      && (forall k :: k in blocks ==> k < npages)
      && depth <= g.maxDepth
      && (clevel < depth || clevel == 0)
    }

    constructor (g: Geometry, hash: Name -> nat)
      requires Sane(g) && g.maxDepth > 0
      ensures Valid() && this.g == g && this.hash == hash && Contents() == map[] && depth == 1
    {
      this.g, this.hash := g, hash;
      blocks, npages, depth, chash, clevel, at := map[], 0, 1, 0, 0, map[];
    }

    /** The directory as a map from names to entries. */
    ghost function Contents(): map<Name, Maybe>
      reads this
    {
      View(blocks, at)
    }

    /** find_in_level: a failed search leaves a hint where there was room. */
    method FindInLevel(level: nat, name: Name, bad: map<nat, int>) returns (r: Lookup)
      requires Valid() && level < depth && |name| > 0
      modifies this`chash, this`clevel
      ensures Valid()
      ensures Hit(blocks, r, name, hash(name))
      ensures r.Missing? ==> NotOnLevel(g, blocks, level, name, hash(name))
      ensures r.Failed? ==> exists k: nat :: Unread(g, bad, k) && InBucket(g, level, hash(name), k)
      ensures Narrow(g, level, hash(name)) ==> Scanned(g, blocks, level, name, hash(name), bad, r)
      ensures old(chash) == hash(name) ==> chash == old(chash) && clevel == old(clevel)
      ensures r.Missing? && Reachable(g, depth, Slots(|name|)) ==>
                if RoomOn(g, blocks, level, hash(name), Slots(|name|)) && old(chash) != hash(name)
                then chash == hash(name) && clevel == level
                else chash == old(chash) && clevel == old(clevel)
    {
      hide Consistent, BlocksOk, At, NotOnLevel, RoomOn, Narrow, Scanned, Unread, InBucket;
      var room;
      r, room := ScanBucket(g, blocks, level, name, hash(name), bad);
      if !r.Found? && room && chash != hash(name) {
        chash, clevel := hash(name), level;
      }
    }

    /** __f2fs_find_entry. */
    method Find(name: Name, bad: map<nat, int>) returns (r: Lookup)
      requires Valid() && |name| > 0
      modifies this`chash, this`clevel
      ensures Valid()
      ensures Hit(blocks, r, name, hash(name))
      ensures r.Found? ==> name in at && at[name].block == r.block && at[name].slot == r.slot
      ensures r.Missing? ==> name !in at
      ensures npages == 0 ==> r.Missing? && chash == old(chash) && clevel == old(clevel)
      // It fails exactly at the first page that cannot be had before the answer is known, and with its error.
      ensures r.Failed? ==>
                exists k: nat :: Stop(g, depth, hash(name), bad, k) && (name in at ==> k <= at[name].block)
      ensures name in at || (npages > 0 && Base(g, depth) < U32) ==>
                forall k: nat :: FirstStop(g, depth, hash(name), bad, k) && (name in at ==> k <= at[name].block) ==>
                  r == Failed(ErrorOf(bad, k))
      // The hint left behind skips only levels without room.
      ensures r.Missing? && old(chash) != hash(name) == chash && Reachable(g, depth, Slots(|name|)) ==>
                LowestWithRoom(g, blocks, 0, clevel, hash(name), Slots(|name|))
      ensures old(chash) == hash(name) ==> chash == old(chash) && clevel == old(clevel)
    {
      hide Consistent, BlocksOk, NotOnLevel, At, RoomOn, Reachable, Narrow, Scanned, Unread, InBucket, LevelDone, Stop,
        FirstStop, LowestWithRoom, Base;
      if npages == 0 {
        NoBlocks(g, hash, blocks, depth, at, npages);
        return Missing;
      }
      var level: nat := 0;
      while level < depth
        invariant level <= depth && Valid()
        invariant forall l: nat :: l < level ==> LevelDone(g, blocks, l, name, hash(name), bad)
        invariant old(chash) != hash(name) && Reachable(g, depth, Slots(|name|)) ==>
                    Hinted(g, blocks, level, chash, clevel, hash(name), Slots(|name|))
        invariant old(chash) == hash(name) ==> chash == old(chash) && clevel == old(clevel)
      {
        ghost var chash0, clevel0 := chash, clevel;
        r := FindInLevel(level, name, bad);
        if !r.Missing? {
          HitListed(g, hash, blocks, depth, at, r, name);
          AnsweredAt(g, hash, blocks, depth, at, name, bad, level, r);
          return;
        }
        LevelIsDone(g, blocks, level, name, hash(name), bad);
        HintedNext(g, blocks, level, chash0, clevel0, chash, clevel, hash(name), Slots(|name|));
        level := level + 1;
      }
      AnsweredMissing(g, hash, blocks, depth, at, name, bad);
      r := Missing;
    }

    /**
      The block loop of f2fs_add_regular_entry: the first slots that fit, in the
      first block of the bucket that has them.  Missing blocks are allocated.
    */
    method FindRoom(level: nat, h: nat, slots: nat, bad: map<nat, int>) returns (r: Room)
      requires Valid() && slots > 0
      modifies this`blocks, this`npages
      ensures Valid() && Contents() == old(Contents()) && SameRoom(g, old(blocks), blocks)
      ensures r.RoomAt? ==>
                && RoomOn(g, old(blocks), level, h, slots)
                && InBucket(g, level, h, r.block) && r.block in blocks && Fits(blocks[r.block].bits, slots, r.slot)
                && BlockRoom(g, old(blocks), r.block, slots)
                && (forall k: nat :: InBucket(g, level, h, k) && k < r.block ==> !BlockRoom(g, old(blocks), k, slots))
      ensures r.Full? ==> !RoomOn(g, old(blocks), level, h, slots)
      ensures r.RoomAt? ==> forall q: nat :: q < r.slot ==> !Fits(blocks[r.block].bits, slots, q)
      ensures Allocated(g, old(blocks), blocks)
      ensures ProbeBucket(g, old(blocks), level, h, slots, bad) ==
              match r
              case RoomAt(k, _) => Takes(level, k)
              case NoPage(e) => Refuses(e)
              case Full => Nothing
      ensures r.NoPage? ==>
                exists k: nat :: InBucket(g, level, h, k) &&
                  if k in bad then r.errno == bad[k] else k >= g.maxBlocks && r.errno == E2BIG
    {
      hide Consistent, BlocksOk, At, Base, Pow2, Buckets, View, SameRoom, BlockRoom, Empty;
      var bidx := DirBlockIndex(g, level, h % Buckets(g, level));
      var end := bidx + BucketBlocks(g, level);
      var block := bidx;
      SameRoomRefl(g, blocks);
      while block < end
        invariant bidx <= block <= end
        invariant Valid() && Contents() == old(Contents()) && SameRoom(g, old(blocks), blocks)
        invariant forall k: nat :: bidx <= k < block ==> !BlockRoom(g, old(blocks), k, slots)
        invariant Allocated(g, old(blocks), blocks)
        invariant ProbeBucket(g, old(blocks), level, h, slots, bad) ==
                  ProbeBlocks(g, old(blocks), level, block, end, slots, bad)
      {
        assert InBucket(g, level, h, block);
        if block in bad {
          return NoPage(bad[block]);
        }
        if block >= g.maxBlocks {
          return NoPage(E2BIG);
        }
        if block !in blocks {
          AllocSame(g, blocks, block);
          SameKeeps(g, hash, blocks, blocks[block := Empty(g.slots)], depth, at);
          AllocRoom(g, old(blocks), blocks, block);
          blocks := blocks[block := Empty(g.slots)];
          npages := if npages > block then npages else block + 1;
        }
        var pos := RoomForFilename(blocks[block].bits, slots);
        RoomThen(g, old(blocks), blocks, block, slots);
        if pos < |blocks[block].bits| {
          return RoomAt(block, pos);
        }
        block := block + 1;
      }
      r := Full;
    }

    /**
      f2fs_add_regular_entry.  `bad` are blocks whose page cannot be had and
      `initErr` the outcome of initialising the new inode.
    */
    method AddRegular(name: Name, ino: nat, fileType: nat, bad: map<nat, int>, initErr: int) returns (r: Result)
      requires Valid() && |name| > 0 && name !in at
      modifies this
      ensures Valid()
      ensures r.Ok? ==> Contents() == old(Contents())[name := Some(Entry(name, hash(name), ino, fileType))]
      ensures r.Err? ==> Contents() == old(Contents()) && depth == old(depth)
      ensures r.Ok? ==>
                name in at &&
                LowestWithRoom(g, old(blocks), old(StartLevel(name)), at[name].level, hash(name), Slots(|name|))
      ensures r.Ok? ==>
                old(depth) < g.maxDepth
                && depth == if at[name].level < old(depth) then old(depth) else at[name].level + 1
      ensures r == Err(ENOSPC) && bad == map[] && initErr == 0 ==>
                old(depth) == g.maxDepth || NoRoomFrom(g, old(blocks), old(StartLevel(name)), hash(name), Slots(|name|))
      ensures old(depth) == g.maxDepth ==> r == Err(ENOSPC)
      ensures clevel == old(clevel) && chash == if old(chash) == hash(name) then 0 else old(chash)
      ensures r.Err? ==> r.errno in {ENOSPC, E2BIG, initErr} + bad.Values
      // The outcome is that of the first page asked for that has room or cannot be had.
      ensures Ends(ProbeLevels(g, old(blocks), old(StartLevel(name)), old(depth), hash(name), Slots(|name|), bad),
                   initErr, name, r, at)
      ensures r.Ok? ==> name in at && Filled(g, old(blocks), blocks, at[name].block, at[name].slot, Slots(|name|))
    {
      hide Consistent, BlocksOk, At, Base, Pow2, Buckets, View, SameRoom, BlockRoom, RoomOn, InBucket, ProbeBucket,
        ProbeLevels, Allocated, Filled, Empty, Fits, HasRoom, Occupied, BucketBlocks;
      var level := 0;
      var slots := Slots(|name|);
      var current := depth;
      if chash == hash(name) {
        level := clevel;
        chash := 0;
      }
      ghost var start := level;
      SameRoomRefl(g, blocks);
      AllocatedNone(g, blocks);
      while true
        invariant start <= level <= current <= g.maxDepth
        invariant current == if level <= depth then depth else level
        invariant Valid() && Contents() == old(Contents()) && SameRoom(g, old(blocks), blocks)
        invariant depth == old(depth) && at == old(at) && clevel == old(clevel)
        invariant chash == if old(chash) == hash(name) then 0 else old(chash)
        invariant forall l: nat :: start <= l < level ==> !RoomOn(g, old(blocks), l, hash(name), slots)
        invariant Allocated(g, old(blocks), blocks)
        invariant ProbeLevels(g, old(blocks), start, depth, hash(name), slots, bad) ==
                  ProbeLevels(g, old(blocks), level, current, hash(name), slots, bad)
        decreases g.maxDepth - level
      {
        ProbeStep(g, old(blocks), level, current, hash(name), slots, bad);
        if current == g.maxDepth {
          return Err(ENOSPC);
        }
        if level == current { current := current + 1; }
        ghost var before := blocks;
        var room := FindRoom(level, hash(name), slots, bad);
        SameRoomTrans(g, old(blocks), before, blocks);
        SameRoomOn(g, old(blocks), before, level, hash(name), slots);
        ProbeSameBucket(g, old(blocks), before, level, hash(name), slots, bad);
        AllocatedThen(g, old(blocks), before, blocks);
        match room
        case NoPage(e) =>
          return Err(e);
        case RoomAt(k, pos) =>
          if initErr != 0 {
            return Err(initErr);
          }
          ghost var ready := blocks;
          Insert(name, ino, fileType, level, k, pos, current);
          FilledIs(g, old(blocks), ready, blocks, k, pos, slots);
          return Ok;
        case Full =>
          level := level + 1;
      }
    }

    /** The tail of f2fs_add_regular_entry, at its label add_dentry. */
    method Insert(name: Name, ino: nat, fileType: nat, level: nat, k: nat, pos: nat, current: nat)
      requires Valid() && |name| > 0 && name !in at
      requires k in blocks && InBucket(g, level, hash(name), k) && Fits(blocks[k].bits, Slots(|name|), pos)
      requires level < current <= g.maxDepth && depth <= current
      modifies this`blocks, this`depth, this`at
      ensures Valid() && depth == current
      ensures at == old(at)[name := Pos(level, k, pos)]
      ensures k in blocks && blocks == old(blocks)[k := blocks[k]]
      ensures Occupied(old(blocks)[k].bits, blocks[k].bits, pos, Slots(|name|))
      ensures Contents() == old(Contents())[name := Some(Entry(name, hash(name), ino, fileType))]
    {
      hide Consistent, At, Base, Pow2, Buckets, View, InBucket, WF, Tight, Live, EntryAt, Occupied, Fits;
      var e := Entry(name, hash(name), ino, fileType);
      FitsNotLive(blocks[k], Slots(|name|), pos);
      var b := UpdateDentry(blocks[k], g.slots, e, pos);
      PutChanged(g, blocks, k, pos, e, b);
      PutKeeps(g, hash, blocks, depth, current, at, Pos(level, k, pos), e, blocks[k := b]);
      blocks := blocks[k := b];
      assert blocks[k] == b;
      at := at[name := Pos(level, k, pos)];
      depth := current;
    }

    ghost function StartLevel(name: Name): nat
      reads this
    {
      if chash == hash(name) then clevel else 0
    }

    /**
      f2fs_do_add_link.  The lookup is skipped when the same task has just looked
      the name up in vain.
    */
    method AddLink(name: Name, ino: nat, fileType: nat, sameTask: bool, bad: map<nat, int>, initErr: int)
      returns (r: Result)
      requires Valid() && |name| > 0 && (sameTask ==> name !in at)
      modifies this
      ensures Valid()
      ensures r.Ok? ==>
                name !in old(at) && Contents() == old(Contents())[name := Some(Entry(name, hash(name), ino, fileType))]
      ensures r.Err? ==> Contents() == old(Contents())
      // A name that is there is refused, unless a page before it cannot be had.
      ensures name in old(at) ==>
                (forall k: nat :: Stop(g, old(depth), hash(name), bad, k) ==> old(at)[name].block < k) ==>
                  r == Err(EEXIST)
      ensures name in old(at) ==>
                forall k: nat :: FirstStop(g, old(depth), hash(name), bad, k) && k <= old(at)[name].block ==>
                  r == Err(ErrorOf(bad, k))
      // One that is not there waits for the lookup, which stops at the first page that cannot be had.
      ensures name !in old(at) && !sameTask && old(npages) > 0 && Base(g, old(depth)) < U32 ==>
                forall k: nat :: FirstStop(g, old(depth), hash(name), bad, k) ==> r == Err(ErrorOf(bad, k))
      // Otherwise it is added as AddRegular says, from the level of the hint before the lookup.
      ensures name !in old(at)
              && (sameTask || old(npages) == 0 || forall k: nat :: !Stop(g, old(depth), hash(name), bad, k))
              && (sameTask || old(chash) == hash(name) || Reachable(g, old(depth), Slots(|name|))) ==>
                Ends(ProbeLevels(g, old(blocks), old(StartLevel(name)), old(depth), hash(name), Slots(|name|), bad),
                     initErr, name, r, at)
      ensures name !in old(at)
              && (sameTask || old(npages) == 0 || forall k: nat :: !Stop(g, old(depth), hash(name), bad, k)) ==>
                exists l: nat :: l <= old(depth) &&
                  Ends(ProbeLevels(g, old(blocks), l, old(depth), hash(name), Slots(|name|), bad), initErr, name, r, at)
    {
      hide Consistent, BlocksOk, At, View, Reachable, Stop, FirstStop, Base, ProbeLevels, LowestWithRoom, Filled,
        NoRoomFrom;
      if !sameTask {
        var found := Find(name, bad);
        match found
        case Found(_, _) => return Err(EEXIST);
        case Failed(e) => return Err(e);
        case Missing =>
          if old(chash) != hash(name) == chash && Reachable(g, depth, Slots(|name|)) {
            ProbeHinted(g, blocks, clevel, depth, hash(name), Slots(|name|), bad);
          }
      }
      r := AddRegular(name, ino, fileType, bad, initErr);
    }

    /** f2fs_delete_entry on an entry that a lookup has found. */
    method Delete(k: nat, p: nat, holeFails: bool)
      requires Valid() && At(blocks, k, p).Some?
      modifies this`blocks, this`at
      ensures Valid()
      ensures Contents() == old(Contents()) - {old(At(blocks, k, p).value.name)}
      // The block is given back exactly when its last entry has gone.
      ensures !holeFails ==> (k !in blocks <==> OnlyEntry(old(blocks), k, p))
    {
      hide Consistent, View, WF, Tight, Live, Whole, EntryAt, Covers, BlocksOk, OnlyEntry, Changed, Same;
      assert k in blocks && Live(blocks[k], p) && WF(blocks[k], g.slots) && Tight(blocks[k]) by {
        AtLive(g, blocks, k, p);
      }
      hide At;
      var b := ClearEntry(blocks[k], g.slots, p);
      ClearChanged(g, blocks, k, p, b);
      ClearKeeps(g, hash, blocks, depth, at, k, p, blocks[k := b]);
      at := at - {At(blocks, k, p).value.name};
      blocks := blocks[k := b];
      var bit := FindNext(b.bits, true, 0);
      LastEntry(g, old(blocks), k, p, blocks);
      if bit == |b.bits| && !holeFails {
        DropSame(g, blocks, k);
        SameKeeps(g, hash, blocks, blocks - {k}, depth, at);
        blocks := blocks - {k};
      }
    }
  }
}
