/**
  Directories that live in their inode page (inline.c), and their conversion to
  dentry blocks when they run out of room.
*/
module InlineDir {

  import opened DentryBlock
  import opened Directory
  import opened Errno
  import opened Options
  import opened Widths

  // ------------------------------------------------------------------ file types

  const FT_MAX: nat := 8

  /** f2fs_get_de_type: F2FS_FT_* to DT_*. */
  function DeType(fileType: nat): nat {
    match fileType
    case 1 => 8    // regular file
    case 2 => 4    // directory
    case 3 => 2    // character device
    case 4 => 6    // block device
    case 5 => 1    // fifo
    case 6 => 12   // socket
    case 7 => 10   // symbolic link
    case _ => 0    // unknown
  }

  /** set_de_type: the format bits of a mode, shifted down, to F2FS_FT_*. */
  function TypeByMode(format: nat): nat {
    match format
    case 8 => 1
    case 4 => 2
    case 2 => 3
    case 6 => 4
    case 1 => 5
    case 12 => 6
    case 10 => 7
    case _ => 0
  }

  /** What rehashing makes of an entry: its type goes through a fake mode. */
  function Rehashed(m: Maybe): Maybe {
    if m.Some? then Some(m.value.(fileType := TypeByMode(DeType(m.value.fileType)))) else None
  }

  /** Known types survive, unknown ones become F2FS_FT_UNKNOWN; what readdir reports is the same either way. */
  lemma RehashedType(e: Entry)
    ensures Rehashed(Some(e)) == Some(e) <==> e.fileType < FT_MAX
    ensures DeType(Rehashed(Some(e)).value.fileType) == DeType(e.fileType)
    ensures Rehashed(Some(e)).value.(fileType := e.fileType) == e
  {
  }

  lemma RehashedIs(e: Entry, h: nat)
    requires e.hash == h
    ensures Rehashed(Some(e)) == Some(Entry(e.name, h, e.ino, TypeByMode(DeType(e.fileType))))
  {
  }

  function RehashedAll(v: map<Name, Maybe>): map<Name, Maybe> { map n | n in v :: Rehashed(v[n]) }

  // --------------------------------------------------- the inline area as a block

  /** The inline area searched as one block. */
  function OneBlock(slots: nat): Geometry { Geometry(slots, 2, 1, 0, 1) }

  function One(b: Block): Blocks { map[0 := b] }

  lemma OneBucket(slots: nat, h: nat)
    ensures InBucket(OneBlock(slots), 0, h, 0)
  {
    assert Pow2(0) == 1;
  }

  /** The memcpy of f2fs_move_inline_dirents into a zeroed block. */
  function Copied(b: Block, slots: nat): Block {
    Block(b.bits + seq(Spare(slots, |b.bits|), _ => false),
          b.dents + seq(Spare(slots, |b.dents|), _ => Dentry(0, 0, 0, 0)),
          b.bytes + seq(Spare(SLOT_LEN * slots, |b.bytes|), _ => 0))
  }

  function Spare(slots: nat, used: nat): nat { if used <= slots then slots - used else 0 }

  lemma CopiedWF(b: Block, m: nat, slots: nat)
    requires WF(b, m) && Tight(b) && m <= slots
    ensures WF(Copied(b, slots), slots) && Tight(Copied(b, slots))
    ensures forall p: nat :: Live(Copied(b, slots), p) <==> Live(b, p)
    ensures forall p: nat :: Live(b, p) ==> EntryAt(Copied(b, slots), p) == EntryAt(b, p)
  {
    var c := Copied(b, slots);
    hide Copied, Live, Whole, EntryAt, Tight;
    CopiedTight(b, m, slots);
    CopiedShape(b, m, slots);
    forall p: nat
      ensures Live(c, p) <==> Live(b, p)
    {
      CopiedLive(b, m, slots, p);
    }
    forall p: nat | Live(b, p)
      ensures Whole(c, p) && EntryAt(c, p) == EntryAt(b, p)
    {
      CopiedEntry(b, m, slots, p);
    }
  }

  lemma CopiedShape(b: Block, m: nat, slots: nat)
    requires Shaped(b, m) && m <= slots
    ensures Shaped(Copied(b, slots), slots)
  {
  }

  lemma CopiedLive(b: Block, m: nat, slots: nat, p: nat)
    requires WF(b, m) && m <= slots
    ensures Live(Copied(b, slots), p) <==> Live(b, p)
    ensures Live(b, p) ==> p < |Copied(b, slots).dents| && Copied(b, slots).dents[p] == b.dents[p]
  {
  }

  lemma CopiedEntry(b: Block, m: nat, slots: nat, p: nat)
    requires WF(b, m) && m <= slots && Live(b, p)
    ensures var c := Copied(b, slots); Live(c, p) && Whole(c, p) && EntryAt(c, p) == EntryAt(b, p)
  {
    var c := Copied(b, slots);
    assert Whole(b, p);
    var end := p + Slots(b.dents[p].nameLen);
    assert b.dents == c.dents[..m] && b.bits == c.bits[..m] && b.bytes == c.bytes[..SLOT_LEN * m];
    forall q | p < q < end
      ensures c.bits[q] && c.dents[q].nameLen == 0
    {
      assert c.bits[q] == b.bits[q] && c.dents[q] == b.dents[q];
    }
  }

  lemma CopiedTight(b: Block, m: nat, slots: nat)
    requires WF(b, m) && Tight(b) && m <= slots
    ensures Tight(Copied(b, slots))
  {
    var c := Copied(b, slots);
    forall q: nat | q < |c.bits| && c.bits[q]
      ensures exists p: nat :: Covers(c, p, q)
    {
      var p: nat :| Covers(b, p, q);
      CopiedLive(b, m, slots, p);
      assert Covers(c, p, q);
    }
  }

  lemma CopiedSame(b: Block, m: nat, g: Geometry)
    requires WF(b, m) && Tight(b) && m <= g.slots && 0 < g.maxBlocks
    ensures BlocksOk(g, One(Copied(b, g.slots))) && Same(One(b), One(Copied(b, g.slots)))
  {
    CopiedWF(b, m, g.slots);
    hide Whole, Live, EntryAt, Covers;
    forall j: nat, p: nat
      ensures At(One(Copied(b, g.slots)), j, p) == At(One(b), j, p)
    {
    }
  }

  lemma BlockZero(g: Geometry, m: nat, h: nat, k: nat)
    requires g.maxBuckets > 0 && g.dirLevel == 0 && g.maxDepth >= 2
    requires InBucket(OneBlock(m), 0, h, k)
    ensures InBucket(g, 0, h, k)
  {
    assert Pow2(0) == 1;
  }

  /** One level-0 bucket holds every hash, so block 0 is where lookup starts. */
  lemma CopiedConsistent(g: Geometry, hash: Name -> nat, m: nat, b: Block, c: Block, at: map<Name, Pos>)
    requires g.maxBuckets > 0 && g.dirLevel == 0 && g.maxDepth >= 2
    requires Consistent(OneBlock(m), hash, One(b), 1, at) && Same(One(b), One(c))
    ensures Consistent(g, hash, One(c), 1, at) && View(One(c), at) == View(One(b), at)
  {
    hide At, Base;
    assert Pow2(0) == 1;
    forall n | n in at
      ensures Placed(g, hash, One(c), 1, n, at[n])
    {
      assert Placed(OneBlock(m), hash, One(b), 1, n, at[n]);
      BlockZero(g, m, hash(n), at[n].block);
    }
  }

  // ------------------------------------------------------------- the loop's progress

  ghost predicate InlineOk(slots: nat, hash: Name -> nat, b: Block, at: map<Name, Pos>) {
    BlocksOk(OneBlock(slots), One(b)) && Consistent(OneBlock(slots), hash, One(b), 1, at)
  }

  /** `v` holds, rehashed, the inline entries that start before slot `pos`. */
  ghost predicate MovedUpTo(b: Block, at: map<Name, Pos>, pos: nat, v: map<Name, Maybe>) {
    forall n :: (n in v <==> n in at && at[n].slot < pos) && (n in v ==> v[n] == Rehashed(At(One(b), 0, at[n].slot)))
  }

  lemma MovedNext(slots: nat, hash: Name -> nat, b: Block, at: map<Name, Pos>, pos: nat, next: nat,
                  v: map<Name, Maybe>, v': map<Name, Maybe>)
    requires InlineOk(slots, hash, b, at) && MovedUpTo(b, at, pos, v) && pos < next
    requires forall p: nat :: pos < p < next ==> At(One(b), 0, p).None?
    requires v' == match At(One(b), 0, pos) case None => v case Some(e) => v[e.name := Rehashed(Some(e))]
    ensures MovedUpTo(b, at, next, v')
  {
    hide At, InBucket, BlocksOk;
    forall n
      ensures n in v' <==> n in at && at[n].slot < next
      ensures n in v' ==> v'[n] == Rehashed(At(One(b), 0, at[n].slot))
    {
      if n in at {
        assert Placed(OneBlock(slots), hash, One(b), 1, n, at[n]);
        OnlyBlockZero(slots, hash, b, at, n);
      }
    }
  }

  lemma OnlyBlockZero(slots: nat, hash: Name -> nat, b: Block, at: map<Name, Pos>, n: Name)
    requires Consistent(OneBlock(slots), hash, One(b), 1, at) && n in at
    ensures at[n].block == 0 && at[n].level == 0
  {
    assert Placed(OneBlock(slots), hash, One(b), 1, n, at[n]);
  }

  lemma MovedAll(slots: nat, hash: Name -> nat, b: Block, at: map<Name, Pos>, v: map<Name, Maybe>)
    requires InlineOk(slots, hash, b, at) && MovedUpTo(b, at, slots, v)
    ensures v == RehashedAll(View(One(b), at))
  {
    hide At, Consistent, BlocksOk;
    forall n | n in at
      ensures at[n].slot < slots && at[n].block == 0
    {
      SlotBelow(slots, hash, b, at, n);
    }
    assert v.Keys == View(One(b), at).Keys;
  }

  lemma SlotBelow(slots: nat, hash: Name -> nat, b: Block, at: map<Name, Pos>, n: Name)
    requires InlineOk(slots, hash, b, at) && n in at
    ensures at[n].slot < slots && at[n].block == 0
  {
    assert Placed(OneBlock(slots), hash, One(b), 1, n, at[n]);
    OnlyBlockZero(slots, hash, b, at, n);
    assert 0 in One(b);
  }

  lemma NothingPlaced(g: Geometry, hash: Name -> nat, depth: nat)
    requires g.maxBuckets > 0
    ensures BlocksOk(g, map[]) && Consistent(g, hash, map[], depth, map[])
  {
  }

  /** What the slots of an entry, or a slot that starts none, say. */
  lemma SlotSays(slots: nat, b: Block, pos: nat)
    requires BlocksOk(OneBlock(slots), One(b))
    ensures Live(b, pos) ==> pos < |b.dents| && pos < pos + Slots(b.dents[pos].nameLen) <= slots
    ensures Live(b, pos) ==> Whole(b, pos) && At(One(b), 0, pos) == Some(EntryAt(b, pos)) && |EntryAt(b, pos).name| > 0
    ensures !Live(b, pos) ==> At(One(b), 0, pos).None?
    ensures Live(b, pos) ==> forall p: nat :: pos < p < pos + Slots(b.dents[pos].nameLen) ==> At(One(b), 0, p).None?
  {
    assert 0 in One(b);
  }

  lemma StartMoving(slots: nat, hash: Name -> nat, b: Block, at: map<Name, Pos>, blocks: Blocks, none: map<Name, Pos>)
    requires none == map[]
    ensures MovedUpTo(b, at, 0, View(blocks, none))
  {
  }

  lemma ViewKeys(blocks: Blocks, at: map<Name, Pos>)
    ensures View(blocks, at).Keys == at.Keys
  {
  }

  lemma LiveListed(slots: nat, hash: Name -> nat, b: Block, at: map<Name, Pos>, pos: nat)
    requires InlineOk(slots, hash, b, at) && Live(b, pos)
    ensures at != map[]
  {
    hide At;
    SlotSays(slots, b, pos);
    assert At(One(b), 0, pos).value.name in at;
  }

  lemma RehashedKeys(v: map<Name, Maybe>)
    ensures RehashedAll(v).Keys == v.Keys
  {
  }

  lemma NotYet(slots: nat, hash: Name -> nat, b: Block, at: map<Name, Pos>, pos: nat, v: map<Name, Maybe>)
    requires InlineOk(slots, hash, b, at) && MovedUpTo(b, at, pos, v) && At(One(b), 0, pos).Some?
    ensures var e := At(One(b), 0, pos).value; e.name !in v && e.hash == hash(e.name)
  {
    hide At;
    var n := At(One(b), 0, pos).value.name;
    assert Placed(OneBlock(slots), hash, One(b), 1, n, at[n]);
  }

  lemma AreaOk(slots: nat, b: Block)
    requires BlocksOk(OneBlock(slots), One(b))
    ensures WF(b, slots) && Tight(b)
  {
    assert 0 in One(b);
  }

  lemma AreaHit(slots: nat, hash: Name -> nat, b: Block, at: map<Name, Pos>, name: Name, pos: nat)
    requires InlineOk(slots, hash, b, at)
    requires Live(b, pos) && Whole(b, pos) && Matches(EntryAt(b, pos), name, hash(name))
    ensures name in at && View(One(b), at)[name] == Some(EntryAt(b, pos))
  {
    assert At(One(b), 0, pos) == Some(EntryAt(b, pos));
  }

  lemma AreaMiss(slots: nat, hash: Name -> nat, b: Block, at: map<Name, Pos>, name: Name)
    requires InlineOk(slots, hash, b, at) && NoMatch(b, slots, name, hash(name))
    ensures name !in View(One(b), at)
  {
    if name in at {
      SlotBelow(slots, hash, b, at, name);
      assert false;
    }
  }

  // ------------------------------------------------------- which pages rehashing needs

  /** The first page that adding a name to a directory without hint asks for. */
  function FirstPage(g: Geometry, h: nat): nat
    requires g.maxBuckets > 0
  {
    BlockIndex(g, 0, h % Buckets(g, 0))
  }

  /**
    The error that rehashing the entries from slot `p` on meets: the first of them,
    in slot order, whose first page cannot be had.  The first page always has room,
    since all entries together fit into a block.
  */
  ghost function RehashFault(b: Block, m: nat, p: nat, g: Geometry, hash: Name -> nat, bad: map<nat, int>): Option<int>
    requires g.maxBuckets > 0
    decreases m - p
  {
    if p >= m then None
    else if Live(b, p) && Whole(b, p) then
      var k := FirstPage(g, hash(EntryAt(b, p).name));
      if k in bad then Some(bad[k])
      else if k >= g.maxBlocks then Some(E2BIG)
      else RehashFault(b, m, p + 1, g, hash, bad)
    else RehashFault(b, m, p + 1, g, hash, bad)
  }

  lemma {:induction false} FaultSkip(b: Block, m: nat, p: nat, q: nat, g: Geometry, hash: Name -> nat,
                                     bad: map<nat, int>)
    requires g.maxBuckets > 0 && p <= q <= m && forall s: nat :: p <= s < q ==> !Live(b, s)
    ensures RehashFault(b, m, p, g, hash, bad) == RehashFault(b, m, q, g, hash, bad)
    decreases q - p
  {
    if p < q { FaultSkip(b, m, p + 1, q, g, hash, bad); }
  }

  /** An entry, then whatever starts after its last slot. */
  lemma FaultStep(b: Block, m: nat, p: nat, g: Geometry, hash: Name -> nat, bad: map<nat, int>)
    requires g.maxBuckets > 0 && WF(b, m) && Live(b, p)
    ensures Whole(b, p) && p + Slots(b.dents[p].nameLen) <= m
    ensures var k := FirstPage(g, hash(EntryAt(b, p).name));
            RehashFault(b, m, p, g, hash, bad) ==
              if k in bad then Some(bad[k])
              else if k >= g.maxBlocks then Some(E2BIG)
              else RehashFault(b, m, p + Slots(b.dents[p].nameLen), g, hash, bad)
  {
    assert Whole(b, p);
    FaultSkip(b, m, p + 1, p + Slots(b.dents[p].nameLen), g, hash, bad);
  }

  /** Filled from the front without gaps, and clear from slot `n` on. */
  ghost predicate Packed(bits: seq<bool>, n: nat) {
    && (forall q, q' :: 0 <= q < q' < |bits| && bits[q'] ==> bits[q])
    && (forall q :: n <= q < |bits| ==> !bits[q])
  }

  ghost predicate PackedAll(g: Geometry, blocks: Blocks, n: nat) {
    forall k :: k in blocks ==> |blocks[k].bits| == g.slots && Packed(blocks[k].bits, n)
  }

  /** No block has a slot taken from slot `n` on. */
  ghost predicate ClearFrom(g: Geometry, blocks: Blocks, n: nat) {
    forall k :: k in blocks ==> |blocks[k].bits| == g.slots && forall q :: n <= q < g.slots ==> !blocks[k].bits[q]
  }

  lemma PackedClear(g: Geometry, blocks: Blocks, n: nat)
    requires PackedAll(g, blocks, n)
    ensures ClearFrom(g, blocks, n)
  {
  }

  lemma CopiedClear(g: Geometry, b: Block, m: nat)
    requires WF(b, m) && m <= g.slots
    ensures ClearFrom(g, One(Copied(b, g.slots)), m)
  {
  }

  lemma PackedFill(bits: seq<bool>, bits': seq<bool>, n: nat, p: nat, slots: nat)
    requires Packed(bits, n) && n + slots <= |bits| && slots > 0
    requires Fits(bits, slots, p) && (forall q: nat :: q < p ==> !Fits(bits, slots, q))
    requires Occupied(bits, bits', p, slots)
    ensures Packed(bits', n + slots)
  {
    assert Fits(bits, slots, n);
    forall q | 0 <= q < p
      ensures bits[q]
    {
      if !bits[q] { assert Fits(bits, slots, q); }
    }
  }

  lemma PackedNext(g: Geometry, was: Blocks, now: Blocks, n: nat, k: nat, p: nat, slots: nat)
    requires PackedAll(g, was, n) && Filled(g, was, now, k, p, slots) && slots > 0 && n + slots <= g.slots
    ensures PackedAll(g, now, n + slots)
  {
    forall j | j in now
      ensures |now[j].bits| == g.slots && Packed(now[j].bits, n + slots)
    {
      var bits := BitsOf(g, was, j);
      assert |bits| == g.slots && Packed(bits, n);
      if j == k { PackedFill(bits, now[j].bits, n, p, slots); }
    }
  }

  lemma NameSlots(b: Block, p: nat)
    requires Live(b, p) && Whole(b, p)
    ensures |EntryAt(b, p).name| == b.dents[p].nameLen && Slots(b.dents[p].nameLen) > 0
  {
  }

  /** The first page has room. */
  lemma ProbeFirst(g: Geometry, blocks: Blocks, n: nat, h: nat, depth: nat, slots: nat, bad: map<nat, int>)
    requires g.maxBuckets > 0 && depth < g.maxDepth && ClearFrom(g, blocks, n) && n + slots <= g.slots
    ensures var k := FirstPage(g, h);
            ProbeLevels(g, blocks, 0, depth, h, slots, bad) ==
              if k in bad then Refuses(bad[k])
              else if k >= g.maxBlocks then Refuses(E2BIG)
              else Takes(0, k)
  {
    var k := FirstPage(g, h);
    assert k in blocks ==> Fits(blocks[k].bits, slots, n);
    assert BlockRoom(g, blocks, k, slots);
    hide BlockRoom, BlockIndex, Buckets;
    assert ProbeBucket(g, blocks, 0, h, slots, bad) ==
           ProbeBlocks(g, blocks, 0, k, k + BucketBlocks(g, 0), slots, bad);
  }

  lemma PackedMore(g: Geometry, blocks: Blocks, n: nat, n': nat)
    requires PackedAll(g, blocks, n) && n <= n'
    ensures PackedAll(g, blocks, n')
  {
  }

  /** What rehashing works on, and what it finds. */
  datatype Job = Job(g: Geometry, hash: Name -> nat, slots: nat, area: Block, iat: map<Name, Pos>, bad: map<nat, int>)

  ghost predicate JobOk(j: Job) {
    j.g.maxBuckets > 0 && j.slots <= j.g.slots && j.g.maxDepth >= 2 && InlineOk(j.slots, j.hash, j.area, j.iat)
  }

  ghost function Fault(j: Job, pos: nat): Option<int>
    requires j.g.maxBuckets > 0
  {
    RehashFault(j.area, j.slots, pos, j.g, j.hash, j.bad)
  }

  /** The entries before slot `pos` have been added again; `full` if no level is left for any. */
  ghost predicate Moving(j: Job, blocks: Blocks, at: map<Name, Pos>, depth: nat, pos: nat, full: bool)
  {
    && JobOk(j) && pos <= j.slots && MovedUpTo(j.area, j.iat, pos, View(blocks, at)) && PackedAll(j.g, blocks, pos)
    && (full <==> depth == j.g.maxDepth) && Fault(j, 0) == Fault(j, pos)
  }

  lemma MovingBegins(j: Job, blocks: Blocks, at: map<Name, Pos>, depth: nat)
    requires JobOk(j) && blocks == map[] && at == map[]
    ensures Moving(j, blocks, at, depth, 0, depth == j.g.maxDepth)
  {
    StartMoving(j.slots, j.hash, j.area, j.iat, blocks, at);
  }

  lemma MovingSkips(j: Job, blocks: Blocks, at: map<Name, Pos>, depth: nat, pos: nat, full: bool)
    requires Moving(j, blocks, at, depth, pos, full) && pos < j.slots && !Live(j.area, pos)
    ensures Moving(j, blocks, at, depth, pos + 1, full)
  {
    hide Moving, InlineOk, MovedUpTo, RehashFault, PackedAll, Live, Whole, WF, BlocksOk, View, At, Slots, EntryAt;
    MovingParts(j, blocks, at, depth, pos, full);
    SlotSays(j.slots, j.area, pos);
    FaultSkip(j.area, j.slots, pos, pos + 1, j.g, j.hash, j.bad);
    PackedMore(j.g, blocks, pos, pos + 1);
    MovedNext(j.slots, j.hash, j.area, j.iat, pos, pos + 1, View(blocks, at), View(blocks, at));
    MovingIs(j, blocks, at, depth, pos + 1, full);
  }

  lemma MovingEnds(j: Job, blocks: Blocks, at: map<Name, Pos>, depth: nat, full: bool)
    requires Moving(j, blocks, at, depth, j.slots, full)
    ensures View(blocks, at) == RehashedAll(View(One(j.area), j.iat)) && Fault(j, 0) == None
    ensures ClearFrom(j.g, blocks, j.slots)
  {
    hide InlineOk, MovedUpTo, PackedAll, ClearFrom;
    PackedClear(j.g, blocks, j.slots);
    MovedAll(j.slots, j.hash, j.area, j.iat, View(blocks, at));
  }

  lemma MovingWithin(j: Job, blocks: Blocks, at: map<Name, Pos>, depth: nat, pos: nat, full: bool)
    requires Moving(j, blocks, at, depth, pos, full)
    ensures pos <= j.slots && (full <==> depth == j.g.maxDepth)
  {
  }

  lemma MovingParts(j: Job, blocks: Blocks, at: map<Name, Pos>, depth: nat, pos: nat, full: bool)
    requires Moving(j, blocks, at, depth, pos, full)
    ensures j.g.maxBuckets > 0 && j.g.maxDepth >= 2 && pos <= j.slots <= j.g.slots
    ensures InlineOk(j.slots, j.hash, j.area, j.iat) && MovedUpTo(j.area, j.iat, pos, View(blocks, at))
    ensures PackedAll(j.g, blocks, pos) && (full <==> depth == j.g.maxDepth) && Fault(j, 0) == Fault(j, pos)
    ensures BlocksOk(OneBlock(j.slots), One(j.area)) && WF(j.area, j.slots)
  {
    AreaOk(j.slots, j.area);
  }

  /** What there is to add from slot `pos`. */
  lemma MovingEntry(j: Job, blocks: Blocks, at: map<Name, Pos>, depth: nat, pos: nat, full: bool)
    returns (e: Entry, next: nat)
    requires Live(j.area, pos) && Moving(j, blocks, at, depth, pos, full)
    ensures pos < |j.area.dents| && Whole(j.area, pos)
    ensures e == EntryAt(j.area, pos) && next == pos + Slots(j.area.dents[pos].nameLen)
    ensures pos < next <= j.slots && |e.name| > 0 && Slots(|e.name|) == next - pos
    ensures e.name !in at && e.hash == j.hash(e.name)
  {
    hide Moving, InlineOk, MovedUpTo, PackedAll, Fault, Live, Whole, EntryAt, WF, View, BlocksOk, At, Slots;
    MovingParts(j, blocks, at, depth, pos, full);
    SlotSays(j.slots, j.area, pos);
    NotYet(j.slots, j.hash, j.area, j.iat, pos, View(blocks, at));
    ViewKeys(blocks, at);
    NameSlots(j.area, pos);
    e, next := EntryAt(j.area, pos), pos + Slots(j.area.dents[pos].nameLen);
  }

  /** What adding it meets. */
  lemma MovingMeets(j: Job, blocks: Blocks, at: map<Name, Pos>, depth: nat, pos: nat, e: Entry, next: nat)
    requires Live(j.area, pos) && Whole(j.area, pos) && e == EntryAt(j.area, pos)
    requires next == pos + Slots(j.area.dents[pos].nameLen) <= j.slots && depth < j.g.maxDepth && j.g.maxBuckets > 0
    requires Moving(j, blocks, at, depth, pos, false)
    ensures match ProbeLevels(j.g, blocks, 0, depth, j.hash(e.name), next - pos, j.bad)
            case Refuses(err) => Fault(j, 0) == Some(err)
            case Takes(l, k) => l == 0 && Fault(j, 0) == Fault(j, next)
            case Nothing => false
  {
    hide Moving, InlineOk, MovedUpTo, PackedAll, RehashFault, ProbeLevels, Live, Whole, EntryAt, WF, View, BlocksOk,
      Slots, FirstPage;
    MovingParts(j, blocks, at, depth, pos, false);
    FaultStep(j.area, j.slots, pos, j.g, j.hash, j.bad);
    PackedClear(j.g, blocks, pos);
    ProbeFirst(j.g, blocks, pos, j.hash(e.name), depth, next - pos, j.bad);
  }

  /** The entry at `pos` has been added. */
  lemma MovingNext(j: Job, blocks: Blocks, at: map<Name, Pos>, depth: nat, pos: nat, e: Entry, next: nat,
                   blocks': Blocks, at': map<Name, Pos>, depth': nat)
    requires Live(j.area, pos) && Whole(j.area, pos) && e == EntryAt(j.area, pos)
    requires pos < next == pos + Slots(j.area.dents[pos].nameLen) <= j.slots && j.g.maxBuckets > 0
    requires Fault(j, 0) == Fault(j, next) && depth' != j.g.maxDepth
    requires e.name in at' && Filled(j.g, blocks, blocks', at'[e.name].block, at'[e.name].slot, next - pos)
    requires View(blocks', at') == View(blocks, at)[e.name := Rehashed(Some(e))]
    requires Moving(j, blocks, at, depth, pos, false)
    ensures Moving(j, blocks', at', depth', next, false)
  {
    hide Moving, InlineOk, MovedUpTo, PackedAll, Live, Whole, EntryAt, WF, View, BlocksOk, Filled, At, Slots, Rehashed,
      Fault;
    MovingParts(j, blocks, at, depth, pos, false);
    SlotSays(j.slots, j.area, pos);
    PackedNext(j.g, blocks, blocks', pos, at'[e.name].block, at'[e.name].slot, next - pos);
    MovedNext(j.slots, j.hash, j.area, j.iat, pos, next, View(blocks, at), View(blocks', at'));
    MovingIs(j, blocks', at', depth', next, false);
  }

  lemma MovingIs(j: Job, blocks: Blocks, at: map<Name, Pos>, depth: nat, pos: nat, full: bool)
    requires j.g.maxBuckets > 0 && j.g.maxDepth >= 2 && pos <= j.slots <= j.g.slots
    requires InlineOk(j.slots, j.hash, j.area, j.iat) && MovedUpTo(j.area, j.iat, pos, View(blocks, at))
    requires PackedAll(j.g, blocks, pos) && (full <==> depth == j.g.maxDepth) && Fault(j, 0) == Fault(j, pos)
    ensures Moving(j, blocks, at, depth, pos, full)
  {
    hide InlineOk, MovedUpTo, PackedAll, Fault, View;
  }

  // -------------------------------------------------------------------- the inode

  /**
    Outcomes of the layers below: 0 or an error number, and what is missing.
    The new inode may be initialised twice, on the inline and on the regular path.
  */
  datatype Env = Env(
    pageErr: int, noMemory: bool, reserveErr: int, staleBlock: bool, bad: map<nat, int>, initErr: int, retryErr: int)

  class Inode {
    const slots: nat        // NR_INLINE_DENTRY
    const dir: Dir          // the dentry blocks, empty while inlined
    var inlined: bool       // FI_INLINE_DENTRY
    var area: Block         // the inline area of the inode page
    ghost var iat: map<Name, Pos>

    /** What lookup needs. */
    ghost predicate Readable()
      reads this, dir
    {
      && dir.Valid() && slots <= dir.g.slots && 0 < dir.g.maxBlocks && dir.g.maxDepth >= 2
      && (inlined ==> InlineOk(slots, dir.hash, area, iat))
    }

    /** And there is one form at a time. */
    ghost predicate Valid()
      reads this, dir
    {
      Readable() && (inlined ==> dir.blocks == map[] && dir.at == map[] && dir.clevel == 0)
    }

    ghost function Contents(): map<Name, Maybe>
      reads this, dir
    {
      if inlined then View(One(area), iat) else dir.Contents()
    }

    constructor (slots: nat, dir: Dir)
      requires dir.Valid() && dir.blocks == map[] && dir.at == map[] && dir.clevel == 0
      requires slots <= dir.g.slots && 0 < dir.g.maxBlocks && dir.g.maxDepth >= 2
      ensures Valid() && inlined && Contents() == map[] && this.dir == dir
    {
      this.slots, this.dir := slots, dir;
      inlined, area, iat := true, Empty(slots), map[];
    }

    /** f2fs_move_inline_dirents. */
    method MoveInlineDirents(env: Env) returns (r: Result)
      requires Valid() && inlined && dir.g.dirLevel == 0
      modifies this, dir
      ensures Valid() && Contents() == old(Contents())
      ensures r.Ok? <==> !inlined
      ensures r.Ok? ==> dir.depth == 1 && area == Empty(slots)
      ensures r.Err? ==> area == old(area)
      ensures r == Err(EAGAIN) <==> !env.noMemory && env.reserveErr == EAGAIN
      ensures r.Ok? <==> !env.noMemory && env.reserveErr == 0 && !env.staleBlock
      ensures r.Err? ==> r.errno in {ENOMEM, env.reserveErr, EFSCORRUPTED}
      ensures r.Ok? ==> ClearFrom(dir.g, dir.blocks, slots) && dir.clevel == 0
    {
      hide Consistent, View, At, Live, Whole, WF, Tight, EntryAt, Copied;
      if env.noMemory {
        return Err(ENOMEM);
      }
      if env.reserveErr != 0 {
        return Err(env.reserveErr);
      }
      if env.staleBlock {
        return Err(EFSCORRUPTED);
      }
      assert WF(One(area)[0], slots) && Tight(One(area)[0]);
      CopiedSame(area, slots, dir.g);
      CopiedClear(dir.g, area, slots);
      CopiedConsistent(dir.g, dir.hash, slots, area, Copied(area, dir.g.slots), iat);
      dir.blocks := One(Copied(area, dir.g.slots));
      dir.at := iat;
      dir.depth := 1;
      dir.npages := if dir.npages < 1 then 1 else dir.npages;
      area := Empty(slots);
      inlined := false;
      r := Ok;
    }

    ghost function JobOf(backup: Block, env: Env): Job
      reads this
    {
      Job(dir.g, dir.hash, slots, backup, iat, env.bad)
    }

    /** One entry of f2fs_add_inline_entries. */
    method MoveEntry(backup: Block, pos: nat, env: Env, ghost full: bool) returns (r: Result, next: nat)
      requires dir.Valid() && dir.clevel == 0 && Live(backup, pos)
      requires Moving(JobOf(backup, env), dir.blocks, dir.at, dir.depth, pos, full)
      modifies dir
      ensures dir.Valid() && dir.clevel == 0
      ensures r.Ok? ==> !full && pos < next && Moving(JobOf(backup, env), dir.blocks, dir.at, dir.depth, next, full)
      ensures r.Err? ==> if full then r.errno == ENOSPC else Fault(JobOf(backup, env), 0) == Some(r.errno)
      ensures r.Err? ==> dir.depth == old(dir.depth)
    {
      hide Moving, Consistent, View, Live, Whole, EntryAt, BlocksOk, Fault, ProbeLevels, Filled, LowestWithRoom,
        NoRoomFrom, Slots, TypeByMode, DeType, Rehashed, InlineOk, MovedUpTo, PackedAll, WF;
      ghost var job := JobOf(backup, env);
      ghost var was, wasAt, wasDepth := dir.blocks, dir.at, dir.depth;
      ghost var it, after := MovingEntry(job, was, wasAt, wasDepth, pos, full);
      MovingParts(job, was, wasAt, wasDepth, pos, full);
      if !full { MovingMeets(job, was, wasAt, wasDepth, pos, it, after); }
      var e := EntryAt(backup, pos);
      next := pos + Slots(backup.dents[pos].nameLen);
      r := dir.AddRegular(e.name, e.ino, TypeByMode(DeType(e.fileType)), env.bad, 0);
      if r.Ok? {
        RehashedIs(e, dir.hash(e.name));
        MovingNext(job, was, wasAt, wasDepth, pos, e, next, dir.blocks, dir.at, dir.depth);
      }
    }

    /** f2fs_add_inline_entries: on failure the dentry blocks are punched again. */
    method AddInlineEntries(backup: Block, env: Env) returns (r: Result)
      requires dir.Valid() && dir.blocks == map[] && dir.at == map[] && dir.clevel == 0
      requires InlineOk(slots, dir.hash, backup, iat) && slots <= dir.g.slots && dir.g.maxDepth >= 2
      modifies dir
      ensures dir.Valid() && dir.clevel == 0
      ensures r.Ok? ==> dir.Contents() == RehashedAll(View(One(backup), iat))
      ensures r.Err? ==> dir.blocks == map[] && dir.at == map[]
      ensures old(dir.depth) < dir.g.maxDepth ==>
                match RehashFault(backup, slots, 0, dir.g, dir.hash, env.bad)
                case None => r.Ok?
                case Some(e) => r == Err(e)
      ensures old(dir.depth) == dir.g.maxDepth ==> r == if iat == map[] then Ok else Err(ENOSPC)
      ensures dir.depth == dir.g.maxDepth <==> old(dir.depth) == dir.g.maxDepth
      ensures r.Ok? ==> ClearFrom(dir.g, dir.blocks, slots)
    {
      hide Moving, InlineOk, Consistent, View, Live, BlocksOk, RehashFault, ClearFrom;
      ghost var job := JobOf(backup, env);
      ghost var full := dir.depth == dir.g.maxDepth;
      var pos: nat := 0;
      MovingBegins(job, dir.blocks, dir.at, dir.depth);
      while pos < slots
        invariant dir.Valid() && dir.clevel == 0
        invariant Moving(job, dir.blocks, dir.at, dir.depth, pos, full) && (full ==> dir.at == map[])
      {
        MovingWithin(job, dir.blocks, dir.at, dir.depth, pos, full);
        if !Live(backup, pos) {
          MovingSkips(job, dir.blocks, dir.at, dir.depth, pos, full);
          pos := pos + 1;
        } else {
          LiveListed(slots, dir.hash, backup, iat, pos);
          var next;
          r, next := MoveEntry(backup, pos, env, full);
          if r.Err? {
            dir.blocks, dir.at := map[], map[];
            NothingPlaced(dir.g, dir.hash, dir.depth);
            return;
          }
          pos := next;
        }
      }
      MovingWithin(job, dir.blocks, dir.at, dir.depth, pos, full);
      MovingEnds(job, dir.blocks, dir.at, dir.depth, full);
      ViewKeys(dir.blocks, dir.at);
      RehashedKeys(View(One(backup), iat));
      ViewKeys(One(backup), iat);
      r := Ok;
    }

    /** f2fs_move_rehashed_dirents: on failure the inline area is restored. */
    method MoveRehashedDirents(env: Env) returns (r: Result)
      requires Valid() && inlined
      modifies this, dir
      ensures Valid()
      ensures r.Ok? ==> !inlined && Contents() == RehashedAll(old(Contents()))
      ensures r.Ok? ==> area == Empty(slots)
      ensures r.Err? && !env.noMemory ==> dir.depth == 0
      ensures r.Err? ==> inlined && area == old(area) && Contents() == old(Contents())
      // It fails for want of memory or of a level, or with the error of the first entry whose first page cannot be had.
      ensures r == old(Rehashing(env))
      ensures r.Ok? ==> ClearFrom(dir.g, dir.blocks, slots) && dir.clevel == 0
      ensures r.Ok? ==> (dir.depth == dir.g.maxDepth <==> old(dir.depth) == dir.g.maxDepth)
    {
      hide Consistent, View, At, BlocksOk, ClearFrom;
      if env.noMemory {
        return Err(ENOMEM);
      }
      var backup := area;
      area := Empty(slots);
      r := AddInlineEntries(backup, env);
      if r.Err? {
        area := backup;
        dir.depth := 0;
        dir.npages := 1;
        NothingPlaced(dir.g, dir.hash, dir.depth);
      } else {
        inlined := false;
      }
    }

    /** do_convert_inline_dir. */
    method Convert(env: Env) returns (r: Result)
      requires Valid() && inlined
      modifies this, dir
      ensures Valid()
      ensures r.Ok? ==> !inlined && area == Empty(slots)
      ensures r.Ok? ==> Contents() == if dir.g.dirLevel == 0 then old(Contents()) else RehashedAll(old(Contents()))
      ensures r.Err? ==> inlined && area == old(area) && Contents() == old(Contents())
      ensures r.Ok? <==> old(Converts(env))
      ensures r == Err(EAGAIN) <==> old(Mistaken(env))
      ensures r.Ok? ==> ClearFrom(dir.g, dir.blocks, slots) && dir.clevel == 0
      ensures r.Ok? ==>
                (dir.depth == dir.g.maxDepth <==> old(dir.depth) == dir.g.maxDepth && dir.g.dirLevel != 0)
    {
      hide Consistent, View, At, BlocksOk, ClearFrom, RehashFault;
      if dir.g.dirLevel == 0 {
        r := MoveInlineDirents(env);
      } else {
        r := MoveRehashedDirents(env);
      }
    }

    /** The outcome of rehashing the entries. */
    ghost function Rehashing(env: Env): Result
      requires dir.g.maxBuckets > 0
      reads this, dir
    {
      if env.noMemory then Err(ENOMEM)
      else if dir.depth == dir.g.maxDepth then (if iat == map[] then Ok else Err(ENOSPC))
      else match RehashFault(area, slots, 0, dir.g, dir.hash, env.bad)
           case None => Ok
           case Some(e) => Err(e)
    }

    /** Nothing keeps the directory from being converted. */
    ghost predicate Converts(env: Env)
      requires dir.g.maxBuckets > 0
      reads this, dir
    {
      if dir.g.dirLevel == 0 then !env.noMemory && env.reserveErr == 0 && !env.staleBlock
      else Rehashing(env) == Ok
    }

    /** A layer below the conversion says EAGAIN, which f2fs_add_dentry then takes for a conversion done. */
    ghost predicate Mistaken(env: Env)
      requires dir.g.maxBuckets > 0
      reads this, dir
    {
      if dir.g.dirLevel == 0 then !env.noMemory && env.reserveErr == EAGAIN else Rehashing(env) == Err(EAGAIN)
    }

    ghost predicate RoomFor(e: Entry)
      reads this
    {
      HasRoom(area.bits, Slots(|e.name|))
    }

    /** The inline path fails with EAGAIN of its own accord, not because it has converted the directory. */
    ghost predicate Strands(e: Entry, env: Env)
      requires dir.g.maxBuckets > 0
      reads this, dir
    {
      && inlined
      && if env.pageErr != 0 then env.pageErr == EAGAIN
         else if RoomFor(e) then env.initErr == EAGAIN
         else Mistaken(env)
    }

    /** The inline path converts the directory to make room. */
    ghost predicate Moves(e: Entry, env: Env)
      requires dir.g.maxBuckets > 0
      reads this, dir
    {
      inlined && env.pageErr == 0 && !RoomFor(e) && Converts(env)
    }

    /** What was there before, as it is after a possible conversion. */
    ghost function Kept(was: map<Name, Maybe>, wasInlined: bool): map<Name, Maybe>
      reads this
    {
      if wasInlined && !inlined && dir.g.dirLevel != 0 then RehashedAll(was) else was
    }

    /** f2fs_add_inline_entry up to the point where it asks for the regular path (EAGAIN). */
    method AddInline(e: Entry, env: Env) returns (r: Result)
      requires Valid() && inlined && |e.name| > 0 && e.name !in Contents() && e.hash == dir.hash(e.name)
      modifies this, dir
      ensures Valid()
      ensures r.Ok? ==> inlined && Contents() == old(Contents())[e.name := Some(e)]
      ensures r.Err? ==> Contents() == Kept(old(Contents()), true)
      ensures env.pageErr != 0 ==> inlined && r == Err(env.pageErr)
      ensures env.pageErr == 0 && old(RoomFor(e)) ==> inlined && r == if env.initErr == 0 then Ok else Err(env.initErr)
      ensures env.pageErr == 0 && !old(RoomFor(e)) ==> r.Err? && (!inlined ==> r == Err(EAGAIN))
      ensures inlined && r == Err(EAGAIN) <==> old(Strands(e, env))
      ensures !inlined <==> old(Moves(e, env))
      ensures !inlined ==>
                && ClearFrom(dir.g, dir.blocks, slots) && dir.clevel == 0
                && (dir.depth == dir.g.maxDepth <==> old(dir.depth) == dir.g.maxDepth && dir.g.dirLevel != 0)
    {
      hide Consistent, View, At, WF, Tight, Live, EntryAt, Whole, ClearFrom, Converts;
      if env.pageErr != 0 {
        return Err(env.pageErr);
      }
      AreaOk(slots, area);
      var slot := RoomForFilename(area.bits, Slots(|e.name|));
      if slot >= |area.bits| {
        r := Convert(env);
        if r.Ok? {
          r := Err(EAGAIN);
        }
        return;
      }
      if env.initErr != 0 {
        return Err(env.initErr);
      }
      FitsNotLive(area, Slots(|e.name|), slot);
      ViewKeys(One(area), iat);
      var b := UpdateDentry(area, slots, e, slot);
      PutChanged(OneBlock(slots), One(area), 0, slot, e, b);
      OneBucket(slots, e.hash);
      PutKeeps(OneBlock(slots), dir.hash, One(area), 1, 1, iat, Pos(0, 0, slot), e, One(area)[0 := b]);
      assert One(area)[0 := b] == One(b);
      area := b;
      iat := iat[e.name := Pos(0, 0, slot)];
      r := Ok;
    }

    /**
      f2fs_add_dentry.  It is `stranded` when the directory is still inlined and the
      inline path failed with EAGAIN: the entry then goes into a dentry block that
      no lookup reads.
    */
    method AddDentry(e: Entry, env: Env) returns (r: Result, ghost stranded: bool)
      requires Valid() && |e.name| > 0 && e.name !in Contents() && e.hash == dir.hash(e.name)
      modifies this, dir
      ensures Readable()
      ensures !stranded && r.Ok? ==> Valid() && Contents() == Kept(old(Contents()), old(inlined))[e.name := Some(e)]
      ensures !stranded && r.Err? ==> Valid() && Contents() == Kept(old(Contents()), old(inlined))
      ensures stranded ==> inlined && Contents() == old(Contents()) && e.name !in Contents()
      // Exactly when that happens.
      ensures stranded <==> old(Strands(e, env))
      // And what it answers: on the inline path,
      ensures old(inlined) && !stranded && env.pageErr != 0 ==> r == Err(env.pageErr)
      ensures old(inlined) && !stranded && env.pageErr == 0 && old(RoomFor(e)) ==>
                r == if env.initErr == 0 then Ok else Err(env.initErr)
      ensures old(inlined) && !stranded && env.pageErr == 0 && !old(RoomFor(e)) && !old(Converts(env)) ==> r.Err?
      // after a conversion, by the first page asked for, which has room for any name,
      ensures old(Moves(e, env)) && slots + Slots(|e.name|) <= dir.g.slots ==>
                var k := FirstPage(dir.g, e.hash);
                r == if old(dir.depth) == dir.g.maxDepth && dir.g.dirLevel != 0 then Err(ENOSPC)
                     else if Unread(dir.g, env.bad, k) then Err(ErrorOf(env.bad, k))
                     else if env.retryErr != 0 then Err(env.retryErr) else Ok
      // and on the regular path, by the search for room.
      ensures !old(inlined) ==>
                Ends(ProbeLevels(dir.g, old(dir.blocks), old(dir.StartLevel(e.name)), old(dir.depth), e.hash,
                                 Slots(|e.name|), env.bad), env.retryErr, e.name, r, dir.at)
    {
      hide Consistent, View, At, BlocksOk, ProbeLevels, Converts, ClearFrom, FirstPage, Filled, LowestWithRoom,
        NoRoomFrom, Slots;
      stranded := false;
      if inlined {
        r := AddInline(e, env);
        if r != Err(EAGAIN) {
          return;
        }
        stranded := inlined;
      }
      ViewKeys(dir.blocks, dir.at);
      if !inlined && old(inlined) && dir.depth < dir.g.maxDepth && slots + Slots(|e.name|) <= dir.g.slots {
        ProbeFirst(dir.g, dir.blocks, slots, e.hash, dir.depth, Slots(|e.name|), env.bad);
      }
      r := dir.AddRegular(e.name, e.ino, e.fileType, env.bad, env.retryErr);
    }

    /** f2fs_find_entry, in either form. */
    method FindEntry(name: Name, bad: map<nat, int>) returns (m: Maybe, r: Result)
      requires Readable() && |name| > 0
      modifies dir`chash, dir`clevel
      ensures Readable() && (old(Valid()) ==> Valid()) && Contents() == old(Contents())
      ensures r.Ok? ==> m == if name in Contents() then Contents()[name] else None
      // In dentry blocks it fails at a page that cannot be had before the answer is known, and only there.
      ensures inlined ==> r.Ok?
      ensures r.Err? ==> exists k: nat :: Stop(dir.g, dir.depth, dir.hash(name), bad, k) &&
                           (name in dir.at ==> k <= dir.at[name].block)
      ensures !inlined && (name in dir.at || (dir.npages > 0 && Base(dir.g, dir.depth) < U32)) ==>
                forall k: nat :: FirstStop(dir.g, dir.depth, dir.hash(name), bad, k) ==>
                  name !in dir.at || k <= dir.at[name].block ==> r == Err(ErrorOf(bad, k))
    {
      hide Consistent, BlocksOk, WF, Tight, Stop, FirstStop, Base;
      m, r := None, Ok;
      if inlined {
        AreaOk(slots, area);
        var found, pos, _ := FindTarget(area, slots, name, dir.hash(name));
        if found {
          m := Some(EntryAt(area, pos));
          AreaHit(slots, dir.hash, area, iat, name, pos);
        } else {
          AreaMiss(slots, dir.hash, area, iat, name);
        }
      } else {
        var it := dir.Find(name, bad);
        match it
        case Found(k, p) =>
          m := Some(EntryAt(dir.blocks[k], p));
        case Missing =>
        case Failed(e) =>
          r := Err(e);
      }
    }
  }
}
