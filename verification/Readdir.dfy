/**
  readdir (f2fs_readdir and f2fs_fill_dentries in dir.c, f2fs_read_inline_dir in
  inline.c): a listing that the caller takes in portions, each call going on
  from the position where the last one stopped.  Block numbers and positions are
  computed in 32 bits.

  dir_emit refuses an entry when the caller's buffer is full; `room` is how many
  entries it takes.
*/
module Readdir {

  import opened Bitmap
  import opened DentryBlock
  import Arith
  import opened Widths
  import InlineDir

  const NAME_LEN: nat := 255

  /** What dir_emit is given, and where the entry starts. */
  datatype Dirent = Dirent(pos: nat, name: Name, ino: nat, kind: nat)

  datatype Stop = Done | BufferFull | Corrupted | Unreadable

  /** Where block `k` starts, in full and as the source computes it in 32 bits; the slot a position points at. */
  function PosOf(k: nat, n: nat): nat
  {
    Arith.NonNeg(k, n);
    k * n
  }

  function BaseOf(k: nat, n: nat): nat { PosOf(k, n) % U32 }

  function SlotOf(pos: nat, n: nat): nat
    requires n > 0
  {
    pos % n
  }

  function Emit(pos: nat, e: Entry): Dirent { Dirent(pos, e.name, e.ino, InlineDir.DeType(e.fileType)) }

  // ------------------------------------------------------------------ one block

  /** The entries of a block that start at slot `p` or later. */
  ghost function BlockAhead(b: Block, n: nat, base: nat, p: nat): seq<Dirent>
    decreases n - p
  {
    if p >= n then []
    else if Live(b, p) && Whole(b, p) then [Emit(base + p, EntryAt(b, p))] + BlockAhead(b, n, base, p + 1)
    else BlockAhead(b, n, base, p + 1)
  }

  lemma {:induction false} SkipDead(b: Block, n: nat, base: nat, p: nat, q: nat)
    requires p <= q <= n && forall s: nat :: p <= s < q ==> !Live(b, s)
    ensures BlockAhead(b, n, base, p) == BlockAhead(b, n, base, q)
    decreases q - p
  {
    if p < q { SkipDead(b, n, base, p + 1, q); }
  }

  /** An entry, then whatever starts after its last slot. */
  lemma TakeEntry(b: Block, n: nat, base: nat, p: nat)
    requires WF(b, n) && Live(b, p)
    ensures Whole(b, p)
    ensures var next := p + Slots(b.dents[p].nameLen);
            && p < next <= n && AfterBit(b, next)
            && BlockAhead(b, n, base, p) == [Emit(base + p, EntryAt(b, p))] + BlockAhead(b, n, base, next)
  {
    assert Whole(b, p);
    var next := p + Slots(b.dents[p].nameLen);
    SkipDead(b, n, base, p + 1, next);
  }

  /**
    f2fs_fill_dentries.  `base` numbers the entries, `base32` is the start_pos the
    source computes; the position is left at slot `stopped`.
  */
  method FillDentries(b: Block, n: nat, pos: nat, base: nat, base32: nat, room: nat)
    returns (out: seq<Dirent>, pos': nat, stop: Stop, ghost stopped: nat)
    requires WF(b, n) && n > 0
    ensures out + BlockAhead(b, n, base, stopped) == BlockAhead(b, n, base, SlotOf(pos, n))
    ensures pos' == if stopped == SlotOf(pos, n) then pos else (base32 + stopped) % U32
    ensures stopped == SlotOf(pos, n) || (SlotOf(pos, n) < stopped && AfterBit(b, stopped))
    ensures stopped <= n && |out| <= room && stop != Unreadable
    ensures forall d :: d in out ==> |d.name| <= NAME_LEN
    // At the end the position is past the last slot in use.
    ensures stop == Done ==> BlockAhead(b, n, base, stopped) == [] && forall q :: stopped <= q < |b.bits| ==> !b.bits[q]
    ensures stop == BufferFull ==> |out| == room && |BlockAhead(b, n, base, stopped)| > 0
    ensures stop == Corrupted ==> exists d :: d in BlockAhead(b, n, base, stopped) && |d.name| > NAME_LEN
  {
    hide BlockAhead, Live, Whole, EntryAt, WF, SlotOf;
    var bit := SlotOf(pos, n);
    SlotBelow(pos, n);
    out, pos', stop, stopped := [], pos, Done, bit;
    while bit < n
      invariant SlotOf(pos, n) <= stopped <= bit <= n && |out| <= room
      invariant forall s: nat :: stopped <= s < bit ==> !Live(b, s)
      invariant forall q :: stopped <= q < bit && q < |b.bits| ==> !b.bits[q]
      invariant forall d :: d in out ==> |d.name| <= NAME_LEN
      invariant pos' == if stopped == SlotOf(pos, n) then pos else (base32 + stopped) % U32
      invariant stopped == SlotOf(pos, n) || AfterBit(b, stopped)
      invariant out + BlockAhead(b, n, base, stopped) == BlockAhead(b, n, base, SlotOf(pos, n))
    {
      ghost var from := bit;
      Shape(b, n);
      bit := FindNext(b.bits, true, bit);
      ClearDead(b, from, bit);
      if bit >= n {
        break;
      }
      LiveIff(b, n, bit);
      if b.dents[bit].nameLen == 0 {
        bit := bit + 1;
        SkipDead(b, n, base, stopped, bit);
        pos', stopped := (base32 + bit) % U32, bit;
      } else {
        var at := bit;
        SkipDead(b, n, base, stopped, at);
        TakeEntry(b, n, base, at);
        bit := bit + Slots(b.dents[at].nameLen);
        if bit > n || b.dents[at].nameLen > NAME_LEN {
          FirstIn(b, n, base, at);
          return out, pos', Corrupted, stopped;
        }
        if |out| >= room {
          return out, pos', BufferFull, stopped;
        }
        NameLen(b, at);
        out := out + [Emit(base + at, EntryAt(b, at))];
        pos', stopped := (base32 + bit) % U32, bit;
      }
    }
    SkipDead(b, n, base, stopped, n);
    AheadEnd(b, n, base);
    Shape(b, n);
  }

  lemma NameLen(b: Block, p: nat)
    requires Live(b, p) && Whole(b, p)
    ensures p < |b.dents| && |EntryAt(b, p).name| == b.dents[p].nameLen
  {
  }

  /** The slot before `p` is in use. */
  predicate AfterBit(b: Block, p: nat) { 0 < p <= |b.bits| && b.bits[p - 1] }

  lemma SlotBelow(pos: nat, n: nat)
    requires n > 0
    ensures SlotOf(pos, n) < n
  {
    Arith.Division(pos, n);
  }

  lemma Shape(b: Block, n: nat)
    requires WF(b, n)
    ensures |b.bits| == n && |b.dents| == n
  {
  }

  lemma ClearDead(b: Block, from: nat, to: nat)
    requires from <= to <= |b.bits| && forall q :: from <= q < to ==> b.bits[q] != true
    ensures forall s: nat :: from <= s < to ==> !Live(b, s)
  {
  }

  lemma LiveIff(b: Block, n: nat, p: nat)
    requires WF(b, n) && p < n && b.bits[p]
    ensures p < |b.dents| && (Live(b, p) <==> b.dents[p].nameLen != 0)
  {
  }

  lemma AheadEnd(b: Block, n: nat, base: nat)
    ensures BlockAhead(b, n, base, n) == []
  {
  }

  lemma FirstIn(b: Block, n: nat, base: nat, p: nat)
    requires WF(b, n) && Live(b, p)
    ensures Whole(b, p) && Emit(base + p, EntryAt(b, p)) in BlockAhead(b, n, base, p)
    ensures |EntryAt(b, p).name| == b.dents[p].nameLen
  {
    assert Whole(b, p);
  }

  // ------------------------------------------------------------- the directory

  type Blocks = map<nat, Block>

  ghost predicate AllWF(blocks: Blocks, n: nat) { forall k :: k in blocks ==> WF(blocks[k], n) }

  /** The slot at which a call that comes from the block before enters block `k`. */
  function EntrySlot(k: nat, n: nat): nat
    requires n > 0
  {
    SlotOf(BaseOf(k, n), n)
  }

  /** What one call lists from slot `p` of block `k` on. */
  ghost function Ahead(blocks: Blocks, n: nat, npages: nat, k: nat, p: nat): seq<Dirent>
    requires n > 0
    decreases npages - k
  {
    if k >= npages then []
    else InBlock(blocks, n, k, p) + Ahead(blocks, n, npages, k + 1, EntrySlot(k + 1, n))
  }

  ghost function InBlock(blocks: Blocks, n: nat, k: nat, p: nat): seq<Dirent> {
    if k in blocks then BlockAhead(blocks[k], n, PosOf(k, n), p) else []
  }

  /** The block that a position stands for, cut to 32 bits. */
  function BlockOf(pos: nat, n: nat): nat
    requires n > 0
  {
    pos / n % U32
  }

  /** What one call lists from a position, given room. */
  ghost function Listing(blocks: Blocks, n: nat, npages: nat, pos: nat): seq<Dirent>
    requires n > 0
  {
    Ahead(blocks, n, npages, BlockOf(pos, n), SlotOf(pos, n))
  }

  /** Where a call that comes to the end leaves the position. */
  function EndPos(n: nat, npages: nat, pos: nat): nat
    requires n > 0
  {
    if BlockOf(pos, n) >= npages then pos else BaseOf(npages, n)
  }

  /** The position with which a call from `pos` enters block `k`. */
  function EnterAt(n: nat, pos: nat, k: nat): nat
    requires n > 0
  {
    if k == BlockOf(pos, n) then pos else BaseOf(k, n)
  }

  /** The position left by a call from `pos` that stops before slot `s` of block `k`. */
  predicate Left(n: nat, pos: nat, k: nat, s: nat, pos': nat)
    requires n > 0
  {
    && BlockOf(pos, n) <= k
    && pos' == if s == SlotOf(EnterAt(n, pos, k), n) then EnterAt(n, pos, k) else (BaseOf(k, n) + s) % U32
  }

  /** A call stops where it enters a block, or after a slot that is in use. */
  predicate StopPlace(blocks: Blocks, n: nat, pos: nat, k: nat, s: nat)
    requires n > 0
  {
    var enter := SlotOf(EnterAt(n, pos, k), n);
    s == enter || (enter < s && k in blocks && AfterBit(blocks[k], s))
  }

  /**
    f2fs_readdir on a directory of dentry blocks, as many as a file can have.
    `bad` are blocks whose page cannot be read.  What is left is what a call
    from slot `s` of block `k` would list.
  */
  method ReadDir(blocks: Blocks, n: nat, npages: nat, pos: nat, room: nat, bad: set<nat>)
    returns (out: seq<Dirent>, pos': nat, stop: Stop, ghost k: nat, ghost s: nat)
    requires n > 0 && npages < U32 && AllWF(blocks, n)
    ensures out + Ahead(blocks, n, npages, k, s) == Listing(blocks, n, npages, pos) && |out| <= room
    ensures stop == Done ==> Ahead(blocks, n, npages, k, s) == [] && pos' == EndPos(n, npages, pos)
    ensures stop != Done ==> k < npages && s < n && Left(n, pos, k, s, pos') && StopPlace(blocks, n, pos, k, s)
    ensures stop == BufferFull ==> |out| == room && |Ahead(blocks, n, npages, k, s)| > 0
    ensures stop == Corrupted ==> exists d :: d in Ahead(blocks, n, npages, k, s) && |d.name| > NAME_LEN
    ensures stop == Unreadable ==> k in bad
    ensures stop == Done || stop == BufferFull ==> Made(blocks, n, npages, Call(pos, out, pos', stop == Done, k, s))
  {
    hide Ahead, InBlock, BlockAhead, WF, BlockOf, PosOf, BaseOf, SlotOf;
    var block := BlockOf(pos, n);
    out, pos', stop := [], pos, Done;
    k, s := block, SlotOf(pos, n);
    while block < npages
      invariant k == block && s == SlotOf(pos', n)
      invariant pos' == EnterAt(n, pos, block)
      invariant BlockOf(pos, n) <= block && (BlockOf(pos, n) < block ==> block <= npages)
      invariant |out| <= room
      invariant out + Ahead(blocks, n, npages, k, s) == Listing(blocks, n, npages, pos)
    {
      SlotBelow(pos', n);
      EnterBlock(n, pos, block, s, pos');
      if block in bad {
        return out, pos', Unreadable, k, s;
      }
      AheadStep(blocks, n, npages, block, s);
      ghost var rest := Ahead(blocks, n, npages, block + 1, EntrySlot(block + 1, n));
      var part := [];
      NoBlock(blocks, n, block, s);
      if block in blocks {
        var at, why;
        ghost var stopped;
        part, at, why, stopped := FillDentries(blocks[block], n, pos', PosOf(block, n), BaseOf(block, n), room - |out|);
        if why != Done {
          StopBlock(blocks, n, npages, pos, block, s, pos', stopped, at);
          Glue(out, part, InBlock(blocks, n, block, stopped), rest);
          return out + part, at, why, block, stopped;
        }
        Glue(out, part, [], rest);
      }
      out := out + part;
      block := block + 1;
      pos' := BaseOf(block, n);
      k, s := block, SlotOf(pos', n);
    }
    AheadPast(blocks, n, npages, k, s);
  }

  lemma EnterBlock(n: nat, pos: nat, block: nat, s: nat, pos': nat)
    requires n > 0 && BlockOf(pos, n) <= block && s == SlotOf(pos', n) && pos' == EnterAt(n, pos, block)
    ensures Left(n, pos, block, s, pos') && forall blocks :: StopPlace(blocks, n, pos, block, s)
  {
  }

  lemma Glue(out: seq<Dirent>, part: seq<Dirent>, left: seq<Dirent>, rest: seq<Dirent>)
    ensures out + ((part + left) + rest) == (out + part) + (left + rest)
    ensures left == [] ==> out + ((part + left) + rest) == (out + part) + rest && part + left == part
  {
  }

  lemma NoBlock(blocks: Blocks, n: nat, k: nat, p: nat)
    ensures k !in blocks ==> InBlock(blocks, n, k, p) == []
    ensures k in blocks ==> InBlock(blocks, n, k, p) == BlockAhead(blocks[k], n, PosOf(k, n), p)
  {
  }

  lemma AheadPast(blocks: Blocks, n: nat, npages: nat, k: nat, p: nat)
    requires n > 0 && k >= npages
    ensures Ahead(blocks, n, npages, k, p) == []
  {
  }

  lemma AheadStep(blocks: Blocks, n: nat, npages: nat, k: nat, p: nat)
    requires n > 0 && k < npages
    ensures Ahead(blocks, n, npages, k, p) ==
            InBlock(blocks, n, k, p) + Ahead(blocks, n, npages, k + 1, EntrySlot(k + 1, n))
  {
  }

  /** A call that stops in block `k`, which it entered at slot `s` with position `at`. */
  lemma StopBlock(blocks: Blocks, n: nat, npages: nat, pos: nat, k: nat, s: nat, at: nat, stopped: nat, at': nat)
    requires n > 0 && k < npages && k in blocks && stopped <= n && s == SlotOf(at, n)
    requires at == EnterAt(n, pos, k) && BlockOf(pos, n) <= k
    requires at' == if stopped == s then at else (BaseOf(k, n) + stopped) % U32
    requires stopped == s || (s < stopped && AfterBit(blocks[k], stopped))
    requires |BlockAhead(blocks[k], n, PosOf(k, n), stopped)| > 0
    ensures stopped < n && Left(n, pos, k, stopped, at') && StopPlace(blocks, n, pos, k, stopped)
    ensures Ahead(blocks, n, npages, k, stopped) ==
            InBlock(blocks, n, k, stopped) + Ahead(blocks, n, npages, k + 1, EntrySlot(k + 1, n))
    ensures InBlock(blocks, n, k, stopped) == BlockAhead(blocks[k], n, PosOf(k, n), stopped)
  {
    AheadEnd(blocks[k], n, PosOf(k, n));
    AheadStep(blocks, n, npages, k, stopped);
  }

  // ------------------------------------------------------- what a listing contains

  /** The directory holds this entry. */
  ghost predicate Holds(blocks: Blocks, n: nat, d: Dirent)
    requires n > 0
  {
    var k, p := d.pos / n, d.pos % n;
    k in blocks && Live(blocks[k], p) && Whole(blocks[k], p) && d == Emit(d.pos, EntryAt(blocks[k], p))
  }

  ghost predicate Ascending(s: seq<Dirent>) {
    forall i, j :: 0 <= i < j < |s| ==> s[i].pos < s[j].pos
  }

  lemma {:induction false} BlockExact(b: Block, n: nat, base: nat, p: nat, d: Dirent)
    requires p <= n
    ensures d in BlockAhead(b, n, base, p) <==>
              && base + p <= d.pos < base + n
              && Live(b, d.pos - base) && Whole(b, d.pos - base) && d == Emit(d.pos, EntryAt(b, d.pos - base))
    decreases n - p
  {
    if p < n { BlockExact(b, n, base, p + 1, d); }
  }

  lemma {:induction false} BlockAscending(b: Block, n: nat, base: nat, p: nat)
    requires p <= n
    ensures Ascending(BlockAhead(b, n, base, p))
    decreases n - p
  {
    if p < n {
      BlockAscending(b, n, base, p + 1);
      var rest := BlockAhead(b, n, base, p + 1);
      forall i | 0 <= i < |rest|
        ensures base + p < rest[i].pos
      {
        BlockExact(b, n, base, p + 1, rest[i]);
      }
    }
  }

  /** A call from slot `p` of block `k` comes past slot `q` of block `j`. */
  predicate Passes(n: nat, npages: nat, k: nat, p: nat, j: nat, q: nat)
    requires n > 0
  {
    j < npages && ((j == k && p <= q) || (k < j && EntrySlot(j, n) <= q))
  }

  lemma InBlockExact(blocks: Blocks, n: nat, k: nat, p: nat, d: Dirent)
    requires p < n
    ensures d in InBlock(blocks, n, k, p) <==> Holds(blocks, n, d) && d.pos / n == k && p <= d.pos % n
  {
    Arith.Division(d.pos, n);
    if PosOf(k, n) <= d.pos < PosOf(k, n) + n {
      Arith.DivMod(k, n, d.pos - PosOf(k, n));
    }
    if k in blocks { BlockExact(blocks[k], n, PosOf(k, n), p, d); }
  }

  /** One call lists exactly the entries it comes past ... */
  lemma {:induction false} AheadExact(blocks: Blocks, n: nat, npages: nat, k: nat, p: nat, d: Dirent)
    requires p < n
    ensures d in Ahead(blocks, n, npages, k, p) <==>
              Holds(blocks, n, d) && Passes(n, npages, k, p, d.pos / n, d.pos % n)
    decreases npages - k
  {
    hide Holds, InBlock;
    if k < npages {
      SlotBelow(BaseOf(k + 1, n), n);
      AheadExact(blocks, n, npages, k + 1, EntrySlot(k + 1, n), d);
      InBlockExact(blocks, n, k, p, d);
    }
  }

  /** ... each once and in order. */
  lemma {:induction false} AheadAscending(blocks: Blocks, n: nat, npages: nat, k: nat, p: nat)
    requires p < n
    ensures Ascending(Ahead(blocks, n, npages, k, p))
    decreases npages - k
  {
    hide Ascending, BlockAhead, InBlock;
    if k < npages {
      var here := InBlock(blocks, n, k, p);
      var e := EntrySlot(k + 1, n);
      SlotBelow(BaseOf(k + 1, n), n);
      var rest := Ahead(blocks, n, npages, k + 1, e);
      AheadAscending(blocks, n, npages, k + 1, e);
      HereAscending(blocks, n, k, p);
      forall i, j | 0 <= i < |here| && 0 <= j < |rest|
        ensures here[i].pos < rest[j].pos
      {
        HereFirst(blocks, n, npages, k, p, here[i], rest[j]);
      }
      Join(here, rest);
    } else {
      NoneAscending();
    }
  }

  lemma NoneAscending()
    ensures Ascending([])
  {
  }

  lemma HereAscending(blocks: Blocks, n: nat, k: nat, p: nat)
    requires p < n
    ensures Ascending(InBlock(blocks, n, k, p))
  {
    if k in blocks { BlockAscending(blocks[k], n, PosOf(k, n), p); }
  }

  lemma HereFirst(blocks: Blocks, n: nat, npages: nat, k: nat, p: nat, d: Dirent, e: Dirent)
    requires p < n && d in InBlock(blocks, n, k, p) && e in Ahead(blocks, n, npages, k + 1, EntrySlot(k + 1, n))
    ensures d.pos < e.pos
  {
    hide Ahead, InBlock, Holds;
    InBlockExact(blocks, n, k, p, d);
    SlotBelow(BaseOf(k + 1, n), n);
    AheadExact(blocks, n, npages, k + 1, EntrySlot(k + 1, n), e);
    Earlier(n, d.pos, e.pos);
  }

  lemma Earlier(n: nat, a: nat, b: nat)
    requires n > 0 && a / n < b / n
    ensures a < b
  {
    Arith.Division(a, n);
    Arith.Division(b, n);
    Arith.Multiples(a / n, b / n, n);
  }

  lemma Join(a: seq<Dirent>, b: seq<Dirent>)
    requires Ascending(a) && Ascending(b)
    requires forall i, j :: 0 <= i < |a| && 0 <= j < |b| ==> a[i].pos < b[j].pos
    ensures Ascending(a + b)
  {
  }

  // --------------------------------------------------------------- where it starts

  /** Positions below 2^32 stand for their own block and slot, and blocks below are entered at slot 0. */
  lemma OwnPlace(n: nat, k: nat, p: nat)
    requires p < n && PosOf(k, n) + p < U32
    ensures BaseOf(k, n) == PosOf(k, n) && EntrySlot(k, n) == 0
    ensures BlockOf(PosOf(k, n) + p, n) == k && SlotOf(PosOf(k, n) + p, n) == p
  {
    Arith.DivMod(k, n, p);
    Arith.DivMod(k, n, 0);
    Arith.Times(k, n);
    Arith.DivSmall(PosOf(k, n), U32);
    Arith.DivSmall(k, U32);
  }

  lemma PlaceOf(n: nat, pos: nat)
    requires n > 0 && pos < U32
    ensures BlockOf(pos, n) == pos / n && pos == PosOf(pos / n, n) + pos % n && pos % n < n
  {
    Arith.Division(pos, n);
    Arith.DivBound(pos, n);
    Arith.DivSmall(pos / n, U32);
  }

  /** A live entry at or after position `w`. */
  ghost predicate LiveFrom(blocks: Blocks, n: nat, npages: nat, w: nat)
    requires n > 0
  {
    exists d :: Holds(blocks, n, d) && w <= d.pos < PosOf(npages, n)
  }

  /**
    The condition: positions do not reach 2^32, or nothing lies at or after the
    place that the end position wraps to.
  */
  ghost predicate Resumable(blocks: Blocks, n: nat, npages: nat)
    requires n > 0
  {
    PosOf(npages, n) < U32 || !LiveFrom(blocks, n, npages, BaseOf(npages, n))
  }

  lemma Near(blocks: Blocks, n: nat, npages: nat, d: Dirent)
    requires n > 0 && Resumable(blocks, n, npages) && Holds(blocks, n, d) && d.pos < PosOf(npages, n)
    ensures d.pos < U32
  {
  }

  lemma InPages(n: nat, npages: nat, pos: nat)
    requires n > 0
    ensures pos < PosOf(npages, n) <==> pos / n < npages
  {
    Arith.Division(pos, n);
    if pos / n < npages { Arith.Multiples(pos / n, npages, n); } else { Arith.Grid(npages, pos / n, n); }
  }

  /** Then a call from a position lists what lies at or after it, each entry once and in order. */
  lemma ListingExact(blocks: Blocks, n: nat, npages: nat, pos: nat, d: Dirent)
    requires n > 0 && pos < U32 && Resumable(blocks, n, npages)
    ensures d in Listing(blocks, n, npages, pos) <==> Holds(blocks, n, d) && pos <= d.pos < PosOf(npages, n)
    ensures Ascending(Listing(blocks, n, npages, pos))
  {
    hide Holds, Ascending, Ahead, Resumable;
    PlaceOf(n, pos);
    AheadExact(blocks, n, npages, pos / n, pos % n, d);
    AheadAscending(blocks, n, npages, pos / n, pos % n);
    InPages(n, npages, d.pos);
    Arith.Division(d.pos, n);
    if Holds(blocks, n, d) && d.pos < PosOf(npages, n) {
      Near(blocks, n, npages, d);
      OwnPlace(n, d.pos / n, d.pos % n);
    }
    hide PosOf;
    Order(n, pos, d.pos);
  }

  /** Positions are ordered by block, then by slot. */
  lemma Order(n: nat, a: nat, b: nat)
    requires n > 0
    ensures a <= b <==> a / n < b / n || (a / n == b / n && a % n <= b % n)
  {
    Arith.Division(a, n);
    Arith.Division(b, n);
    if a / n < b / n { Earlier(n, a, b); }
    if b / n < a / n { Earlier(n, b, a); }
  }

  // ------------------------------------------------------------------ resumption

  /** A call that ended without error: what it was given, what it handed out, and where it stopped. */
  datatype Call = Call(from: nat, out: seq<Dirent>, to: nat, done: bool, k: nat, s: nat)

  /** What ReadDir promises of such a call. */
  ghost predicate Made(blocks: Blocks, n: nat, npages: nat, c: Call)
    requires n > 0
  {
    && c.out + Ahead(blocks, n, npages, c.k, c.s) == Listing(blocks, n, npages, c.from)
    && if c.done
       then Ahead(blocks, n, npages, c.k, c.s) == [] && c.to == EndPos(n, npages, c.from)
       else
         && |Ahead(blocks, n, npages, c.k, c.s)| > 0 && c.s < n
         && Left(n, c.from, c.k, c.s, c.to) && StopPlace(blocks, n, c.from, c.k, c.s)
  }

  ghost predicate Calls(blocks: Blocks, n: nat, npages: nat, from: nat, calls: seq<Call>)
    requires n > 0
  {
    && |calls| > 0 && calls[0].from == from
    && (forall i :: 0 <= i < |calls| ==> Made(blocks, n, npages, calls[i]))
    && (forall i :: 0 < i < |calls| ==> calls[i].from == calls[i - 1].to)
  }

  ghost function AllOut(calls: seq<Call>): seq<Dirent> {
    if calls == [] then [] else AllOut(calls[..|calls| - 1]) + calls[|calls| - 1].out
  }

  /**
    What the caller has been handed is right: entries at or after the start, each
    once and in order, and all of them once a call has come to the end.
  */
  ghost predicate Right(blocks: Blocks, n: nat, npages: nat, from: nat, calls: seq<Call>)
    requires n > 0
  {
    && Ascending(AllOut(calls))
    && (forall d :: d in AllOut(calls) ==> Holds(blocks, n, d) && from <= d.pos < PosOf(npages, n))
    && ((exists i :: 0 <= i < |calls| && calls[i].done) ==>
          forall d :: Holds(blocks, n, d) && from <= d.pos < PosOf(npages, n) ==> d in AllOut(calls))
  }

  /** Under the condition each call leaves exactly what it did not hand out. */
  lemma CallLaw(blocks: Blocks, n: nat, npages: nat, c: Call)
    requires n > 0 && Resumable(blocks, n, npages) && c.from < U32 && Made(blocks, n, npages, c)
    ensures c.to < U32 && c.out + Listing(blocks, n, npages, c.to) == Listing(blocks, n, npages, c.from)
    ensures c.done ==> Listing(blocks, n, npages, c.to) == []
  {
    hide Ahead, Holds, Resumable;
    if c.done {
      EndIsEnd(blocks, n, npages, c.from);
    } else {
      var rest := Ahead(blocks, n, npages, c.k, c.s);
      var d := rest[0];
      assert d in rest;
      AheadExact(blocks, n, npages, c.k, c.s, d);
      InPages(n, npages, d.pos);
      Near(blocks, n, npages, d);
      Arith.DivMod(c.k, n, c.s);
      Order(n, PosOf(c.k, n) + c.s, d.pos);
      OwnPlace(n, c.k, c.s);
      StopsThere(n, c.from, c.k, c.s, c.to);
    }
  }

  lemma StopsThere(n: nat, pos: nat, k: nat, s: nat, to: nat)
    requires s < n && PosOf(k, n) + s < U32 && pos < U32 && Left(n, pos, k, s, to)
    ensures to < U32 && BlockOf(to, n) == k && SlotOf(to, n) == s
  {
    OwnPlace(n, k, s);
    Arith.DivSmall(PosOf(k, n) + s, U32);
  }

  lemma EndIsEnd(blocks: Blocks, n: nat, npages: nat, pos: nat)
    requires n > 0 && Resumable(blocks, n, npages) && pos < U32
    ensures EndPos(n, npages, pos) < U32 && Listing(blocks, n, npages, EndPos(n, npages, pos)) == []
  {
    var w := EndPos(n, npages, pos);
    var list := Listing(blocks, n, npages, w);
    if list != [] {
      var d := list[0];
      assert d in list;
      ListingExact(blocks, n, npages, w, d);
      if BlockOf(pos, n) >= npages {
        PlaceOf(n, pos);
        InPages(n, npages, d.pos);
        Order(n, pos, d.pos);
      } else if PosOf(npages, n) < U32 {
        Arith.DivSmall(PosOf(npages, n), U32);
      }
      assert false;
    }
  }

  /** However the calls are split, together they hand out the listing from the front. */
  lemma {:induction false} Resumption(blocks: Blocks, n: nat, npages: nat, from: nat, calls: seq<Call>)
    requires n > 0 && Resumable(blocks, n, npages) && from < U32 && Calls(blocks, n, npages, from, calls)
    ensures calls[|calls| - 1].to < U32
    ensures AllOut(calls) + Listing(blocks, n, npages, calls[|calls| - 1].to) == Listing(blocks, n, npages, from)
    ensures (exists i :: 0 <= i < |calls| && calls[i].done) ==> AllOut(calls) == Listing(blocks, n, npages, from)
  {
    hide Listing, Made, Resumable;
    var last := calls[|calls| - 1];
    var init := calls[..|calls| - 1];
    if |init| > 0 {
      Resumption(blocks, n, npages, from, init);
      assert last.from == init[|init| - 1].to;
      CallLaw(blocks, n, npages, last);
      if i :| 0 <= i < |init| && calls[i].done { assert init[i].done; }
    } else {
      CallLaw(blocks, n, npages, last);
    }
  }

  lemma ResumedRight(blocks: Blocks, n: nat, npages: nat, from: nat, calls: seq<Call>)
    requires n > 0 && Resumable(blocks, n, npages) && from < U32 && Calls(blocks, n, npages, from, calls)
    ensures Right(blocks, n, npages, from, calls)
  {
    hide Listing, Made, Resumable, Holds, AllOut, Calls;
    Resumption(blocks, n, npages, from, calls);
    var all, list := AllOut(calls), Listing(blocks, n, npages, from);
    assert forall i :: 0 <= i < |all| ==> all[i] == list[i];
    forall d
      ensures d in list <==> Holds(blocks, n, d) && from <= d.pos < PosOf(npages, n)
      ensures Ascending(list)
    {
      ListingExact(blocks, n, npages, from, d);
    }
    assert Ascending(all);
  }

  /** From a position at or before it, an entry is listed unless it lies before the slot where its block is entered. */
  lemma ListedIff(blocks: Blocks, n: nat, npages: nat, pos: nat, d: Dirent)
    requires n > 0 && pos < U32 && Holds(blocks, n, d) && pos <= d.pos < PosOf(npages, n)
    ensures d in Listing(blocks, n, npages, pos) <==> EntrySlot(d.pos / n, n) <= d.pos % n
    ensures d.pos < U32 ==> EntrySlot(d.pos / n, n) == 0
  {
    hide Holds, Ahead;
    PlaceOf(n, pos);
    AheadExact(blocks, n, npages, pos / n, pos % n, d);
    InPages(n, npages, d.pos);
    Order(n, pos, d.pos);
    Arith.Division(d.pos, n);
    if d.pos < U32 { OwnPlace(n, d.pos / n, d.pos % n); }
    if d.pos / n == pos / n { OwnPlace(n, pos / n, pos % n); }
  }

  /** The call from `pos` that has room for everything. */
  ghost function FullCall(blocks: Blocks, n: nat, npages: nat, pos: nat): (c: Call)
    requires n > 0
    ensures Made(blocks, n, npages, c)
  {
    AheadPast(blocks, n, npages, npages, 0);
    Call(pos, Listing(blocks, n, npages, pos), EndPos(n, npages, pos), true, npages, 0)
  }

  /** Two calls with room for everything, one from the start and one from where it ended, go wrong. */
  lemma ResumedWrong(blocks: Blocks, n: nat, npages: nat, from: nat) returns (calls: seq<Call>)
    requires n > 0 && from < U32 && !Resumable(blocks, n, npages)
    ensures Calls(blocks, n, npages, from, calls) && !Right(blocks, n, npages, from, calls)
  {
    var w := BaseOf(npages, n);
    var e :| Holds(blocks, n, e) && w <= e.pos < PosOf(npages, n);
    PlaceOf(n, from);
    InPages(n, npages, from);
    var c1, c2 := FullCall(blocks, n, npages, from), FullCall(blocks, n, npages, w);
    assert c1.to == w;
    calls := [c1, c2];
    var first, again := Listing(blocks, n, npages, from), Listing(blocks, n, npages, w);
    TwoOut(c1, c2);
    ListedIff(blocks, n, npages, w, e);
    if from <= e.pos { ListedIff(blocks, n, npages, from, e); }
    hide Listing, Holds, AllOut, Ascending;
    if e in again && from <= e.pos { Twice(first, again, e); }
  }

  lemma TwoOut(a: Call, b: Call)
    ensures AllOut([a, b]) == a.out + b.out
  {
    assert [a, b][..1] == [a];
    assert [a][..0] == [];
    assert AllOut([a]) == [] + a.out;
  }

  lemma Twice(a: seq<Dirent>, b: seq<Dirent>, d: Dirent)
    requires d in a && d in b
    ensures !Ascending(a + b)
  {
    var i :| 0 <= i < |a| && a[i] == d;
    var j :| 0 <= j < |b| && b[j] == d;
    assert (a + b)[i] == d && (a + b)[|a| + j] == d;
  }

  /** From a start below 2^32 all ways to split the calls are right if and only if the condition holds. */
  lemma ResumedBelow(blocks: Blocks, n: nat, npages: nat, from: nat)
    requires n > 0 && from < U32
    ensures (forall calls :: Calls(blocks, n, npages, from, calls) ==> Right(blocks, n, npages, from, calls))
            <==> Resumable(blocks, n, npages)
  {
    hide Calls, Right, Resumable;
    if Resumable(blocks, n, npages) {
      forall calls | Calls(blocks, n, npages, from, calls)
        ensures Right(blocks, n, npages, from, calls)
      {
        ResumedRight(blocks, n, npages, from, calls);
      }
    } else {
      var calls := ResumedWrong(blocks, n, npages, from);
    }
  }

  /** A block of 214 slots with one entry, of one byte, in slot 0. */
  function OneEntry(): Block {
    Block(seq(214, i => i == 0), seq(214, i => Dentry(0, 5, if i == 0 then 1 else 0, 1)), seq(1712, _ => 0))
  }

  /** A directory with this block as its block 2 holds the entry at position 428. */
  lemma OneHeld()
    ensures WF(OneEntry(), 214) && AllWF(map[2 := OneEntry()], 214)
    ensures Live(OneEntry(), 0) && Whole(OneEntry(), 0)
    ensures Holds(map[2 := OneEntry()], 214, Emit(428, EntryAt(OneEntry(), 0)))
  {
    var b := OneEntry();
    assert Live(b, 0) && Whole(b, 0);
  }

  /** In a sparse directory of 20069942 pages the one entry, in block 2, is handed out by two calls in a row. */
  lemma ListedAgain()
    ensures var blocks, n, npages := map[2 := OneEntry()], 214, 20069942;
            && AllWF(blocks, n) && EndPos(n, npages, 0) == 292
            && exists d :: d in Listing(blocks, n, npages, 0) && d in Listing(blocks, n, npages, 292)
  {
    OneHeld();
    hide OneEntry, Holds, Listing, WF, AllWF;
    var d := Emit(428, EntryAt(OneEntry(), 0));
    ListedIff(map[2 := OneEntry()], 214, 20069942, 0, d);
    ListedIff(map[2 := OneEntry()], 214, 20069942, 292, d);
  }

  /** A call from slot `p` of block `k` comes past a live entry. */
  ghost predicate LiveAhead(blocks: Blocks, n: nat, npages: nat, k: nat, p: nat)
    requires n > 0
  {
    exists j: nat, q: nat :: q < n && j in blocks && Live(blocks[j], q) && Passes(n, npages, k, p, j, q)
  }

  lemma LiveAheadIff(blocks: Blocks, n: nat, npages: nat, k: nat, p: nat)
    requires p < n && AllWF(blocks, n)
    ensures LiveAhead(blocks, n, npages, k, p) <==> Ahead(blocks, n, npages, k, p) != []
  {
    hide Ahead;
    if j: nat, q: nat :| q < n && j in blocks && Live(blocks[j], q) && Passes(n, npages, k, p, j, q) {
      LiveIsListed(blocks, n, npages, k, p, j, q);
    }
    var list := Ahead(blocks, n, npages, k, p);
    if list != [] {
      ListedIsLive(blocks, n, npages, k, p, list[0]);
    }
  }

  lemma LiveIsListed(blocks: Blocks, n: nat, npages: nat, k: nat, p: nat, j: nat, q: nat)
    requires p < n && AllWF(blocks, n)
    requires q < n && j in blocks && Live(blocks[j], q) && Passes(n, npages, k, p, j, q)
    ensures Ahead(blocks, n, npages, k, p) != []
  {
    hide Ahead, Passes;
    assert WF(blocks[j], n);
    var d := Emit(PosOf(j, n) + q, EntryAt(blocks[j], q));
    Arith.DivMod(j, n, q);
    AheadExact(blocks, n, npages, k, p, d);
  }

  lemma ListedIsLive(blocks: Blocks, n: nat, npages: nat, k: nat, p: nat, d: Dirent)
    requires p < n && d in Ahead(blocks, n, npages, k, p)
    ensures LiveAhead(blocks, n, npages, k, p)
  {
    hide Ahead, Passes;
    AheadExact(blocks, n, npages, k, p, d);
    Arith.Division(d.pos, n);
  }

  /**
    A position at 2^32 blocks or more has its block number cut.  A call from it
    lists nothing before it if and only if the number is not cut, or there is no
    live entry past the place it is cut to.
  */
  lemma NoRepeatIff(blocks: Blocks, n: nat, npages: nat, pos: nat)
    requires n > 0 && npages < U32 && AllWF(blocks, n)
    ensures (forall d :: d in Listing(blocks, n, npages, pos) ==> pos <= d.pos)
            <==> pos / n < U32 || !LiveAhead(blocks, n, npages, pos / n % U32, pos % n)
  {
    SlotBelow(pos, n);
    LiveAheadIff(blocks, n, npages, BlockOf(pos, n), SlotOf(pos, n));
    var list := Listing(blocks, n, npages, pos);
    var k, p := pos / n % U32, pos % n;
    assert LiveAhead(blocks, n, npages, k, p) <==> list != [];
    hide LiveAhead, Listing, AllWF;
    forall d | d in list
      ensures pos <= d.pos <==> pos / n < U32
    {
      ListedAfter(blocks, n, npages, pos, d);
    }
    if list != [] { assert list[0] in list; }
  }

  lemma ListedAfter(blocks: Blocks, n: nat, npages: nat, pos: nat, d: Dirent)
    requires n > 0 && npages < U32 && d in Listing(blocks, n, npages, pos)
    ensures pos <= d.pos <==> pos / n < U32
  {
    hide Ahead, Holds;
    SlotBelow(pos, n);
    AheadExact(blocks, n, npages, BlockOf(pos, n), SlotOf(pos, n), d);
    Order(n, pos, d.pos);
    Arith.DivNat(pos, n);
    if pos / n < U32 { Arith.DivSmall(pos / n, U32); }
  }

  /** From 2^32 blocks on, slot 0, the entry in block 2 is listed, far before the position. */
  lemma ListedBefore()
    ensures var blocks, pos := map[2 := OneEntry()], 214 * U32;
            AllWF(blocks, 214) && exists d :: d in Listing(blocks, 214, 3, pos) && d.pos < pos
  {
    OneHeld();
    var blocks, pos := map[2 := OneEntry()], 214 * U32;
    assert BlockOf(pos, 214) == 0 && SlotOf(pos, 214) == 0 && EntrySlot(2, 214) == 0;
    hide OneEntry, Holds, Ahead, WF, AllWF;
    AheadExact(blocks, 214, 3, 0, 0, Emit(428, EntryAt(OneEntry(), 0)));
  }

  // ------------------------------------------------------ starts at 2^32 and above

  /** Every entry at or after the start lies in the block of the start, with no slot in use before it. */
  ghost predicate Lone(blocks: Blocks, n: nat, npages: nat, from: nat)
    requires n > 0
  {
    forall d :: Holds(blocks, n, d) && from <= d.pos < PosOf(npages, n) ==>
      d.pos / n == from / n && forall q: nat :: from % n < q <= d.pos % n ==> !AfterBit(blocks[from / n], q)
  }

  /**
    The condition for any start.  From 2^32 on the first call that comes to the
    end leads back below, so nothing may be met from there, and before that only
    an entry which the position still points at.  A block number that is cut may
    meet nothing at all.
  */
  ghost predicate StartOk(blocks: Blocks, n: nat, npages: nat, from: nat)
    requires n > 0
  {
    var w := BaseOf(npages, n);
    if from < U32 then Resumable(blocks, n, npages)
    else if BlockOf(from, n) >= npages then true
    else
      && !LiveAhead(blocks, n, npages, BlockOf(w, n), SlotOf(w, n))
      && if from / n < U32 then Lone(blocks, n, npages, from)
         else !LiveAhead(blocks, n, npages, BlockOf(from, n), SlotOf(from, n))
  }

  lemma QuietCall(blocks: Blocks, n: nat, npages: nat, c: Call)
    requires n > 0 && Made(blocks, n, npages, c) && Listing(blocks, n, npages, c.from) == []
    ensures c.out == [] && c.done && c.to == EndPos(n, npages, c.from)
  {
  }

  lemma EndAgain(n: nat, npages: nat, pos: nat)
    requires n > 0
    ensures EndPos(n, npages, EndPos(n, npages, pos)) == EndPos(n, npages, pos)
  {
  }

  /** Where nothing is listed, nor from the end position, no call hands out anything. */
  lemma {:induction false} Silent(blocks: Blocks, n: nat, npages: nat, from: nat, calls: seq<Call>)
    requires n > 0 && Calls(blocks, n, npages, from, calls) && Listing(blocks, n, npages, from) == []
    requires Listing(blocks, n, npages, EndPos(n, npages, from)) == []
    ensures AllOut(calls) == [] && calls[|calls| - 1].to == EndPos(n, npages, from)
  {
    hide Listing, Made, EndPos;
    var last := calls[|calls| - 1];
    var init := calls[..|calls| - 1];
    EndAgain(n, npages, from);
    if |init| > 0 {
      Silent(blocks, n, npages, from, init);
      assert last.from == init[|init| - 1].to;
    }
    QuietCall(blocks, n, npages, last);
  }

  /** No entry at or after the start. */
  ghost predicate NoneFrom(blocks: Blocks, n: nat, npages: nat, from: nat)
    requires n > 0
  {
    forall d :: !(Holds(blocks, n, d) && from <= d.pos < PosOf(npages, n))
  }

  lemma SilentRight(blocks: Blocks, n: nat, npages: nat, from: nat, calls: seq<Call>)
    requires n > 0 && Calls(blocks, n, npages, from, calls) && Listing(blocks, n, npages, from) == []
    requires Listing(blocks, n, npages, EndPos(n, npages, from)) == [] && NoneFrom(blocks, n, npages, from)
    ensures Right(blocks, n, npages, from, calls)
  {
    hide Listing, Made, EndPos, Calls, Holds;
    Silent(blocks, n, npages, from, calls);
  }

  lemma PastPages(blocks: Blocks, n: nat, npages: nat, from: nat)
    requires n > 0 && from / n >= npages
    ensures NoneFrom(blocks, n, npages, from)
  {
    hide Holds;
    InPages(n, npages, from);
  }

  /** What is listed lies at or after a start whose block number is not cut. */
  lemma ListedFrom(blocks: Blocks, n: nat, npages: nat, pos: nat, d: Dirent)
    requires n > 0 && pos / n < U32
    ensures BlockOf(pos, n) == pos / n
    ensures d in Listing(blocks, n, npages, pos) <==>
              && Holds(blocks, n, d) && pos <= d.pos < PosOf(npages, n)
              && (d.pos / n == pos / n || EntrySlot(d.pos / n, n) <= d.pos % n)
  {
    hide Ahead, Holds;
    Arith.DivNat(pos, n);
    Arith.DivSmall(pos / n, U32);
    SlotBelow(pos, n);
    AheadExact(blocks, n, npages, pos / n, pos % n, d);
    Order(n, pos, d.pos);
    InPages(n, npages, d.pos);
  }

  lemma SmallBlock(n: nat, pos: nat)
    requires n > 0 && pos < U32
    ensures pos / n < U32
  {
    Arith.DivBound(pos, n);
  }

  /** Under Lone a listing from the start is all there is, and at most one entry. */
  lemma LoneListing(blocks: Blocks, n: nat, npages: nat, from: nat)
    requires n > 0 && AllWF(blocks, n) && from / n < U32 && Lone(blocks, n, npages, from)
    ensures var list := Listing(blocks, n, npages, from);
            && |list| <= 1 && Ascending(list)
            && forall d :: d in list <==> Holds(blocks, n, d) && from <= d.pos < PosOf(npages, n)
  {
    var list := Listing(blocks, n, npages, from);
    SlotBelow(from, n);
    AheadAscending(blocks, n, npages, BlockOf(from, n), SlotOf(from, n));
    forall d
      ensures d in list <==> Holds(blocks, n, d) && from <= d.pos < PosOf(npages, n)
    {
      ListedFrom(blocks, n, npages, from, d);
    }
    if |list| > 1 {
      var d, e := list[0], list[1];
      assert d in list && e in list && d.pos < e.pos;
      Order(n, from, d.pos);
      Order(n, e.pos, d.pos);
      UsedAt(blocks, n, d);
    }
  }

  lemma UsedAt(blocks: Blocks, n: nat, d: Dirent)
    requires n > 0 && Holds(blocks, n, d)
    ensures d.pos / n in blocks && AfterBit(blocks[d.pos / n], d.pos % n + 1)
  {
  }

  /** A call from the start leaves the position where it is, or hands out all and comes to the end. */
  lemma LoneCall(blocks: Blocks, n: nat, npages: nat, c: Call)
    requires n > 0 && AllWF(blocks, n) && c.from / n < U32 && c.from / n < npages && Lone(blocks, n, npages, c.from)
    requires Made(blocks, n, npages, c)
    ensures if c.done then c.out == Listing(blocks, n, npages, c.from) && c.to == BaseOf(npages, n)
            else c.out == [] && c.to == c.from
  {
    LoneListing(blocks, n, npages, c.from);
    Arith.DivNat(c.from, n);
    Arith.DivSmall(c.from / n, U32);
    hide Ahead, Holds, Listing, Lone, AfterBit;
    if !c.done { LoneStop(blocks, n, npages, c); }
  }

  /** A call that does not come to the end has not moved. */
  lemma LoneStop(blocks: Blocks, n: nat, npages: nat, c: Call)
    requires n > 0 && AllWF(blocks, n) && c.from / n < U32 && Lone(blocks, n, npages, c.from)
    requires Made(blocks, n, npages, c) && !c.done
    ensures c.out == [] && c.to == c.from
  {
    LoneListing(blocks, n, npages, c.from);
    Arith.DivNat(c.from, n);
    Arith.DivSmall(c.from / n, U32);
    var list, rest := Listing(blocks, n, npages, c.from), Ahead(blocks, n, npages, c.k, c.s);
    assert |list| == |c.out| + |rest|;
    var e := list[0];
    assert e in rest && e in list;
    AheadExact(blocks, n, npages, c.k, c.s, e);
    hide Ahead, Holds, Listing, AfterBit;
    assert c.k == c.from / n && c.s <= e.pos % n;
  }

  lemma {:induction false} LoneRuns(blocks: Blocks, n: nat, npages: nat, from: nat, calls: seq<Call>)
    requires n > 0 && AllWF(blocks, n) && from / n < U32 && from / n < npages && Lone(blocks, n, npages, from)
    requires Calls(blocks, n, npages, from, calls) && from >= U32
    requires Listing(blocks, n, npages, BaseOf(npages, n)) == []
    ensures var to, out := calls[|calls| - 1].to, AllOut(calls);
            || (to == from && out == [] && forall i :: 0 <= i < |calls| ==> !calls[i].done)
            || (to == BaseOf(npages, n) && out == Listing(blocks, n, npages, from))
  {
    hide Listing, Made, Lone, BaseOf;
    var last := calls[|calls| - 1];
    var init := calls[..|calls| - 1];
    var w := BaseOf(npages, n);
    if |init| > 0 {
      LoneRuns(blocks, n, npages, from, init);
      assert last.from == init[|init| - 1].to;
      assert forall i :: 0 <= i < |init| ==> init[i] == calls[i];
    }
    if last.from == w {
      QuietCall(blocks, n, npages, last);
    } else {
      LoneCall(blocks, n, npages, last);
    }
    BelowWrap(n, npages);
  }

  lemma BelowWrap(n: nat, npages: nat)
    ensures BaseOf(npages, n) < U32
  {
  }

  lemma LoneRight(blocks: Blocks, n: nat, npages: nat, from: nat, calls: seq<Call>)
    requires n > 0 && AllWF(blocks, n) && from / n < U32 && from / n < npages && Lone(blocks, n, npages, from)
    requires Calls(blocks, n, npages, from, calls) && from >= U32
    requires Listing(blocks, n, npages, BaseOf(npages, n)) == []
    ensures Right(blocks, n, npages, from, calls)
  {
    hide Listing, Made, Lone, BaseOf, Holds, Calls;
    LoneRuns(blocks, n, npages, from, calls);
    LoneListing(blocks, n, npages, from);
  }

  lemma StartRight(blocks: Blocks, n: nat, npages: nat, from: nat, calls: seq<Call>)
    requires n > 0 && npages < U32 && AllWF(blocks, n) && from >= U32 && StartOk(blocks, n, npages, from)
    requires Calls(blocks, n, npages, from, calls)
    ensures Right(blocks, n, npages, from, calls)
  {
    hide Lone, LiveAhead, Calls, Made, Ahead;
    var w := BaseOf(npages, n);
    SlotBelow(w, n);
    SlotBelow(from, n);
    LiveAheadIff(blocks, n, npages, BlockOf(w, n), SlotOf(w, n));
    LiveAheadIff(blocks, n, npages, BlockOf(from, n), SlotOf(from, n));
    Arith.DivNat(from, n);
    if from / n < U32 { Arith.DivSmall(from / n, U32); }
    if BlockOf(from, n) >= npages {
      AheadPast(blocks, n, npages, BlockOf(from, n), SlotOf(from, n));
      PastPages(blocks, n, npages, from);
      SilentRight(blocks, n, npages, from, calls);
    } else if from / n < U32 {
      LoneRight(blocks, n, npages, from, calls);
    } else {
      PastPages(blocks, n, npages, from);
      SilentRight(blocks, n, npages, from, calls);
    }
  }

  /** A block from slot `p` on, cut at slot `s`. */
  lemma {:induction false} BlockSplit(b: Block, n: nat, base: nat, p: nat, s: nat) returns (x: seq<Dirent>)
    requires p <= s <= n
    ensures BlockAhead(b, n, base, p) == x + BlockAhead(b, n, base, s)
    ensures forall d :: d in x ==> d.pos < base + s
    decreases s - p
  {
    if p == s {
      x := [];
    } else {
      var y := BlockSplit(b, n, base, p + 1, s);
      x := (if Live(b, p) && Whole(b, p) then [Emit(base + p, EntryAt(b, p))] else []) + y;
    }
  }

  /** One call with room for everything. */
  lemma OneOut(c: Call)
    ensures AllOut([c]) == c.out
  {
    assert [c][..0] == [];
    assert AllOut([c]) == [] + c.out;
  }

  /** Something is listed from the end position. */
  lemma WrongAgain(blocks: Blocks, n: nat, npages: nat, from: nat) returns (calls: seq<Call>)
    requires n > 0 && from >= U32 && BlockOf(from, n) < npages && npages < U32
    requires Listing(blocks, n, npages, BaseOf(npages, n)) != []
    ensures Calls(blocks, n, npages, from, calls) && !Right(blocks, n, npages, from, calls)
  {
    var w := BaseOf(npages, n);
    var c1, c2 := FullCall(blocks, n, npages, from), FullCall(blocks, n, npages, w);
    calls := [c1, c2];
    TwoOut(c1, c2);
    var d := c2.out[0];
    assert d in c2.out;
    SmallBlock(n, w);
    ListedFrom(blocks, n, npages, w, d);
    hide AllOut, Listing, Holds, Ascending;
    assert d in AllOut(calls);
    if from <= d.pos {
      InPages(n, npages, from);
      ListedFrom(blocks, n, npages, from, d);
      Order(n, w, from);
      Order(n, from, d.pos);
      assert d in c1.out;
      Twice(c1.out, c2.out, d);
    }
  }

  /** A start whose block number is cut lists something. */
  lemma WrongCut(blocks: Blocks, n: nat, npages: nat, from: nat) returns (calls: seq<Call>)
    requires n > 0 && from / n >= U32 > npages && Listing(blocks, n, npages, from) != []
    ensures Calls(blocks, n, npages, from, calls) && !Right(blocks, n, npages, from, calls)
  {
    var c := FullCall(blocks, n, npages, from);
    calls := [c];
    OneOut(c);
    hide AllOut, Listing, Holds;
    var d := c.out[0];
    assert d in AllOut(calls);
    ListedAfter(blocks, n, npages, from, d);
  }

  /** An entry at or after the start is skipped, or lost when the caller goes on. */
  lemma WrongLone(blocks: Blocks, n: nat, npages: nat, from: nat) returns (calls: seq<Call>)
    requires n > 0 && from >= U32 && from / n < U32 && from / n < npages && !Lone(blocks, n, npages, from)
    requires Listing(blocks, n, npages, BaseOf(npages, n)) == []
    ensures Calls(blocks, n, npages, from, calls) && !Right(blocks, n, npages, from, calls)
  {
    var d :| Holds(blocks, n, d) && from <= d.pos < PosOf(npages, n) &&
             (d.pos / n != from / n ||
              exists q: nat :: from % n < q <= d.pos % n && AfterBit(blocks[from / n], q));
    var w := BaseOf(npages, n);
    SmallBlock(n, w);
    ListedFrom(blocks, n, npages, w, d);
    ListedFrom(blocks, n, npages, from, d);
    if d.pos / n != from / n {
      var c := FullCall(blocks, n, npages, from);
      calls := [c];
      OneOut(c);
    } else {
      var q: nat :| from % n < q <= d.pos % n && AfterBit(blocks[from / n], q);
      var c1 := StoppedCall(blocks, n, npages, from, q, d);
      var c2 := FullCall(blocks, n, npages, c1.to);
      calls := [c1, c2];
      SmallBlock(n, c1.to);
      ListedFrom(blocks, n, npages, c1.to, d);
      Order(n, c1.to, d.pos);
      OwnBlock(n, c1.to, from, d);
      TwoOut(c1, c2);
      assert calls[1].done;
    }
    hide AllOut, Listing, Holds;
  }

  /** A position below 2^32 is in an earlier block than one whose block is entered past its first slot. */
  lemma OwnBlock(n: nat, y: nat, from: nat, d: Dirent)
    requires n > 0 && y < U32 <= from <= d.pos && EntrySlot(d.pos / n, n) > d.pos % n
    ensures y / n != d.pos / n
  {
    if y / n == d.pos / n {
      Arith.Division(y, n);
      OwnPlace(n, y / n, y % n);
    }
  }

  /** A call from the start that stops after a used slot, before `d`. */
  lemma StoppedCall(blocks: Blocks, n: nat, npages: nat, from: nat, s: nat, d: Dirent) returns (c: Call)
    requires n > 0 && from / n < U32 && from / n < npages && Holds(blocks, n, d) && d.pos / n == from / n
    requires from % n < s <= d.pos % n && AfterBit(blocks[from / n], s)
    ensures Made(blocks, n, npages, c) && c.from == from && !c.done && c.to < U32 && d !in c.out
  {
    hide Ahead, Holds, AfterBit, Made;
    Arith.DivNat(from, n);
    Arith.DivSmall(from / n, U32);
    SlotBelow(d.pos, n);
    AheadExact(blocks, n, npages, from / n, s, d);
    HeldBlock(blocks, n, d);
    Arith.Division(d.pos, n);
    c := StoppedAt(blocks, n, npages, from, BlockOf(from, n), SlotOf(from, n), s, d);
  }

  lemma StoppedAt(blocks: Blocks, n: nat, npages: nat, from: nat, k: nat, p: nat, s: nat, d: Dirent)
    returns (c: Call)
    requires n > 0 && k == BlockOf(from, n) && p == SlotOf(from, n) && k < npages && k in blocks
    requires p < s < n && AfterBit(blocks[k], s)
    requires d in Ahead(blocks, n, npages, k, s) && d.pos >= PosOf(k, n) + s
    ensures Made(blocks, n, npages, c) && c.from == from && !c.done && c.to < U32 && d !in c.out
  {
    hide Ahead, BlockAhead, InBlock, AfterBit, BlockOf, SlotOf, PosOf, BaseOf, EntrySlot;
    var x := BlockSplit(blocks[k], n, PosOf(k, n), p, s);
    var here, rest := InBlock(blocks, n, k, s), Ahead(blocks, n, npages, k + 1, EntrySlot(k + 1, n));
    NoBlock(blocks, n, k, p);
    NoBlock(blocks, n, k, s);
    AheadStep(blocks, n, npages, k, p);
    AheadStep(blocks, n, npages, k, s);
    Grouped(x, here, rest);
    c := Call(from, x, (BaseOf(k, n) + s) % U32, false, k, s);
  }

  lemma Grouped(a: seq<Dirent>, b: seq<Dirent>, c: seq<Dirent>)
    ensures (a + b) + c == a + (b + c)
  {
  }

  lemma HeldBlock(blocks: Blocks, n: nat, d: Dirent)
    requires n > 0 && Holds(blocks, n, d)
    ensures d.pos / n in blocks
  {
  }

  lemma StartWrong(blocks: Blocks, n: nat, npages: nat, from: nat) returns (calls: seq<Call>)
    requires n > 0 && npages < U32 && AllWF(blocks, n) && from >= U32 && !StartOk(blocks, n, npages, from)
    ensures Calls(blocks, n, npages, from, calls) && !Right(blocks, n, npages, from, calls)
  {
    hide Lone, LiveAhead, Calls, Right, Made, Ahead;
    var w := BaseOf(npages, n);
    SlotBelow(w, n);
    SlotBelow(from, n);
    LiveAheadIff(blocks, n, npages, BlockOf(w, n), SlotOf(w, n));
    LiveAheadIff(blocks, n, npages, BlockOf(from, n), SlotOf(from, n));
    Arith.DivNat(from, n);
    if Listing(blocks, n, npages, w) != [] {
      calls := WrongAgain(blocks, n, npages, from);
    } else if from / n < U32 {
      Arith.DivSmall(from / n, U32);
      calls := WrongLone(blocks, n, npages, from);
    } else {
      calls := WrongCut(blocks, n, npages, from);
    }
  }

  /**
    However a caller splits its calls, from any start, it is handed the right
    entries if and only if the condition holds: below 2^32, that positions do not
    reach 2^32 or nothing lies at or after the place that the end position wraps to.
  */
  lemma ResumedIff(blocks: Blocks, n: nat, npages: nat, from: nat)
    requires n > 0 && npages < U32 && AllWF(blocks, n)
    ensures (forall calls :: Calls(blocks, n, npages, from, calls) ==> Right(blocks, n, npages, from, calls))
            <==> StartOk(blocks, n, npages, from)
  {
    hide Calls, Right;
    if from < U32 {
      ResumedBelow(blocks, n, npages, from);
    } else if StartOk(blocks, n, npages, from) {
      forall calls | Calls(blocks, n, npages, from, calls)
        ensures Right(blocks, n, npages, from, calls)
      {
        StartRight(blocks, n, npages, from, calls);
      }
    } else {
      var calls := StartWrong(blocks, n, npages, from);
    }
  }

  // ------------------------------------------------------------------ inline form

  /** What f2fs_read_inline_dir lists from a position: only d.max itself counts as the end. */
  ghost function InlineListing(b: Block, m: nat, pos: nat): seq<Dirent>
    requires m > 0
  {
    if pos == m then [] else BlockAhead(b, m, 0, SlotOf(pos, m))
  }

  method ReadInline(b: Block, m: nat, pos: nat, room: nat) returns (out: seq<Dirent>, pos': nat, stop: Stop)
    requires 0 < m < U32 && WF(b, m)
    ensures out + InlineListing(b, m, pos') == InlineListing(b, m, pos)
    ensures |out| <= room
    ensures stop == Done ==> InlineListing(b, m, pos') == [] && pos' == m
    ensures stop == BufferFull ==> |out| == room && |InlineListing(b, m, pos')| > 0
  {
    hide BlockAhead, WF, SlotOf;
    if pos == m {
      return [], pos, Done;
    }
    ghost var stopped;
    out, pos', stop, stopped := FillDentries(b, m, pos, 0, 0, room);
    AheadEnd(b, m, 0);
    if stop == Done {
      pos' := m;
    } else {
      InlineStop(m, pos, stopped, pos');
    }
  }

  lemma InlineStop(m: nat, pos: nat, stopped: nat, pos': nat)
    requires 0 < m < U32 && pos != m && stopped < m
    requires pos' == if stopped == SlotOf(pos, m) then pos else (0 + stopped) % U32
    ensures pos' != m && SlotOf(pos', m) == stopped
  {
    Arith.DivSmall(stopped, U32);
    Arith.DivSmall(stopped, m);
  }

  ghost predicate LiveFromSlot(b: Block, m: nat, p: nat) { exists q: nat :: p <= q < m && Live(b, q) }

  lemma InlineEntry(b: Block, m: nat, pos: nat, d: Dirent)
    requires m > 0 && d in InlineListing(b, m, pos)
    ensures pos <= d.pos <==> pos <= m
  {
    SlotBelow(pos, m);
    BlockExact(b, m, 0, SlotOf(pos, m), d);
    hide BlockAhead, Live, Whole, EntryAt;
    if pos < m { Arith.DivSmall(pos, m); }
  }

  lemma InlineLive(b: Block, m: nat, p: nat)
    requires p < m && WF(b, m)
    ensures LiveFromSlot(b, m, p) <==> BlockAhead(b, m, 0, p) != []
  {
    var list := BlockAhead(b, m, 0, p);
    if q: nat :| p <= q < m && Live(b, q) { BlockExact(b, m, 0, p, Emit(q, EntryAt(b, q))); }
    if list != [] {
      assert list[0] in list;
      BlockExact(b, m, 0, p, list[0]);
    }
  }

  /**
    A position past d.max is not the end: it wraps round.  A call from a position
    lists nothing before it if and only if the position is at most d.max or no
    entry starts at or after the slot it wraps to.
  */
  lemma InlineNoRepeatIff(b: Block, m: nat, pos: nat)
    requires m > 0 && WF(b, m)
    ensures (forall d :: d in InlineListing(b, m, pos) ==> pos <= d.pos)
            <==> pos <= m || !LiveFromSlot(b, m, pos % m)
  {
    SlotBelow(pos, m);
    InlineLive(b, m, SlotOf(pos, m));
    hide BlockAhead, LiveFromSlot, WF;
    var list := InlineListing(b, m, pos);
    forall d | d in list
      ensures pos <= d.pos <==> pos <= m
    {
      InlineEntry(b, m, pos, d);
    }
    if list != [] { assert list[0] in list; }
  }

  /** From position 428 in an inline area of 214 slots the entry in slot 0 comes back. */
  lemma InlineListedBefore()
    ensures WF(OneEntry(), 214) && exists d :: d in InlineListing(OneEntry(), 214, 428) && d.pos < 428
  {
    OneHeld();
    hide OneEntry, BlockAhead, WF;
    BlockExact(OneEntry(), 214, 0, 0, Emit(0, EntryAt(OneEntry(), 0)));
    assert SlotOf(428, 214) == 0;
  }

  lemma InlineAscending(b: Block, m: nat, pos: nat)
    requires m > 0
    ensures Ascending(InlineListing(b, m, pos))
  {
    SlotBelow(pos, m);
    BlockAscending(b, m, 0, SlotOf(pos, m));
  }
}
