/**
  Collapse and insert range (file.c): the pages after a range move down or up.

  A page moves in one of two ways.  A block that no checkpoint refers to changes
  hands: its address is taken out of the source slot and put into the target
  slot.  Any other page is copied through the page cache and its source slot is
  punched.  Source and target may overlap, work proceeds in chunks, and a chunk
  that fails is rolled back.
*/
module RangeShift {

  import opened Errno
  import opened Options

  /** An address field: NULL_ADDR, NEW_ADDR, or a block and whether a checkpoint refers to it. */
  datatype Slot<D> = Hole | Reserved | Block(data: D, checkpointed: bool)

  datatype Page<D> = Page(data: D, dirty: bool)

  datatype State<D> = State(slots: seq<Slot<D>>, cache: map<nat, Page<D>>)

  // ------------------------------------------------------------ what a page holds

  predicate Dirty<D>(s: State<D>, x: nat) { x in s.cache && s.cache[x].dirty }

  predicate CacheIn<D>(s: State<D>) { forall x :: x in s.cache ==> x < |s.slots| }

  function OnDisk<D>(slot: Slot<D>, zero: D): D { if slot.Block? then slot.data else zero }

  /** The content of page `x` once clean pages are dropped from the cache. */
  function Held<D>(s: State<D>, zero: D, x: nat): D {
    if Dirty(s, x) then s.cache[x].data
    else if x < |s.slots| then OnDisk(s.slots[x], zero)
    else zero
  }

  function Cached<D>(s: State<D>, x: nat): Option<Page<D>> { if x in s.cache then Some(s.cache[x]) else None }

  /** What a read of page `x` returns: the cached page, clean or dirty, and otherwise what is on disk. */
  function Reads<D>(s: State<D>, zero: D, x: nat): D {
    if x in s.cache then s.cache[x].data
    else if x < |s.slots| then OnDisk(s.slots[x], zero)
    else zero
  }

  ghost predicate SameAt<D>(a: State<D>, b: State<D>, x: nat) {
    && (x in a.cache <==> x in b.cache) && (x in a.cache ==> a.cache[x] == b.cache[x])
    && (x < |a.slots| && x < |b.slots| ==> a.slots[x] == b.slots[x])
  }

  predicate In(x: nat, from: nat, len: nat) { from <= x < from + len }

  /** A block that no checkpoint refers to, whose address may change hands. */
  predicate Fresh<D>(slot: Slot<D>) { slot.Block? && !slot.checkpointed }

  /** What has to be copied: a reserved page or a block under a checkpoint. */
  predicate ByCopy<D>(slot: Slot<D>) { slot.Reserved? || (slot.Block? && slot.checkpointed) }

  /** The slot under a copied page: an empty one, also one just vacated, is reserved; another keeps its block. */
  function Landing<D>(a: State<D>, src: nat, len: nat, x: nat): Slot<D>
    requires x < |a.slots|
  {
    if In(x, src, len) || a.slots[x].Hole? then Reserved else a.slots[x]
  }

  /** How page `x` has arrived: handed over or a hole in the slot itself, copied as a dirty page over some slot. */
  ghost predicate Lands<D>(a: State<D>, b: State<D>, src: nat, dst: nat, len: nat, x: nat)
    requires In(x, dst, len) && |a.slots| == |b.slots| && src + len <= |a.slots| && dst + len <= |a.slots|
  {
    var from := a.slots[x - dst + src];
    if ByCopy(from) then Dirty(b, x) && b.slots[x] == Landing(a, src, len, x)
    else !Dirty(b, x) && b.slots[x] == from
  }

  /** Pages [src, src + len) have moved to [dst, dst + len), left nothing behind, and all else is untouched. */
  ghost predicate Moved<D>(a: State<D>, b: State<D>, zero: D, src: nat, dst: nat, len: nat) {
    && |a.slots| == |b.slots| && src + len <= |a.slots| && dst + len <= |a.slots|
    && (forall x: nat :: In(x, dst, len) ==> Held(b, zero, x) == Held(a, zero, x - dst + src))
    && (forall x: nat :: !In(x, src, len) && !In(x, dst, len) ==> SameAt(a, b, x))
    && (forall x: nat :: In(x, src, len) && !In(x, dst, len) ==> b.slots[x] == Hole && !Dirty(b, x))
    && (forall x: nat :: In(x, dst, len) ==> Lands(a, b, src, dst, len, x))
  }

  /** The two ranges of a move: downwards, or upwards without overlap. */
  predicate Apart(src: nat, dst: nat, len: nat) { dst < src || src + len <= dst }

  /** Nothing of the source is cached, nothing of the target is dirty; unless `full`, the target is empty. */
  ghost predicate Ready<D>(s: State<D>, src: nat, dst: nat, len: nat, full: bool) {
    && Apart(src, dst, len) && src + len <= |s.slots| && dst + len <= |s.slots|
    && (forall x: nat :: In(x, src, len) ==> x !in s.cache)
    && (forall x: nat :: In(x, dst, len) ==> !Dirty(s, x))
    && (!full ==> src + len <= dst && forall x: nat :: In(x, dst, len) ==> s.slots[x] == Hole)
  }

  lemma MovedNone<D>(a: State<D>, zero: D, src: nat, dst: nat)
    requires src <= |a.slots| && dst <= |a.slots|
    ensures Moved(a, a, zero, src, dst, 0)
  {
  }

  lemma MovedOutside<D>(a: State<D>, b: State<D>, zero: D, src: nat, dst: nat, len: nat, x: nat)
    requires Moved(a, b, zero, src, dst, len) && !In(x, src, len) && !In(x, dst, len)
    ensures SameAt(a, b, x) && Held(a, zero, x) == Held(b, zero, x)
  {
  }

  lemma SameSlot<D>(a: State<D>, b: State<D>, x: nat)
    requires SameAt(a, b, x) && |a.slots| == |b.slots|
    ensures Dirty(a, x) == Dirty(b, x) && (x < |a.slots| ==> a.slots[x] == b.slots[x])
  {
  }

  lemma SameThen<D>(a: State<D>, b: State<D>, c: State<D>, x: nat)
    requires SameAt(a, b, x) && SameAt(b, c, x) && |a.slots| == |b.slots| == |c.slots|
    ensures SameAt(a, c, x)
  {
  }

  /** Two moves in a row are one. */
  lemma MovedThen<D>(a: State<D>, b: State<D>, c: State<D>, zero: D, src: nat, dst: nat, len: nat, more: nat)
    requires Apart(src, dst, len + more)
    requires Moved(a, b, zero, src, dst, len) && Moved(b, c, zero, src + len, dst + len, more)
    ensures Moved(a, c, zero, src, dst, len + more)
  {
    hide Held, SameAt, Dirty, Lands;
    var total := len + more;
    forall x: nat | In(x, dst, total)
      ensures Held(c, zero, x) == Held(a, zero, x - dst + src)
      ensures Lands(a, c, src, dst, total, x)
    {
      if In(x, dst, len) {
        MovedOutside(b, c, zero, src + len, dst + len, more, x);
        SameSlot(b, c, x);
        LandsFirst(a, b, c, zero, src, dst, len, more, x);
      } else {
        assert In(x, dst + len, more);
        MovedOutside(a, b, zero, src, dst, len, x - dst + src);
        LandsLater(a, b, c, zero, src, dst, len, more, x);
      }
    }
    forall x: nat | !In(x, src, total) && !In(x, dst, total)
      ensures SameAt(a, c, x)
    {
      MovedOutside(a, b, zero, src, dst, len, x);
      MovedOutside(b, c, zero, src + len, dst + len, more, x);
      SameThen(a, b, c, x);
    }
    forall x: nat | In(x, src, total) && !In(x, dst, total)
      ensures c.slots[x] == Hole && !Dirty(c, x)
    {
      Vacated(a, b, c, zero, src, dst, len, more, x);
    }
  }

  lemma Vacated<D>(a: State<D>, b: State<D>, c: State<D>, zero: D, src: nat, dst: nat, len: nat, more: nat, x: nat)
    requires Moved(a, b, zero, src, dst, len) && Moved(b, c, zero, src + len, dst + len, more)
    requires In(x, src, len + more) && !In(x, dst, len + more)
    ensures c.slots[x] == Hole && !Dirty(c, x)
  {
    hide Held, SameAt, Dirty, Lands;
    assert !In(x, dst, len) && !In(x, dst + len, more);
    if In(x, src, len) {
      if !In(x, src + len, more) {
        MovedOutside(b, c, zero, src + len, dst + len, more, x);
        SameSlot(b, c, x);
      }
    } else {
      assert In(x, src + len, more);
    }
  }

  lemma LandsFirst<D>(a: State<D>, b: State<D>, c: State<D>, zero: D, src: nat, dst: nat, len: nat, more: nat, x: nat)
    requires Apart(src, dst, len + more) && In(x, dst, len) && Moved(a, b, zero, src, dst, len)
    requires src + len + more <= |a.slots| && dst + len + more <= |a.slots| == |c.slots|
    requires Dirty(b, x) == Dirty(c, x) && b.slots[x] == c.slots[x]
    ensures In(x, dst, len + more) && Lands(a, c, src, dst, len + more, x)
  {
    hide Held, SameAt, Dirty;
    assert Lands(a, b, src, dst, len, x);
  }

  lemma LandsLater<D>(a: State<D>, b: State<D>, c: State<D>, zero: D, src: nat, dst: nat, len: nat, more: nat, x: nat)
    requires Apart(src, dst, len + more) && In(x, dst + len, more) && Moved(a, b, zero, src, dst, len)
    requires src + len + more <= |a.slots| && dst + len + more <= |a.slots| == |c.slots|
    requires Lands(b, c, src + len, dst + len, more, x)
    ensures In(x, dst, len + more) && Lands(a, c, src, dst, len + more, x)
  {
    hide Held, SameAt, Dirty;
    var y := x - dst + src;
    MovedOutside(a, b, zero, src, dst, len, y);
    SameSlot(a, b, y);
    assert !In(x, dst, len);
    if !In(x, src, len) {
      MovedOutside(a, b, zero, src, dst, len, x);
      SameSlot(a, b, x);
    }
  }

  /** A move leaves the rest of the range ready to follow. */
  lemma ReadyThen<D>(a: State<D>, b: State<D>, zero: D, src: nat, dst: nat, len: nat, more: nat, full: bool)
    requires Ready(a, src, dst, len + more, full) && Moved(a, b, zero, src, dst, len)
    ensures Ready(b, src + len, dst + len, more, full)
  {
    forall x: nat | In(x, src + len, more)
      ensures x !in b.cache
    {
      assert In(x, src, len + more);
      MovedOutside(a, b, zero, src, dst, len, x);
    }
    forall x: nat | In(x, dst + len, more)
      ensures !Dirty(b, x) && (!full ==> b.slots[x] == Hole)
    {
      assert In(x, dst, len + more) && !In(x, dst, len);
      if !In(x, src, len) { MovedOutside(a, b, zero, src, dst, len, x); }
    }
  }

  // -------------------------------------------------------------- where a move stops

  /** Where copying a page fails. */
  datatype Failure = Reading(errno: int) | Writing(errno: int) | Punching(errno: int)

  /**
    What the layers below do: log-structured mode, pages whose dnode or address
    cannot be read, chunks (by pages already done) for which memory is short,
    pages that cannot be moved, and pages whose dnode is gone when a failed chunk
    is rolled back.
  */
  datatype Env = Env(lfs: bool, bad: map<nat, int>, noMemory: set<nat>, fail: map<nat, Failure>, gone: set<nat>)

  predicate Readable<D>(slots: seq<Slot<D>>, x: nat, lfs: bool, bad: map<nat, int>) {
    x < |slots| && x !in bad && (lfs && slots[x].Block? ==> slots[x].checkpointed)
  }

  /** How far a run of handed-over addresses and holes goes from page `i` on, up to `lim`. */
  function RunTo<D>(addr: seq<Slot<D>>, i: nat, lim: nat): (r: nat)
    requires i <= lim <= |addr|
    ensures i <= r <= lim && forall j :: i <= j < r ==> !ByCopy(addr[j])
    decreases lim - i
  {
    if i < lim && !ByCopy(addr[i]) then RunTo(addr, i + 1, lim) else i
  }

  /** The end of the dnode that page `i` goes to, or of the chunk. */
  function RunLimit(left: nat -> nat, dst: nat, i: nat, len: nat): nat
    requires i < len
  {
    if left(dst + i) < len - i then i + left(dst + i) else len
  }

  /**
    The page at which a chunk stops to be moved, or its length.  A failure is met
    where a run of pages that are handed over begins, and at every page copied.
  */
  function CloneStop<D>(addr: seq<Slot<D>>, src: nat, dst: nat, i: nat, full: bool, fail: map<nat, Failure>,
                        left: nat -> nat): (r: nat)
    requires i <= |addr| && forall x :: left(x) > 0
    ensures i <= r <= |addr| && (r < |addr| ==> src + r in fail)
    decreases |addr| - i
  {
    if i == |addr| then i
    else if addr[i] == Hole && !full then CloneStop(addr, src, dst, i + 1, full, fail, left)
    else if src + i in fail then i
    else if ByCopy(addr[i]) then CloneStop(addr, src, dst, i + 1, full, fail, left)
    else CloneStop(addr, src, dst, RunTo(addr, i + 1, RunLimit(left, dst, i, |addr|)), full, fail, left)
  }

  /** The first page of a chunk whose address cannot be read or taken out, or the length of the chunk. */
  function ReadStop<D>(slots: seq<Slot<D>>, src: nat, i: nat, len: nat, env: Env): (r: nat)
    requires i <= len
    ensures i <= r <= len
    decreases len - i
  {
    if i < len && Readable(slots, src + i, env.lfs, env.bad) then ReadStop(slots, src, i + 1, len, env) else i
  }

  /**
    Where a move stops: `moved` pages have moved and the fresh blocks up to page
    `held` had been taken out; `cloning` if a page of the chunk failed to be moved.
  */
  datatype Halt = Halt(moved: nat, held: nat, cloning: bool)

  /** Where a chunk stops. */
  function ChunkStop<D>(slots: seq<Slot<D>>, src: nat, dst: nat, len: nat, full: bool, env: Env,
                        left: nat -> nat): (h: Halt)
    requires src + len <= |slots| && forall x :: left(x) > 0
    ensures h.moved <= h.held <= len && (h.cloning ==> h.moved < len)
  {
    var held := ReadStop(slots, src, 0, len, env);
    if held < len then Halt(0, held, false)
    else
      var moved := CloneStop(slots[src..src + len], src, dst, 0, full, env.fail, left);
      Halt(moved, len, moved < len)
  }

  /** Where the move stops that goes on with page `done`, in chunks of `chunk` pages. */
  function ExchangeStop<D>(slots: seq<Slot<D>>, src: nat, dst: nat, done: nat, len: nat, chunk: nat, full: bool,
                           env: Env, left: nat -> nat): (h: Halt)
    requires done <= len && src + len <= |slots| && chunk > 0 && forall x :: left(x) > 0
    ensures done <= h.moved <= h.held <= len && (h.cloning ==> h.moved < len)
    decreases len - done
  {
    if done == len then Halt(len, len, false)
    else if done in env.noMemory then Halt(done, done, false)
    else
      var olen := if chunk < len - done then chunk else len - done;
      var h := ChunkStop(slots, src + done, dst + done, olen, full, env, left);
      if h.moved < olen then Halt(done + h.moved, done + h.held, h.cloning)
      else ExchangeStop(slots, src, dst, done + olen, len, chunk, full, env, left)
  }

  /** What copying a page does before it fails. */
  function FaultAt<D>(slots: seq<Slot<D>>, src: nat, h: Halt, fail: map<nat, Failure>): Option<Failure> {
    var x := src + h.moved;
    if h.cloning && x in fail && x < |slots| && ByCopy(slots[x]) then Some(fail[x]) else None
  }

  // ------------------------------------------------------- the page cache under a move

  /** The cached page `x` after `i` pages have moved: a copied page stays behind, clean, until a copy overwrites it. */
  function CacheAt<D>(a: State<D>, zero: D, src: nat, dst: nat, i: nat, x: nat): Option<Page<D>>
    requires src + i <= |a.slots|
  {
    if In(x, dst, i) && ByCopy(a.slots[x - dst + src]) then Some(Page(OnDisk(a.slots[x - dst + src], zero), true))
    else if In(x, src, i) && ByCopy(a.slots[x]) then Some(Page(OnDisk(a.slots[x], zero), false))
    else Cached(a, x)
  }

  ghost predicate CacheAfter<D>(a: State<D>, b: State<D>, zero: D, src: nat, dst: nat, i: nat) {
    src + i <= |a.slots| && forall x: nat :: Cached(b, x) == CacheAt(a, zero, src, dst, i, x)
  }

  /** The same when page `m` has failed: it may have been read in, and its copy may be there. */
  function StopCache<D>(a: State<D>, zero: D, src: nat, dst: nat, m: nat, f: Option<Failure>, x: nat): Option<Page<D>>
    requires src + m < |a.slots|
  {
    if x == dst + m && f.Some? && f.value.Punching? then Some(Page(OnDisk(a.slots[src + m], zero), true))
    else if x == src + m && f.Some? && !f.value.Reading? then Some(Page(OnDisk(a.slots[src + m], zero), false))
    else CacheAt(a, zero, src, dst, m, x)
  }

  /** What is on disk under page `x` when the move has stopped. */
  function StopDisk<D>(a: State<D>, zero: D, src: nat, dst: nat, m: nat, lost: set<nat>, x: nat): D
    requires src + m <= |a.slots| && x < |a.slots|
  {
    if In(x, dst, m) then
      var from := a.slots[x - dst + src];
      OnDisk(if ByCopy(from) then Landing(a, src, m, x) else from, zero)
    else if In(x, src, m) || x in lost then zero
    else OnDisk(a.slots[x], zero)
  }

  /** The state left by a move that has stopped, page by page. */
  ghost predicate Halted<D>(a: State<D>, b: State<D>, zero: D, src: nat, dst: nat, m: nat, len: nat, lost: set<nat>,
                            f: Option<Failure>) {
    && m < len && |a.slots| == |b.slots| && src + len <= |a.slots| && dst + len <= |a.slots|
    && (forall x: nat :: Cached(b, x) == StopCache(a, zero, src, dst, m, f, x))
    && (forall x: nat :: x < |b.slots| ==> OnDisk(b.slots[x], zero) == StopDisk(a, zero, src, dst, m, lost, x))
  }

  /** What a fault does to the cache. */
  ghost predicate FaultCache<D>(s: State<D>, s': State<D>, data: D, src: nat, dst: nat, f: Option<Failure>) {
    forall x: nat :: Cached(s', x) ==
      (if x == dst && f.Some? && f.value.Punching? then Some(Page(data, true))
       else if x == src && f.Some? && !f.value.Reading? then Some(Page(data, false))
       else Cached(s, x))
  }

  /** Pages that are not copied leave the cache alone. */
  lemma CacheSkip<D>(a: State<D>, b: State<D>, zero: D, src: nat, dst: nat, i: nat, i': nat)
    requires CacheAfter(a, b, zero, src, dst, i) && i <= i' && src + i' <= |a.slots|
    requires forall y: nat :: src + i <= y < src + i' ==> !ByCopy(a.slots[y])
    ensures CacheAfter(a, b, zero, src, dst, i')
  {
  }

  /** A state with the same cache as the start, or as another. */
  lemma CacheStart<D>(a: State<D>, b: State<D>, zero: D, src: nat, dst: nat)
    requires src <= |a.slots| && a.cache == b.cache
    ensures CacheAfter(a, b, zero, src, dst, 0)
  {
  }

  lemma SameCache<D>(a: State<D>, b: State<D>, c: State<D>, zero: D, src: nat, dst: nat, i: nat)
    requires CacheAfter(a, b, zero, src, dst, i) && b.cache == c.cache
    ensures CacheAfter(a, c, zero, src, dst, i)
  {
    forall x: nat
      ensures Cached(c, x) == CacheAt(a, zero, src, dst, i, x)
    {
      assert Cached(c, x) == Cached(b, x);
    }
  }

  lemma CacheOver<D>(a: State<D>, b: State<D>, addr: seq<Slot<D>>, zero: D, src: nat, dst: nat, i: nat, i': nat)
    requires CacheAfter(a, b, zero, src, dst, i) && i <= i' <= |addr| && src + |addr| <= |a.slots|
    requires forall j :: 0 <= j < |addr| ==> a.slots[src + j] == addr[j]
    requires forall j :: i <= j < i' ==> !ByCopy(addr[j])
    ensures CacheAfter(a, b, zero, src, dst, i')
  {
    forall y: nat | src + i <= y < src + i'
      ensures !ByCopy(a.slots[y])
    {
      assert a.slots[src + (y - src)] == addr[y - src];
    }
    CacheSkip(a, b, zero, src, dst, i, i');
  }

  lemma CacheCopy<D>(a: State<D>, b: State<D>, c: State<D>, zero: D, src: nat, dst: nat, i: nat, len: nat)
    requires CacheAfter(a, b, zero, src, dst, i) && i < len && src + len <= |a.slots| && Apart(src, dst, len)
    requires ByCopy(a.slots[src + i])
    requires var data := OnDisk(a.slots[src + i], zero);
             c.cache == b.cache[src + i := Page(data, false)][dst + i := Page(data, true)]
    ensures CacheAfter(a, c, zero, src, dst, i + 1)
  {
    forall x: nat
      ensures Cached(c, x) == CacheAt(a, zero, src, dst, i + 1, x)
    {
      assert Cached(b, x) == CacheAt(a, zero, src, dst, i, x);
    }
  }

  /** Two moves in a row. */
  lemma CacheThen<D>(a: State<D>, b: State<D>, c: State<D>, zero: D, src: nat, dst: nat, len: nat, more: nat)
    requires Moved(a, b, zero, src, dst, len) && Apart(src, dst, len + more) && src + len + more <= |a.slots|
    requires CacheAfter(a, b, zero, src, dst, len) && CacheAfter(b, c, zero, src + len, dst + len, more)
    ensures CacheAfter(a, c, zero, src, dst, len + more)
  {
    forall x: nat
      ensures Cached(c, x) == CacheAt(a, zero, src, dst, len + more, x)
    {
      CacheSame(a, b, zero, src, dst, len, more, x);
    }
  }

  lemma CacheSame<D>(a: State<D>, b: State<D>, zero: D, src: nat, dst: nat, len: nat, more: nat, x: nat)
    requires Moved(a, b, zero, src, dst, len) && Apart(src, dst, len + more) && src + len + more <= |a.slots|
    requires CacheAfter(a, b, zero, src, dst, len)
    ensures CacheAt(b, zero, src + len, dst + len, more, x) == CacheAt(a, zero, src, dst, len + more, x)
  {
    hide Held, Lands;
    assert Cached(b, x) == CacheAt(a, zero, src, dst, len, x);
    if In(x, dst + len, more) { MovedSource(a, b, zero, src, dst, len, more, x - dst + src); }
    if In(x, src + len, more) { MovedSource(a, b, zero, src, dst, len, more, x); }
  }

  /** Source pages that have not been reached are as they were. */
  lemma MovedSource<D>(a: State<D>, b: State<D>, zero: D, src: nat, dst: nat, len: nat, more: nat, x: nat)
    requires Moved(a, b, zero, src, dst, len) && Apart(src, dst, len + more) && src + len + more <= |a.slots|
    requires In(x, src + len, more)
    ensures a.slots[x] == b.slots[x] && Cached(a, x) == Cached(b, x)
  {
    hide Held, Lands;
    MovedOutside(a, b, zero, src, dst, len, x);
  }

  /** What a move leaves on disk. */
  lemma MovedDisk<D>(a: State<D>, b: State<D>, zero: D, src: nat, dst: nat, i: nat, x: nat)
    requires Moved(a, b, zero, src, dst, i) && x < |a.slots|
    ensures OnDisk(b.slots[x], zero) == StopDisk(a, zero, src, dst, i, {}, x)
  {
    hide Held;
    if In(x, dst, i) {
      assert Lands(a, b, src, dst, i, x);
    } else if !In(x, src, i) {
      MovedOutside(a, b, zero, src, dst, i, x);
    }
  }

  /** A move that stops at page `i`, whose failure changes at most what the fault says. */
  lemma HaltHere<D>(a: State<D>, b: State<D>, c: State<D>, zero: D, src: nat, dst: nat, i: nat, len: nat,
                    f: Option<Failure>)
    requires Moved(a, b, zero, src, dst, i) && CacheAfter(a, b, zero, src, dst, i)
    requires i < len && src + len <= |a.slots| && dst + len <= |a.slots| == |c.slots|
    requires FaultCache(b, c, OnDisk(a.slots[src + i], zero), src + i, dst + i, f)
    requires forall x: nat :: x < |c.slots| ==> OnDisk(c.slots[x], zero) == OnDisk(b.slots[x], zero)
    ensures Halted(a, c, zero, src, dst, i, len, {}, f)
  {
    hide Moved, Held;
    forall x: nat | x < |c.slots|
      ensures OnDisk(c.slots[x], zero) == StopDisk(a, zero, src, dst, i, {}, x)
    {
      MovedDisk(a, b, zero, src, dst, i, x);
    }
  }

  /** A move goes on in a chunk and stops there. */
  lemma HaltedThen<D>(a: State<D>, b: State<D>, c: State<D>, zero: D, src: nat, dst: nat, len: nat, m: nat, more: nat,
                      total: nat, lost: set<nat>, f: Option<Failure>)
    requires Moved(a, b, zero, src, dst, len) && CacheAfter(a, b, zero, src, dst, len)
    requires Apart(src, dst, total) && len + more <= total && src + total <= |a.slots| && dst + total <= |a.slots|
    requires Halted(b, c, zero, src + len, dst + len, m, more, lost, f)
    requires forall x :: x in lost ==> In(x, src + len + m, more - m)
    ensures Halted(a, c, zero, src, dst, len + m, total, lost, f)
  {
    assert |a.slots| == |b.slots|;
    hide Held, Lands, Moved;
    forall x: nat
      ensures Cached(c, x) == StopCache(a, zero, src, dst, len + m, f, x)
    {
      CacheSame(a, b, zero, src, dst, len, m, x);
      MovedSource(a, b, zero, src, dst, len, more, src + len + m);
    }
    forall x: nat | x < |c.slots|
      ensures OnDisk(c.slots[x], zero) == StopDisk(a, zero, src, dst, len + m, lost, x)
    {
      DiskThen(a, b, zero, src, dst, len, m, more, total, lost, x);
    }
  }

  lemma DiskThen<D>(a: State<D>, b: State<D>, zero: D, src: nat, dst: nat, len: nat, m: nat, more: nat, total: nat,
                    lost: set<nat>, x: nat)
    requires Moved(a, b, zero, src, dst, len) && m < more && len + more <= total && x < |a.slots|
    requires Apart(src, dst, total) && src + total <= |a.slots| && dst + total <= |a.slots|
    requires forall x :: x in lost ==> In(x, src + len + m, more - m)
    ensures StopDisk(b, zero, src + len, dst + len, m, lost, x) == StopDisk(a, zero, src, dst, len + m, lost, x)
  {
    hide Held, Lands;
    MovedDisk(a, b, zero, src, dst, len, x);
    if In(x, dst + len, m) {
      MovedSource(a, b, zero, src, dst, len, more, x - dst + src);
      LandingThen(a, b, zero, src, dst, len, m, x);
    }
    hide Moved;
  }

  lemma LandingThen<D>(a: State<D>, b: State<D>, zero: D, src: nat, dst: nat, len: nat, m: nat, x: nat)
    requires Moved(a, b, zero, src, dst, len) && Apart(src, dst, len + m) && In(x, dst + len, m) && x < |a.slots|
    ensures Landing(b, src + len, m, x) == Landing(a, src, len + m, x)
  {
    hide Held, Lands;
    if !In(x, src, len) {
      MovedOutside(a, b, zero, src, dst, len, x);
    }
  }

  // ----------------------------------------------------------- addresses taken out

  /** The state with the addresses that were taken out, and not yet put elsewhere, back in place. */
  ghost function Restored<D>(s: State<D>, addr: seq<Slot<D>>, rep: seq<bool>, src: nat): State<D>
    requires |addr| == |rep|
  {
    s.(slots := seq(|s.slots|, x requires 0 <= x < |s.slots| =>
      if src <= x < src + |addr| && rep[x - src] then addr[x - src] else s.slots[x]))
  }

  /** What __read_out_blkaddrs leaves: `rep` marks the addresses taken out. */
  ghost predicate TakenOut<D>(s: State<D>, addr: seq<Slot<D>>, rep: seq<bool>, src: nat) {
    && |addr| == |rep| && src + |addr| <= |s.slots|
    && (forall i :: 0 <= i < |rep| && rep[i] ==> s.slots[src + i] == Hole && Fresh(addr[i]))
    && (forall i :: 0 <= i < |rep| && !rep[i] ==> s.slots[src + i] == addr[i] && !Fresh(addr[i]))
  }

  lemma NoneTaken<D>(s: State<D>, addr: seq<Slot<D>>, rep: seq<bool>, src: nat)
    requires |addr| == |rep| && forall j :: 0 <= j < |rep| ==> !rep[j]
    ensures Restored(s, addr, rep, src) == s
  {
  }

  /** Noting an address, and taking it out, are both undone by putting it back. */
  lemma TakeOut<D>(s: State<D>, addr: seq<Slot<D>>, rep: seq<bool>, src: nat, i: nat)
    requires |addr| == |rep| && src + |addr| <= |s.slots| && i < |rep| && !rep[i]
    ensures var v := Restored(s, addr, rep, src);
            && |v.slots| == |s.slots| && v.slots[src + i] == s.slots[src + i]
            && Restored(s, addr[i := s.slots[src + i]], rep, src) == v
            && Restored(s.(slots := s.slots[src + i := Hole]), addr[i := s.slots[src + i]], rep[i := true], src) == v
  {
  }

  // ------------------------------------------------------------- one page at a time

  lemma MoveOne<D>(a: State<D>, b: State<D>, zero: D, src: nat, dst: nat)
    requires src < |a.slots| == |b.slots| && dst < |a.slots| && src != dst
    requires forall x: nat :: x != src && x != dst ==> SameAt(a, b, x)
    requires Held(b, zero, dst) == Held(a, zero, src)
    requires b.slots[src] == Hole && !Dirty(b, src) && Lands(a, b, src, dst, 1, dst)
    ensures Moved(a, b, zero, src, dst, 1)
  {
    forall x: nat | In(x, dst, 1)
      ensures Lands(a, b, src, dst, 1, x)
    {
      assert x == dst;
    }
    forall x: nat | In(x, dst, 1)
      ensures Held(b, zero, x) == Held(a, zero, x - dst + src)
    {
      assert x == dst;
    }
    forall x: nat | !In(x, src, 1) && !In(x, dst, 1)
      ensures SameAt(a, b, x)
    {
      assert x != src && x != dst;
    }
    forall x: nat | In(x, src, 1) && !In(x, dst, 1)
      ensures b.slots[x] == Hole && !Dirty(b, x)
    {
      assert x == src;
    }
  }

  /** The address of page `i` changes hands, or a hole is carried over. */
  lemma Handed<D>(s: State<D>, addr: seq<Slot<D>>, rep: seq<bool>, src: nat, dst: nat, i: nat, zero: D, full: bool,
                  s': State<D>, rep': seq<bool>)
    requires |addr| == |rep| && i < |addr|
    requires var v := Restored(s, addr, rep, src);
             Ready(v, src + i, dst + i, |addr| - i, full) && v.slots[src + i] == addr[i]
    requires rep[i] || addr[i] == Hole
    requires rep[i] ==> s.slots[src + i] == Hole && Fresh(addr[i])
    requires forall j :: 0 <= j < i ==> !rep[j]
    requires s' == s.(slots := s.slots[dst + i := addr[i]]) && rep' == rep[i := false]
    ensures Moved(Restored(s, addr, rep, src), Restored(s', addr, rep', src), zero, src + i, dst + i, 1)
  {
    var v, v' := Restored(s, addr, rep, src), Restored(s', addr, rep', src);
    assert In(src + i, src + i, |addr| - i) && In(dst + i, dst + i, |addr| - i);
    forall x: nat | x != src + i && x != dst + i
      ensures SameAt(v, v', x)
    {
    }
    MoveOne(v, v', zero, src + i, dst + i);
  }

  /** Page `i` is copied through the cache and its source slot punched. */
  lemma Copied<D>(s: State<D>, addr: seq<Slot<D>>, rep: seq<bool>, src: nat, dst: nat, i: nat, zero: D, full: bool,
                  s': State<D>)
    requires |addr| == |rep| && i < |addr|
    requires var v := Restored(s, addr, rep, src);
             Ready(v, src + i, dst + i, |addr| - i, full) && v.slots[src + i] == addr[i]
    requires forall j :: 0 <= j < i ==> !rep[j]
    requires !rep[i] && ByCopy(addr[i])
    requires var data := OnDisk(s.slots[src + i], zero);
             s' == State(s.slots[dst + i := if s.slots[dst + i].Hole? then Reserved else s.slots[dst + i]]
                        [src + i := Hole],
                         s.cache[src + i := Page(data, false)][dst + i := Page(data, true)])
    ensures Moved(Restored(s, addr, rep, src), Restored(s', addr, rep, src), zero, src + i, dst + i, 1)
  {
    var v, v' := Restored(s, addr, rep, src), Restored(s', addr, rep, src);
    assert In(src + i, src + i, |addr| - i) && In(dst + i, dst + i, |addr| - i);
    forall x: nat | x != src + i && x != dst + i
      ensures SameAt(v, v', x)
    {
    }
    MoveOne(v, v', zero, src + i, dst + i);
  }

  // ----------------------------------------------------------- progress in a chunk

  /** The addresses from page `i` on are still as __read_out_blkaddrs left them, and none before. */
  ghost predicate Pending<D>(s: State<D>, addr: seq<Slot<D>>, rep: seq<bool>, src: nat, i: nat) {
    && |addr| == |rep| && i <= |addr| && src + |addr| <= |s.slots|
    && (forall j :: 0 <= j < i ==> !rep[j])
    && (forall j :: i <= j < |rep| && rep[j] ==> s.slots[src + j] == Hole && Fresh(addr[j]))
    && (forall j :: i <= j < |rep| && !rep[j] ==> s.slots[src + j] == addr[j] && !Fresh(addr[j]))
  }

  ghost predicate Progress<D>(start: State<D>, v: State<D>, zero: D, src: nat, dst: nat, i: nat, len: nat, full: bool) {
    && i <= len && Apart(src, dst, len)
    && Moved(start, v, zero, src, dst, i) && Ready(v, src + i, dst + i, len - i, full)
  }

  lemma Begin<D>(start: State<D>, zero: D, src: nat, dst: nat, len: nat, full: bool)
    requires Ready(start, src, dst, len, full)
    ensures Progress(start, start, zero, src, dst, 0, len, full)
  {
  }

  lemma ProgressFits<D>(start: State<D>, v: State<D>, zero: D, src: nat, dst: nat, i: nat, len: nat, full: bool)
    requires Progress(start, v, zero, src, dst, i, len, full)
    ensures i <= len && Apart(src, dst, len) && src + len <= |start.slots| == |v.slots| && dst + len <= |start.slots|
    ensures Moved(start, v, zero, src, dst, i)
  {
  }

  lemma TakenPending<D>(s: State<D>, addr: seq<Slot<D>>, rep: seq<bool>, src: nat)
    requires TakenOut(s, addr, rep, src)
    ensures Pending(s, addr, rep, src, 0)
  {
  }

  lemma SameLength<D>(s: State<D>, addr: seq<Slot<D>>, rep: seq<bool>, src: nat, i: nat)
    requires Pending(s, addr, rep, src, i)
    ensures |addr| == |rep| && src + |addr| <= |s.slots|
  {
  }

  lemma Finish<D>(start: State<D>, s: State<D>, addr: seq<Slot<D>>, rep: seq<bool>, src: nat, dst: nat, zero: D,
                  full: bool)
    requires Pending(s, addr, rep, src, |addr|)
    requires Progress(start, Restored(s, addr, rep, src), zero, src, dst, |addr|, |addr|, full)
    ensures Moved(start, s, zero, src, dst, |addr|)
  {
    NoneTaken(s, addr, rep, src);
  }

  lemma Advance<D>(start: State<D>, v: State<D>, v': State<D>, zero: D, src: nat, dst: nat, i: nat, len: nat,
                   full: bool)
    requires Progress(start, v, zero, src, dst, i, len, full) && i < len
    requires Moved(v, v', zero, src + i, dst + i, 1)
    ensures Progress(start, v', zero, src, dst, i + 1, len, full)
  {
    hide Moved, Ready;
    MovedThen(start, v, v', zero, src, dst, i, 1);
    ReadyThen(v, v', zero, src + i, dst + i, 1, len - i - 1, full);
  }

  lemma RestoredAt<D>(s: State<D>, addr: seq<Slot<D>>, rep: seq<bool>, src: nat, i: nat)
    requires Pending(s, addr, rep, src, i) && i < |addr|
    ensures var v := Restored(s, addr, rep, src);
            |v.slots| == |s.slots| && v.slots[src + i] == addr[i] && v.cache == s.cache
  {
  }

  lemma SkipHole<D>(start: State<D>, s: State<D>, addr: seq<Slot<D>>, rep: seq<bool>, src: nat, dst: nat, i: nat,
                    zero: D)
    requires Pending(s, addr, rep, src, i) && i < |addr| && addr[i] == Hole
    requires Progress(start, Restored(s, addr, rep, src), zero, src, dst, i, |addr|, false)
    ensures Pending(s, addr, rep, src, i + 1)
    ensures Progress(start, Restored(s, addr, rep, src), zero, src, dst, i + 1, |addr|, false)
  {
    var v := Restored(s, addr, rep, src);
    RestoredAt(s, addr, rep, src, i);
    assert In(src + i, src + i, |addr| - i) && In(dst + i, dst + i, |addr| - i);
    MoveOne(v, v, zero, src + i, dst + i);
    Advance(start, v, v, zero, src, dst, i, |addr|, false);
  }

  lemma HandOver<D>(start: State<D>, s: State<D>, addr: seq<Slot<D>>, rep: seq<bool>, src: nat, dst: nat, i: nat,
                    zero: D, full: bool)
    requires Pending(s, addr, rep, src, i) && i < |addr| && (rep[i] || addr[i] == Hole)
    requires Progress(start, Restored(s, addr, rep, src), zero, src, dst, i, |addr|, full)
    ensures dst + i < |s.slots|
    ensures var s', rep' := s.(slots := s.slots[dst + i := addr[i]]), rep[i := false];
            && Pending(s', addr, rep', src, i + 1)
            && Progress(start, Restored(s', addr, rep', src), zero, src, dst, i + 1, |addr|, full)
  {
    var s', rep' := s.(slots := s.slots[dst + i := addr[i]]), rep[i := false];
    RestoredAt(s, addr, rep, src, i);
    Handed(s, addr, rep, src, dst, i, zero, full, s', rep');
    Advance(start, Restored(s, addr, rep, src), Restored(s', addr, rep', src), zero, src, dst, i, |addr|, full);
  }

  /** The state once page `i` has been copied and its source punched. */
  function AfterCopy<D>(s: State<D>, src: nat, dst: nat, data: D): State<D>
    requires src < |s.slots| && dst < |s.slots|
  {
    State(s.slots[dst := if s.slots[dst].Hole? then Reserved else s.slots[dst]][src := Hole],
          s.cache[src := Page(data, false)][dst := Page(data, true)])
  }

  lemma CopyOver<D>(start: State<D>, s: State<D>, addr: seq<Slot<D>>, rep: seq<bool>, src: nat, dst: nat, i: nat,
                    zero: D, full: bool)
    requires Pending(s, addr, rep, src, i) && i < |addr| && !rep[i] && addr[i] != Hole
    requires Progress(start, Restored(s, addr, rep, src), zero, src, dst, i, |addr|, full)
    ensures src + i < |s.slots| && dst + i < |s.slots| && src + i !in s.cache
    ensures var s' := AfterCopy(s, src + i, dst + i, OnDisk(s.slots[src + i], zero));
            && Pending(s', addr, rep, src, i + 1)
            && Progress(start, Restored(s', addr, rep, src), zero, src, dst, i + 1, |addr|, full)
  {
    RestoredAt(s, addr, rep, src, i);
    var v := Restored(s, addr, rep, src);
    assert In(src + i, src + i, |addr| - i);
    var s' := AfterCopy(s, src + i, dst + i, OnDisk(s.slots[src + i], zero));
    Copied(s, addr, rep, src, dst, i, zero, full, s');
    Advance(start, v, Restored(s', addr, rep, src), zero, src, dst, i, |addr|, full);
  }

  // ------------------------------------------------------------- when a move fails

  ghost predicate Kept<D>(a: State<D>, b: State<D>, zero: D, x: nat) {
    && Dirty(a, x) == Dirty(b, x) && Held(a, zero, x) == Held(b, zero, x)
    && (x < |a.slots| && x < |b.slots| ==> a.slots[x] == b.slots[x])
  }

  /**
    `done` pages have moved, the source pages after them still hold what they
    held, except those in `lost`, and so does every page outside; only the
    target of the page that failed may have changed.
  */
  ghost predicate Stopped<D>(a: State<D>, b: State<D>, zero: D, src: nat, dst: nat, done: nat, len: nat,
                             lost: set<nat>) {
    && done < len && |a.slots| == |b.slots| && src + len <= |a.slots| && dst + len <= |a.slots|
    && (forall x: nat :: In(x, dst, done) ==> Held(b, zero, x) == Held(a, zero, x - dst + src))
    && (forall x: nat :: In(x, dst, done) ==> Lands(a, b, src, dst, done, x))
    && (forall x: nat :: In(x, src + done, len - done) ==>
          !Dirty(b, x) && Held(b, zero, x) == if x in lost then zero else Held(a, zero, x))
    && (forall x: nat :: !In(x, src, len) && !In(x, dst, done + 1) ==> Kept(a, b, zero, x))
  }

  /** Nothing is lost if and only if what is lost reads as zeroes anyway. */
  lemma NothingLostIff<D>(a: State<D>, b: State<D>, zero: D, src: nat, dst: nat, done: nat, len: nat, lost: set<nat>)
    requires Stopped(a, b, zero, src, dst, done, len, lost) && forall x :: x in lost ==> In(x, src + done, len - done)
    ensures Stopped(a, b, zero, src, dst, done, len, {}) <==> forall x :: x in lost ==> Held(a, zero, x) == zero
  {
    hide Held, Lands, Kept, Dirty;
    if Stopped(a, b, zero, src, dst, done, len, {}) {
      forall x | x in lost
        ensures Held(a, zero, x) == zero
      {
        assert In(x, src + done, len - done);
      }
    }
  }

  lemma MovedKept<D>(a: State<D>, b: State<D>, zero: D, src: nat, dst: nat, len: nat, x: nat)
    requires Moved(a, b, zero, src, dst, len) && !In(x, src, len) && !In(x, dst, len)
    ensures Kept(a, b, zero, x)
  {
    MovedOutside(a, b, zero, src, dst, len, x);
    SameSlot(a, b, x);
  }

  lemma StoppedThen<D>(a: State<D>, b: State<D>, c: State<D>, zero: D, src: nat, dst: nat, len: nat, done: nat,
                       more: nat, total: nat, full: bool, lost: set<nat>)
    requires len + more <= total && Progress(a, b, zero, src, dst, len, total, full)
    requires Stopped(b, c, zero, src + len, dst + len, done, more, lost)
    requires forall x :: x in lost ==> In(x, src + len + done, more - done)
    ensures Stopped(a, c, zero, src, dst, len + done, total, lost)
  {
    hide Held, Dirty, Lands, SameAt;
    var moved := len + done;
    forall x: nat | In(x, dst, moved)
      ensures Held(c, zero, x) == Held(a, zero, x - dst + src) && Lands(a, c, src, dst, moved, x)
    {
      if In(x, dst, len) {
        assert !In(x, src + len, more) && !In(x, dst + len, done + 1) && Kept(b, c, zero, x);
        LandsFirst(a, b, c, zero, src, dst, len, done, x);
      } else {
        assert In(x, dst + len, done);
        MovedOutside(a, b, zero, src, dst, len, x - dst + src);
        LandsLater(a, b, c, zero, src, dst, len, done, x);
      }
    }
    forall x: nat | In(x, src + moved, total - moved)
      ensures !Dirty(c, x) && Held(c, zero, x) == if x in lost then zero else Held(a, zero, x)
    {
      StoppedRest(a, b, c, zero, src, dst, len, done, more, total, full, lost, x);
    }
    forall x: nat | !In(x, src, total) && !In(x, dst, moved + 1)
      ensures Kept(a, c, zero, x)
    {
      MovedKept(a, b, zero, src, dst, len, x);
      assert !In(x, src + len, more) && !In(x, dst + len, done + 1);
    }
  }

  lemma StoppedRest<D>(a: State<D>, b: State<D>, c: State<D>, zero: D, src: nat, dst: nat, len: nat, done: nat,
                       more: nat, total: nat, full: bool, lost: set<nat>, x: nat)
    requires len + more <= total && Progress(a, b, zero, src, dst, len, total, full)
    requires Stopped(b, c, zero, src + len, dst + len, done, more, lost)
    requires forall x :: x in lost ==> In(x, src + len + done, more - done)
    requires In(x, src + len + done, total - len - done)
    ensures !Dirty(c, x) && Held(c, zero, x) == if x in lost then zero else Held(a, zero, x)
  {
    hide Held, Lands, SameAt;
    MovedOutside(a, b, zero, src, dst, len, x);
    if !In(x, src + len + done, more - done) {
      assert !In(x, src + len, more) && !In(x, dst + len, done + 1) && Kept(b, c, zero, x);
      assert In(x, src + len, total - len);
    }
  }

  /** Stopping between two pages. */
  lemma StoppedAt<D>(a: State<D>, b: State<D>, zero: D, src: nat, dst: nat, done: nat, len: nat, full: bool)
    requires done < len && Progress(a, b, zero, src, dst, done, len, full)
    ensures Stopped(a, b, zero, src, dst, done, len, {})
  {
    hide Held, Lands, SameAt;
    forall x: nat | In(x, src + done, len - done)
      ensures !Dirty(b, x) && Held(b, zero, x) == Held(a, zero, x)
    {
      MovedOutside(a, b, zero, src, dst, done, x);
    }
    forall x: nat | !In(x, src, len) && !In(x, dst, done + 1)
      ensures Kept(a, b, zero, x)
    {
      MovedKept(a, b, zero, src, dst, done, x);
    }
  }

  /** Stopping with the failing page's own target, or a clean copy of its source, changed. */
  lemma StoppedIn<D>(a: State<D>, b: State<D>, c: State<D>, zero: D, src: nat, dst: nat, done: nat, len: nat)
    requires Stopped(a, b, zero, src, dst, done, len, {}) && Apart(src, dst, len)
    requires |c.slots| == |b.slots| && forall x: nat :: x != dst + done ==> Kept(b, c, zero, x)
    ensures Stopped(a, c, zero, src, dst, done, len, {})
  {
    hide Held, Dirty;
    forall x: nat | In(x, dst, done)
      ensures Held(c, zero, x) == Held(a, zero, x - dst + src) && Lands(a, c, src, dst, done, x)
    {
      assert Kept(b, c, zero, x) && Lands(a, b, src, dst, done, x);
    }
    forall x: nat | In(x, src + done, len - done)
      ensures !Dirty(c, x) && Held(c, zero, x) == Held(a, zero, x)
    {
      assert Kept(b, c, zero, x);
    }
    forall x: nat | !In(x, src, len) && !In(x, dst, done + 1)
      ensures Kept(a, c, zero, x)
    {
      assert Kept(b, c, zero, x) && Kept(a, b, zero, x);
    }
  }

  /** Giving up at page `i` loses nothing, whatever became of its target or of a clean copy of its source. */
  lemma Stop<D>(start: State<D>, s: State<D>, addr: seq<Slot<D>>, rep: seq<bool>, src: nat, dst: nat, i: nat, zero: D,
                full: bool, s': State<D>)
    requires Pending(s, addr, rep, src, i) && i < |addr|
    requires Progress(start, Restored(s, addr, rep, src), zero, src, dst, i, |addr|, full)
    requires |s'.slots| == |s.slots|
    requires forall x: nat :: x != dst + i ==>
              Dirty(s', x) == Dirty(s, x) && (Dirty(s, x) ==> s'.cache[x] == s.cache[x])
    requires forall x: nat :: x != dst + i && x < |s.slots| ==> s'.slots[x] == s.slots[x]
    ensures Stopped(start, Restored(s', addr, rep, src), zero, src, dst, i, |addr|, {})
    ensures Pending(s', addr, rep, src, i)
  {
    var v, v' := Restored(s, addr, rep, src), Restored(s', addr, rep, src);
    StoppedAt(start, v, zero, src, dst, i, |addr|, full);
    forall x: nat | x != dst + i
      ensures Kept(v, v', zero, x)
    {
      assert Dirty(v, x) == Dirty(s, x) && Dirty(v', x) == Dirty(s', x);
    }
    hide Stopped, Kept;
    StoppedIn(start, v, v', zero, src, dst, i, |addr|);
  }

  // ------------------------------------------------------------------- roll-back

  /** Addresses go back where they were taken from, except those whose dnode cannot be found: their blocks are freed. */
  ghost function RolledBack<D>(s: State<D>, addr: seq<Slot<D>>, rep: seq<bool>, src: nat, gone: set<nat>): State<D>
    requires |addr| == |rep|
  {
    s.(slots := seq(|s.slots|, x requires 0 <= x < |s.slots| =>
      if src <= x < src + |addr| && rep[x - src] && x !in gone then addr[x - src] else s.slots[x]))
  }

  /** The pages that roll-back frees: fresh blocks taken out and not yet placed, whose dnode is gone. */
  ghost function LostSet<D>(a: State<D>, gone: set<nat>, from: nat, upto: nat): set<nat> {
    set x | x in gone && from <= x < upto && x < |a.slots| && Fresh(a.slots[x])
  }

  /** `rep` marks the fresh blocks among pages [done, held), and their slots are empty. */
  ghost predicate Out<D>(a: State<D>, s: State<D>, addr: seq<Slot<D>>, rep: seq<bool>, src: nat, done: nat, held: nat) {
    && |addr| == |rep| && done <= held <= |addr| && src + |addr| <= |s.slots| == |a.slots|
    && (forall j :: 0 <= j < |rep| ==> (rep[j] <==> done <= j < held && Fresh(a.slots[src + j])))
    && (forall j :: 0 <= j < |rep| && rep[j] ==> s.slots[src + j] == Hole)
  }

  /** What roll-back leaves after a chunk has failed. */
  lemma UndoStopped<D>(a: State<D>, s: State<D>, addr: seq<Slot<D>>, rep: seq<bool>, src: nat, dst: nat, done: nat,
                       held: nat, zero: D, gone: set<nat>)
    requires Out(a, s, addr, rep, src, done, held) && Apart(src, dst, |addr|)
    requires Stopped(a, Restored(s, addr, rep, src), zero, src, dst, done, |addr|, {})
    ensures Stopped(a, RolledBack(s, addr, rep, src, gone), zero, src, dst, done, |addr|,
                    LostSet(a, gone, src + done, src + held))
  {
    var v, w, len := Restored(s, addr, rep, src), RolledBack(s, addr, rep, src, gone), |addr|;
    var lost := LostSet(a, gone, src + done, src + held);
    forall x: nat | !In(x, src + done, len - done)
      ensures Kept(v, w, zero, x)
    {
    }
    forall x: nat | In(x, src + done, len - done)
      ensures !Dirty(w, x) && Held(w, zero, x) == if x in lost then zero else Held(a, zero, x)
    {
      UndoPage(a, s, addr, rep, src, dst, done, held, zero, gone, x);
    }
    hide Held, Dirty, LostSet;
    forall x: nat | In(x, dst, done)
      ensures Held(w, zero, x) == Held(a, zero, x - dst + src) && Lands(a, w, src, dst, done, x)
    {
      assert Kept(v, w, zero, x) && Lands(a, v, src, dst, done, x);
    }
    forall x: nat | !In(x, src, len) && !In(x, dst, done + 1)
      ensures Kept(a, w, zero, x)
    {
      assert Kept(v, w, zero, x) && Kept(a, v, zero, x);
    }
  }

  lemma UndoPage<D>(a: State<D>, s: State<D>, addr: seq<Slot<D>>, rep: seq<bool>, src: nat, dst: nat, done: nat,
                    held: nat, zero: D, gone: set<nat>, x: nat)
    requires Out(a, s, addr, rep, src, done, held) && In(x, src + done, |addr| - done)
    requires Stopped(a, Restored(s, addr, rep, src), zero, src, dst, done, |addr|, {})
    ensures var w := RolledBack(s, addr, rep, src, gone);
            !Dirty(w, x)
            && Held(w, zero, x) == if x in LostSet(a, gone, src + done, src + held) then zero else Held(a, zero, x)
  {
    var v := Restored(s, addr, rep, src);
    assert !Dirty(v, x) && Held(v, zero, x) == Held(a, zero, x);
    assert rep[x - src] <==> x < src + held && Fresh(a.slots[src + (x - src)]);
  }

  lemma NoneHeld<D>(a: State<D>, gone: set<nat>, x: nat)
    ensures LostSet(a, gone, x, x) == {}
  {
  }

  /** The addresses noted are those of the state before they were taken out. */
  lemma TakenAddr<D>(a: State<D>, s: State<D>, addr: seq<Slot<D>>, rep: seq<bool>, src: nat)
    requires TakenOut(s, addr, rep, src) && Restored(s, addr, rep, src) == a
    ensures |a.slots| == |s.slots| && forall j :: 0 <= j < |addr| ==> addr[j] == a.slots[src + j]
  {
  }

  lemma OutRange<D>(a: State<D>, s: State<D>, addr: seq<Slot<D>>, rep: seq<bool>, src: nat, done: nat, held: nat)
    requires Out(a, s, addr, rep, src, done, held)
    ensures |addr| == |rep| && done <= held <= |addr|
  {
  }

  lemma PendingOut<D>(a: State<D>, s: State<D>, addr: seq<Slot<D>>, rep: seq<bool>, src: nat, i: nat)
    requires Pending(s, addr, rep, src, i) && |a.slots| == |s.slots|
    requires forall j :: 0 <= j < |addr| ==> addr[j] == a.slots[src + j]
    ensures Out(a, s, addr, rep, src, i, |addr|)
  {
  }

  lemma ChunkStopped<D>(a: State<D>, b: State<D>, c: State<D>, zero: D, src: nat, dst: nat, len: nat, done: nat,
                        held: nat, more: nat, total: nat, full: bool, gone: set<nat>)
    requires len + more <= total && done <= held <= more && Progress(a, b, zero, src, dst, len, total, full)
    requires Stopped(b, c, zero, src + len, dst + len, done, more, LostSet(b, gone, src + len + done, src + len + held))
    ensures Stopped(a, c, zero, src, dst, len + done, total, LostSet(a, gone, src + len + done, src + len + held))
  {
    hide Held, Stopped, SameAt;
    var lost := LostSet(b, gone, src + len + done, src + len + held);
    StoppedThen(a, b, c, zero, src, dst, len, done, more, total, full, lost);
    forall x | x in gone && src + len + done <= x < src + len + held
      ensures x < |a.slots| && x < |b.slots| ==> a.slots[x] == b.slots[x]
    {
      MovedOutside(a, b, zero, src, dst, len, x);
      SameSlot(a, b, x);
    }
    assert lost == LostSet(a, gone, src + len + done, src + len + held);
  }

  // -------------------------------------------------- the state when a move has stopped

  /** Giving up at page `i`, with what the fault has done. */
  lemma HaltCopy<D>(start: State<D>, s: State<D>, addr: seq<Slot<D>>, rep: seq<bool>, src: nat, dst: nat, i: nat,
                    zero: D, full: bool, s': State<D>, f: Option<Failure>)
    requires Pending(s, addr, rep, src, i) && i < |addr|
    requires Progress(start, Restored(s, addr, rep, src), zero, src, dst, i, |addr|, full)
    requires CacheAfter(start, s, zero, src, dst, i)
    requires |s'.slots| == |s.slots| && forall x: nat :: x != dst + i && x < |s.slots| ==> s'.slots[x] == s.slots[x]
    requires dst + i < |s.slots| ==> OnDisk(s'.slots[dst + i], zero) == OnDisk(s.slots[dst + i], zero)
    requires src + i < |start.slots| && FaultCache(s, s', OnDisk(start.slots[src + i], zero), src + i, dst + i, f)
    ensures Halted(start, Restored(s', addr, rep, src), zero, src, dst, i, |addr|, {}, f)
  {
    var v, v' := Restored(s, addr, rep, src), Restored(s', addr, rep, src);
    forall x: nat
      ensures Cached(v, x) == Cached(s, x) && Cached(v', x) == Cached(s', x)
      ensures x < |v.slots| ==> OnDisk(v'.slots[x], zero) == OnDisk(v.slots[x], zero)
    {
    }
    assert Ready(v, src + i, dst + i, |addr| - i, full);
    hide Restored, Moved, Pending, OnDisk;
    HaltHere(start, v, v', zero, src, dst, i, |addr|, f);
  }

  /** The state when copying a page has failed. */
  function FaultState<D>(s: State<D>, src: nat, dst: nat, data: D, f: Failure): State<D>
    requires dst < |s.slots|
  {
    match f
    case Reading(_) => s
    case Writing(_) => s.(cache := s.cache[src := Page(data, false)])
    case Punching(_) => State(s.slots[dst := if s.slots[dst].Hole? then Reserved else s.slots[dst]],
                              s.cache[src := Page(data, false)][dst := Page(data, true)])
  }

  /** The state of a chunk while its pages are moved: `i` have been. */
  ghost predicate Cloning<D>(start: State<D>, s: State<D>, addr: seq<Slot<D>>, rep: seq<bool>, zero: D, src: nat,
                             dst: nat, i: nat, full: bool) {
    && Pending(s, addr, rep, src, i) && Progress(start, Restored(s, addr, rep, src), zero, src, dst, i, |addr|, full)
    && CacheAfter(start, s, zero, src, dst, i)
    && src + |addr| <= |start.slots| && forall j :: 0 <= j < |addr| ==> start.slots[src + j] == addr[j]
  }

  /** How a chunk has failed at page `i`. */
  ghost predicate Failed<D>(start: State<D>, s: State<D>, addr: seq<Slot<D>>, rep: seq<bool>, zero: D, src: nat,
                            dst: nat, i: nat, fail: map<nat, Failure>) {
    && Pending(s, addr, rep, src, i) && Stopped(start, Restored(s, addr, rep, src), zero, src, dst, i, |addr|, {})
    && Halted(start, Restored(s, addr, rep, src), zero, src, dst, i, |addr|, {},
              FaultAt(start.slots, src, Halt(i, |addr|, true), fail))
  }

  lemma CloneBegin<D>(s: State<D>, addr: seq<Slot<D>>, rep: seq<bool>, zero: D, src: nat, dst: nat, full: bool)
    requires TakenOut(s, addr, rep, src) && Ready(Restored(s, addr, rep, src), src, dst, |addr|, full)
    ensures Cloning(Restored(s, addr, rep, src), s, addr, rep, zero, src, dst, 0, full)
  {
    NotedAt(s, addr, rep, src);
    TakenPending(s, addr, rep, src);
    var start := Restored(s, addr, rep, src);
    Begin(start, zero, src, dst, |addr|, full);
    CacheStart(start, s, zero, src, dst);
  }

  lemma CloneEnd<D>(start: State<D>, s: State<D>, addr: seq<Slot<D>>, rep: seq<bool>, zero: D, src: nat, dst: nat,
                    full: bool)
    requires Cloning(start, s, addr, rep, zero, src, dst, |addr|, full)
    ensures Moved(start, s, zero, src, dst, |addr|) && CacheAfter(start, s, zero, src, dst, |addr|)
  {
    Finish(start, s, addr, rep, src, dst, zero, full);
  }

  lemma CloneSkip<D>(start: State<D>, s: State<D>, addr: seq<Slot<D>>, rep: seq<bool>, zero: D, src: nat, dst: nat,
                     i: nat)
    requires Cloning(start, s, addr, rep, zero, src, dst, i, false) && i < |addr| && addr[i] == Hole
    ensures Cloning(start, s, addr, rep, zero, src, dst, i + 1, false)
  {
    hide Restored, Progress, Pending, CacheAfter;
    SkipHole(start, s, addr, rep, src, dst, i, zero);
    CacheOver(start, s, addr, zero, src, dst, i, i + 1);
  }

  /** After a run of pages that are handed over. */
  lemma CloneRun<D>(start: State<D>, s: State<D>, rep: seq<bool>, s': State<D>, rep': seq<bool>, addr: seq<Slot<D>>,
                    zero: D, src: nat, dst: nat, i: nat, i': nat, full: bool)
    requires Cloning(start, s, addr, rep, zero, src, dst, i, full) && i <= i' <= |addr| && s'.cache == s.cache
    requires Running(start, s', addr, rep', zero, src, dst, i', full)
    requires forall j :: i <= j < i' ==> !ByCopy(addr[j])
    ensures Cloning(start, s', addr, rep', zero, src, dst, i', full)
  {
    hide Restored, Progress, Pending, CacheAfter;
    CacheOver(start, s, addr, zero, src, dst, i, i');
    SameCache(start, s, s', zero, src, dst, i');
  }

  lemma CloneLength<D>(start: State<D>, s: State<D>, addr: seq<Slot<D>>, rep: seq<bool>, zero: D, src: nat, dst: nat,
                       i: nat, full: bool)
    requires Cloning(start, s, addr, rep, zero, src, dst, i, full)
    ensures |rep| == |addr| && i <= |addr|
  {
  }

  lemma CloneKind<D>(start: State<D>, s: State<D>, addr: seq<Slot<D>>, rep: seq<bool>, zero: D, src: nat, dst: nat,
                     i: nat, full: bool)
    requires Cloning(start, s, addr, rep, zero, src, dst, i, full) && i < |addr|
    ensures |rep| == |addr| && (rep[i] || addr[i] == Hole <==> !ByCopy(addr[i]))
  {
    PendingKind(s, addr, rep, src, i);
  }

  /** The run itself fails before it has begun. */
  lemma CloneRunFails<D>(start: State<D>, s: State<D>, addr: seq<Slot<D>>, rep: seq<bool>, zero: D, src: nat, dst: nat,
                         i: nat, full: bool, fail: map<nat, Failure>)
    requires Cloning(start, s, addr, rep, zero, src, dst, i, full) && i < |addr| && !ByCopy(addr[i])
    ensures Failed(start, s, addr, rep, zero, src, dst, i, fail)
  {
    hide Restored, Progress, Pending, CacheAfter, Stopped, Halted;
    Stop(start, s, addr, rep, src, dst, i, zero, full, s);
    HaltCopy(start, s, addr, rep, src, dst, i, zero, full, s, None);
  }

  lemma CloneAt<D>(start: State<D>, s: State<D>, addr: seq<Slot<D>>, rep: seq<bool>, zero: D, src: nat, dst: nat,
                   i: nat, full: bool)
    requires Cloning(start, s, addr, rep, zero, src, dst, i, full) && i < |addr|
    ensures Running(start, s, addr, rep, zero, src, dst, i, full) && CacheAfter(start, s, zero, src, dst, i)
    ensures src + i < |start.slots| && start.slots[src + i] == addr[i]
  {
  }

  lemma FaultIs<D>(s: State<D>, src: nat, dst: nat, data: D, f: Failure, zero: D)
    requires dst < |s.slots| && src !in s.cache && src != dst
    ensures var s' := FaultState(s, src, dst, data, f);
            && |s'.slots| == |s.slots| && (forall x: nat :: x != dst && x < |s.slots| ==> s'.slots[x] == s.slots[x])
            && OnDisk(s'.slots[dst], zero) == OnDisk(s.slots[dst], zero) && FaultCache(s, s', data, src, dst, Some(f))
            && (forall x: nat :: x != dst ==>
                  Dirty(s', x) == Dirty(s, x) && (Dirty(s, x) ==> s'.cache[x] == s.cache[x]))
  {
  }

  /** Copying page `i` fails. */
  lemma CopyFails<D>(start: State<D>, s: State<D>, addr: seq<Slot<D>>, rep: seq<bool>, zero: D, src: nat, dst: nat,
                     i: nat, full: bool, fail: map<nat, Failure>)
    requires Cloning(start, s, addr, rep, zero, src, dst, i, full) && i < |addr| && ByCopy(addr[i]) && src + i in fail
    requires dst + i < |s.slots| && src + i !in s.cache && Apart(src, dst, |addr|)
    ensures var s' := FaultState(s, src + i, dst + i, OnDisk(addr[i], zero), fail[src + i]);
            Failed(start, s', addr, rep, zero, src, dst, i, fail)
  {
    var s' := FaultState(s, src + i, dst + i, OnDisk(addr[i], zero), fail[src + i]);
    FaultIs(s, src + i, dst + i, OnDisk(addr[i], zero), fail[src + i], zero);
    CloneAt(start, s, addr, rep, zero, src, dst, i, full);
    hide Cloning, Pending, Progress, Restored, Stopped, Halted, CacheAfter, FaultState, FaultCache, OnDisk;
    Stop(start, s, addr, rep, src, dst, i, zero, full, s');
    HaltCopy(start, s, addr, rep, src, dst, i, zero, full, s', Some(fail[src + i]));
  }

  lemma CloneParts<D>(start: State<D>, s: State<D>, addr: seq<Slot<D>>, rep: seq<bool>, zero: D, src: nat, dst: nat,
                      i: nat, full: bool)
    requires Cloning(start, s, addr, rep, zero, src, dst, i, full)
    ensures Running(start, s, addr, rep, zero, src, dst, i, full)
  {
  }

  lemma LimitIs(left: nat -> nat, dst: nat, i: nat, len: nat)
    requires i < len
    ensures RunLimit(left, dst, i, len) == i + if left(dst + i) < len - i then left(dst + i) else len - i
  {
  }

  lemma RunStep<D>(addr: seq<Slot<D>>, i: nat, lim: nat)
    requires i <= lim <= |addr|
    ensures RunTo(addr, i, lim) == if i < lim && !ByCopy(addr[i]) then RunTo(addr, i + 1, lim) else i
  {
  }

  /** What copying page `i` meets, and what it leads to. */
  lemma CopyReady<D>(start: State<D>, s: State<D>, addr: seq<Slot<D>>, rep: seq<bool>, zero: D, src: nat, dst: nat,
                     i: nat, full: bool)
    requires Cloning(start, s, addr, rep, zero, src, dst, i, full)
    requires i < |addr| == |rep| && !rep[i] && addr[i] != Hole
    ensures src + i < |s.slots| && dst + i < |s.slots| && src + i !in s.cache && s.slots[src + i] == addr[i]
    ensures ByCopy(addr[i]) && Apart(src, dst, |addr|)
    ensures var s' := AfterCopy(s, src + i, dst + i, OnDisk(addr[i], zero));
            Cloning(start, s', addr, rep, zero, src, dst, i + 1, full)
  {
    hide Restored, Progress, Pending, CacheAfter;
    CopyOver(start, s, addr, rep, src, dst, i, zero, full);
    PendingKind(s, addr, rep, src, i);
    ProgressFits(start, Restored(s, addr, rep, src), zero, src, dst, i, |addr|, full);
    var s' := AfterCopy(s, src + i, dst + i, OnDisk(addr[i], zero));
    CacheCopy(start, s, s', zero, src, dst, i, |addr|);
  }

  /** A run of pages that are handed over, underway. */
  ghost predicate Running<D>(start: State<D>, s: State<D>, addr: seq<Slot<D>>, rep: seq<bool>, zero: D, src: nat,
                             dst: nat, i: nat, full: bool) {
    && Pending(s, addr, rep, src, i) && Progress(start, Restored(s, addr, rep, src), zero, src, dst, i, |addr|, full)
  }

  lemma RunNext<D>(start: State<D>, s: State<D>, addr: seq<Slot<D>>, rep: seq<bool>, zero: D, src: nat, dst: nat,
                   i: nat, full: bool)
    requires Running(start, s, addr, rep, zero, src, dst, i, full)
    requires i < |addr| == |rep| && (rep[i] || addr[i] == Hole)
    ensures dst + i < |s.slots|
    ensures var s', rep' := s.(slots := s.slots[dst + i := addr[i]]), rep[i := false];
            && Running(start, s', addr, rep', zero, src, dst, i + 1, full)
            && (i + 1 < |addr| ==> (rep'[i + 1] || addr[i + 1] == Hole <==> !ByCopy(addr[i + 1])))
  {
    hide Restored, Progress, Pending;
    HandOver(start, s, addr, rep, src, dst, i, zero, full);
    var s', rep' := s.(slots := s.slots[dst + i := addr[i]]), rep[i := false];
    if i + 1 < |addr| { PendingKind(s', addr, rep', src, i + 1); }
  }

  /** One step of CloneStop. */
  lemma CloneStep<D>(addr: seq<Slot<D>>, src: nat, dst: nat, i: nat, full: bool, fail: map<nat, Failure>,
                     left: nat -> nat)
    requires i < |addr| && forall x :: left(x) > 0
    ensures CloneStop(addr, src, dst, i, full, fail, left) ==
            if addr[i] == Hole && !full then CloneStop(addr, src, dst, i + 1, full, fail, left)
            else if src + i in fail then i
            else if ByCopy(addr[i]) then CloneStop(addr, src, dst, i + 1, full, fail, left)
            else CloneStop(addr, src, dst, RunTo(addr, i + 1, RunLimit(left, dst, i, |addr|)), full, fail, left)
    ensures RunLimit(left, dst, i, |addr|) <= |addr|
  {
  }

  /** The addresses noted are those of the start. */
  lemma NotedAt<D>(s: State<D>, addr: seq<Slot<D>>, rep: seq<bool>, src: nat)
    requires TakenOut(s, addr, rep, src)
    ensures var v := Restored(s, addr, rep, src);
            |v.slots| == |s.slots| && v.cache == s.cache && forall j :: 0 <= j < |addr| ==> v.slots[src + j] == addr[j]
  {
  }

  /** A page is handed over, or is a hole, exactly if it is not copied. */
  lemma PendingKind<D>(s: State<D>, addr: seq<Slot<D>>, rep: seq<bool>, src: nat, i: nat)
    requires Pending(s, addr, rep, src, i) && i < |addr|
    ensures rep[i] || addr[i] == Hole <==> !ByCopy(addr[i])
    ensures !rep[i] ==> s.slots[src + i] == addr[i]
  {
  }

  /** Roll-back of a chunk that has stopped. */
  lemma HaltRolled<D>(a: State<D>, s: State<D>, addr: seq<Slot<D>>, rep: seq<bool>, src: nat, dst: nat, m: nat,
                      held: nat, zero: D, gone: set<nat>, f: Option<Failure>)
    requires Out(a, s, addr, rep, src, m, held) && Apart(src, dst, |addr|)
    requires Halted(a, Restored(s, addr, rep, src), zero, src, dst, m, |addr|, {}, f)
    ensures Halted(a, RolledBack(s, addr, rep, src, gone), zero, src, dst, m, |addr|,
                   LostSet(a, gone, src + m, src + held), f)
  {
    var v, w := Restored(s, addr, rep, src), RolledBack(s, addr, rep, src, gone);
    var lost := LostSet(a, gone, src + m, src + held);
    forall x: nat
      ensures Cached(w, x) == Cached(v, x)
    {
    }
    forall x: nat | x < |w.slots|
      ensures OnDisk(w.slots[x], zero) == StopDisk(a, zero, src, dst, m, lost, x)
    {
      assert OnDisk(v.slots[x], zero) == StopDisk(a, zero, src, dst, m, {}, x);
      if In(x, src, |addr|) {
        assert rep[x - src] <==> m <= x - src < held && Fresh(a.slots[src + (x - src)]);
      }
    }
  }

  /** A move that stopped at `at` and was rolled back. */
  ghost predicate Broken<D>(a: State<D>, b: State<D>, zero: D, src: nat, dst: nat, len: nat, at: Halt,
                            gone: set<nat>, fail: map<nat, Failure>) {
    var lost := LostSet(a, gone, src + at.moved, src + at.held);
    && at.moved <= at.held <= len && Stopped(a, b, zero, src, dst, at.moved, len, lost)
    && Halted(a, b, zero, src, dst, at.moved, len, lost, FaultAt(a.slots, src, at, fail))
  }

  /** Stopping before the first page. */
  lemma Untouched<D>(a: State<D>, zero: D, src: nat, dst: nat, len: nat, full: bool)
    requires Ready(a, src, dst, len, full) && len > 0
    ensures Apart(src, dst, len)
    ensures Stopped(a, a, zero, src, dst, 0, len, {}) && Halted(a, a, zero, src, dst, 0, len, {}, None)
  {
    Begin(a, zero, src, dst, len, full);
    StoppedAt(a, a, zero, src, dst, 0, len, full);
    CacheStart(a, a, zero, src, dst);
    hide Stopped, Halted, Moved, CacheAfter;
    HaltHere(a, a, a, zero, src, dst, 0, len, None);
  }

  /** A chunk whose addresses cannot all be taken out. */
  lemma ReadOutBreaks<D>(a: State<D>, s: State<D>, addr: seq<Slot<D>>, rep: seq<bool>, src: nat, dst: nat, held: nat,
                         zero: D, full: bool, gone: set<nat>, fail: map<nat, Failure>)
    requires Ready(a, src, dst, |addr|, full) && |addr| > 0
    requires Out(a, s, addr, rep, src, 0, held) && Restored(s, addr, rep, src) == a
    ensures Broken(a, RolledBack(s, addr, rep, src, gone), zero, src, dst, |addr|, Halt(0, held, false), gone, fail)
  {
    hide Restored, RolledBack, Stopped, Halted, Ready, Out, LostSet;
    Untouched(a, zero, src, dst, |addr|, full);
    OutRange(a, s, addr, rep, src, 0, held);
    UndoStopped(a, s, addr, rep, src, dst, 0, held, zero, gone);
    HaltRolled(a, s, addr, rep, src, dst, 0, held, zero, gone, None);
  }

  /** A chunk of which a page fails to be moved. */
  lemma CloneBreaks<D>(a: State<D>, s: State<D>, addr: seq<Slot<D>>, rep: seq<bool>, src: nat, dst: nat, m: nat,
                       zero: D, gone: set<nat>, fail: map<nat, Failure>)
    requires Failed(a, s, addr, rep, zero, src, dst, m, fail) && Apart(src, dst, |addr|)
    requires |a.slots| == |s.slots|
    requires forall j :: 0 <= j < |addr| ==> src + j < |a.slots| && addr[j] == a.slots[src + j]
    ensures |addr| == |rep|
    ensures Broken(a, RolledBack(s, addr, rep, src, gone), zero, src, dst, |addr|, Halt(m, |addr|, true), gone, fail)
  {
    PendingOut(a, s, addr, rep, src, m);
    SameLength(s, addr, rep, src, m);
    hide Restored, RolledBack, Stopped, Halted, Out, Pending;
    UndoStopped(a, s, addr, rep, src, dst, m, |addr|, zero, gone);
    HaltRolled(a, s, addr, rep, src, dst, m, |addr|, zero, gone, FaultAt(a.slots, src, Halt(m, |addr|, true), fail));
    OutRange(a, s, addr, rep, src, m, |addr|);
  }

  /** A chunk that breaks the move. */
  lemma ChunkBreaks<D>(a: State<D>, b: State<D>, c: State<D>, zero: D, src: nat, dst: nat, done: nat, more: nat,
                       total: nat, full: bool, at: Halt, gone: set<nat>, fail: map<nat, Failure>)
    requires Progress(a, b, zero, src, dst, done, total, full) && CacheAfter(a, b, zero, src, dst, done)
    requires done + more <= total
    requires Broken(b, c, zero, src + done, dst + done, more, at, gone, fail) && at.moved < more
    ensures Broken(a, c, zero, src, dst, total, Halt(done + at.moved, done + at.held, at.cloning), gone, fail)
  {
    hide Stopped, Halted, Moved, Ready, CacheAfter;
    var lost := LostSet(b, gone, src + done + at.moved, src + done + at.held);
    ProgressFits(a, b, zero, src, dst, done, total, full);
    ChunkStopped(a, b, c, zero, src, dst, done, at.moved, at.held, more, total, full, gone);
    LostSame(a, b, zero, src, dst, done, more, gone, at.moved, at.held);
    HaltedThen(a, b, c, zero, src, dst, done, at.moved, more, total, lost, FaultAt(b.slots, src + done, at, fail));
    MovedSource(a, b, zero, src, dst, done, more, src + done + at.moved);
  }

  lemma LostSame<D>(a: State<D>, b: State<D>, zero: D, src: nat, dst: nat, len: nat, more: nat, gone: set<nat>,
                    done: nat, held: nat)
    requires Moved(a, b, zero, src, dst, len) && Apart(src, dst, len + more) && src + len + more <= |a.slots|
    requires done <= held <= more
    ensures LostSet(b, gone, src + len + done, src + len + held) == LostSet(a, gone, src + len + done, src + len + held)
  {
    forall x: nat | In(x, src + len, more)
      ensures a.slots[x] == b.slots[x]
    {
      MovedSource(a, b, zero, src, dst, len, more, x);
    }
    hide Moved;
    forall x | x in gone && src + len + done <= x < src + len + held
      ensures x < |a.slots| && a.slots[x] == b.slots[x]
    {
      assert In(x, src + len, more);
    }
  }

  /** Memory is short between two chunks. */
  lemma MemoryBreaks<D>(a: State<D>, b: State<D>, zero: D, src: nat, dst: nat, done: nat, len: nat, full: bool,
                        gone: set<nat>, fail: map<nat, Failure>)
    requires Progress(a, b, zero, src, dst, done, len, full) && CacheAfter(a, b, zero, src, dst, done) && done < len
    ensures Broken(a, b, zero, src, dst, len, Halt(done, done, false), gone, fail)
  {
    hide Stopped, Halted, Moved, Ready, CacheAfter;
    ProgressFits(a, b, zero, src, dst, done, len, full);
    StoppedAt(a, b, zero, src, dst, done, len, full);
    NoneHeld(a, gone, src + done);
    HaltHere(a, b, b, zero, src, dst, done, len, None);
  }

  /** How a chunk has gone. */
  ghost predicate ChunkGone<D>(a: State<D>, b: State<D>, zero: D, src: nat, dst: nat, len: nat, full: bool, env: Env,
                               left: nat -> nat, ok: bool, at: Halt) {
    && |a.slots| == |b.slots| && src + len <= |a.slots| && (forall x :: left(x) > 0)
    && at == ChunkStop(a.slots, src, dst, len, full, env, left) && (ok <==> at.moved == len)
    && (ok ==> Moved(a, b, zero, src, dst, len) && CacheAfter(a, b, zero, src, dst, len))
    && (!ok ==> Broken(a, b, zero, src, dst, len, at, env.gone, env.fail))
    && (ok ==> AllReadable(a.slots, src, len, env))
    && (env.fail == map[] && AllReadable(a.slots, src, len, env) ==> ok)
  }

  /**
    How a move has gone: it stops where its source pages, in the state before, and
    the layers below make it stop; the whole range has moved, or what is said of a
    broken move holds.
  */
  ghost predicate Exchanged<D>(a: State<D>, b: State<D>, zero: D, src: nat, dst: nat, len: nat, chunk: nat, full: bool,
                               env: Env, left: nat -> nat, ok: bool, at: Halt) {
    && |a.slots| == |b.slots| && src + len <= |a.slots| && chunk > 0 && (forall x :: left(x) > 0)
    && at == ExchangeStop(a.slots, src, dst, 0, len, chunk, full, env, left) && (ok <==> at.moved == len)
    && (ok ==> Moved(a, b, zero, src, dst, len) && AllReadable(a.slots, src, len, env))
    && (!ok ==> Broken(a, b, zero, src, dst, len, at, env.gone, env.fail) && at.held <= at.moved + chunk)
    && (env.noMemory == {} && env.fail == map[] && AllReadable(a.slots, src, len, env) ==> ok)
  }

  lemma ChunkReadFailed<D>(a: State<D>, b: State<D>, zero: D, src: nat, dst: nat, len: nat, full: bool, env: Env,
                           left: nat -> nat, held: nat)
    requires |a.slots| == |b.slots| && src + len <= |a.slots| && forall x :: left(x) > 0
    requires held == ReadStop(a.slots, src, 0, len, env) < len && !AllReadable(a.slots, src, len, env)
    requires Broken(a, b, zero, src, dst, len, Halt(0, held, false), env.gone, env.fail)
    ensures ChunkGone(a, b, zero, src, dst, len, full, env, left, false, Halt(0, held, false))
  {
  }

  lemma ChunkCloned<D>(a: State<D>, b: State<D>, zero: D, src: nat, dst: nat, len: nat, full: bool, env: Env,
                       left: nat -> nat, addr: seq<Slot<D>>, moved: nat, ok: bool)
    requires |a.slots| == |b.slots| && src + len <= |a.slots| && forall x :: left(x) > 0
    requires ReadStop(a.slots, src, 0, len, env) == len && AllReadable(a.slots, src, len, env)
    requires |addr| == len && forall j :: 0 <= j < |addr| ==> addr[j] == a.slots[src + j]
    requires moved == CloneStop(addr, src, dst, 0, full, env.fail, left) && (ok <==> moved == len)
    requires env.fail == map[] ==> ok
    requires ok ==> Moved(a, b, zero, src, dst, len) && CacheAfter(a, b, zero, src, dst, len)
    requires !ok ==> Broken(a, b, zero, src, dst, len, Halt(moved, len, true), env.gone, env.fail)
    ensures ChunkGone(a, b, zero, src, dst, len, full, env, left, ok, Halt(moved, len, moved < len))
  {
    assert addr == a.slots[src..src + len];
  }

  lemma {:induction false} ReadStopSame<D>(a: seq<Slot<D>>, b: seq<Slot<D>>, src: nat, i: nat, len: nat, env: Env)
    requires i <= len && src + len <= |a| == |b| && forall x :: src <= x < src + len ==> a[x] == b[x]
    ensures ReadStop(a, src, i, len, env) == ReadStop(b, src, i, len, env)
    decreases len - i
  {
    if i < len { ReadStopSame(a, b, src, i + 1, len, env); }
  }

  /** Where a chunk stops depends on its source pages alone. */
  lemma ChunkStopSame<D>(a: seq<Slot<D>>, b: seq<Slot<D>>, src: nat, dst: nat, len: nat, full: bool, env: Env,
                         left: nat -> nat)
    requires src + len <= |a| == |b| && forall x :: src <= x < src + len ==> a[x] == b[x]
    requires forall x :: left(x) > 0
    ensures ChunkStop(a, src, dst, len, full, env, left) == ChunkStop(b, src, dst, len, full, env, left)
    ensures var h := ChunkStop(a, src, dst, len, full, env, left);
            FaultAt(a, src, h, env.fail) == FaultAt(b, src, h, env.fail)
  {
    ReadStopSame(a, b, src, 0, len, env);
    assert a[src..src + len] == b[src..src + len];
  }

  // --------------------------------------------------------------- the page cache

  const PAGE_SIZE: nat := 4096

  function PagesOf(size: nat): nat { (size + PAGE_SIZE - 1) / PAGE_SIZE }

  /** The least number of pages of 4096 bytes. */
  lemma PagesLeast(size: nat, n: nat)
    ensures size <= 4096 * n <==> PagesOf(size) <= n
  {
  }

  predicate Grown(was: nat, now: nat, pages: nat) { now == was || was <= now <= pages * PAGE_SIZE }

  /** Dirty pages from `from` on are written out, all but those that fail. */
  function WriteBack<D>(s: State<D>, from: nat, unwritten: set<nat>): (r: State<D>)
    ensures |r.slots| == |s.slots|
  {
    State(seq(|s.slots|, x requires 0 <= x < |s.slots| =>
            if x >= from && Dirty(s, x) && x !in unwritten then Block(s.cache[x].data, false) else s.slots[x]),
          map x | x in s.cache ::
            if x >= from && x !in unwritten then s.cache[x].(dirty := false) else s.cache[x])
  }

  /** truncate_pagecache. */
  function Drop<D>(s: State<D>, from: nat): (r: State<D>)
    ensures |r.slots| == |s.slots|
  {
    s.(cache := map x | x in s.cache && x < from :: s.cache[x])
  }

  /** f2fs_truncate_blocks at a page boundary. */
  function Cut<D>(s: State<D>, from: nat): (r: State<D>)
    ensures |r.slots| == |s.slots|
  {
    s.(slots := seq(|s.slots|, x requires 0 <= x < |s.slots| => if x < from then s.slots[x] else Hole))
  }

  /** What is left of a state when dirty pages are written out, all but some, and the cache is dropped. */
  function Settled<D>(s: State<D>, from: nat, unwritten: set<nat>): (r: State<D>)
    ensures |r.slots| == |s.slots|
  {
    Drop(WriteBack(s, from, unwritten), from)
  }

  lemma WrittenBack<D>(s: State<D>, zero: D, from: nat, unwritten: set<nat>, x: nat)
    requires Dirty(s, x) ==> x < |s.slots|
    ensures x < from || x !in unwritten || !Dirty(s, x) ==>
              Held(Settled(s, from, unwritten), zero, x) == Held(s, zero, x)
    ensures x >= from && x in unwritten && x < |s.slots| ==>
              Held(Settled(s, from, unwritten), zero, x) == OnDisk(s.slots[x], zero)
    ensures x >= from ==> x !in Settled(s, from, unwritten).cache
  {
  }

  /** A page that is copied, and one whose block changes hands, once dirty pages have been written out. */
  predicate CopiedPage<D>(s: State<D>, x: nat) { !Dirty(s, x) && x < |s.slots| && ByCopy(s.slots[x]) }

  predicate FreshPage<D>(s: State<D>, x: nat) { Dirty(s, x) || (x < |s.slots| && Fresh(s.slots[x])) }

  /** The pages that roll-back may lose read as zeroes anyway. */
  ghost predicate Harmless<D>(s: State<D>, zero: D, gone: set<nat>, from: nat, upto: nat) {
    forall x :: x in gone && from <= x < upto && FreshPage(s, x) ==> Held(s, zero, x) == zero
  }

  lemma FlushedSlot<D>(s: State<D>, zero: D, from: nat, x: nat)
    requires from <= x < |s.slots|
    ensures var slot := Settled(s, from, {}).slots[x];
            && (ByCopy(slot) <==> CopiedPage(s, x)) && (Fresh(slot) <==> FreshPage(s, x))
            && OnDisk(slot, zero) == Held(s, zero, x)
  {
  }

  /** What an arrived page holds in the end. */
  lemma Arrived<D>(a: State<D>, t: State<D>, zero: D, src: nat, dst: nat, len: nat, x: nat, from: nat,
                   unwritten: set<nat>)
    requires |a.slots| == |t.slots| && src + len <= |a.slots| && dst + len <= |a.slots|
    requires In(x, dst, len) && from <= x && Lands(a, t, src, dst, len, x)
    requires Held(t, zero, x) == Held(a, zero, x - dst + src)
    ensures Held(Settled(t, from, unwritten), zero, x) ==
            if x in unwritten && ByCopy(a.slots[x - dst + src]) then OnDisk(Landing(a, src, len, x), zero)
            else Held(a, zero, x - dst + src)
  {
    hide WriteBack, Drop, Settled;
    WrittenBack(t, zero, from, unwritten, x);
  }

  ghost function Pages<D>(s: State<D>, zero: D, n: nat): seq<D> {
    seq(n, x requires 0 <= x < n => Held(s, zero, x))
  }

  /** Every page of the shifted part is where it was or where it was to go, and those before it are untouched. */
  ghost predicate NoneLost<D>(a: State<D>, b: State<D>, zero: D, start: nat, n: nat, shift: int) {
    && (forall x: nat :: x < start && x < start + shift ==> Held(b, zero, x) == Held(a, zero, x))
    && (forall x: nat :: start <= x < n ==>
          Held(b, zero, x) == Held(a, zero, x) || (x + shift >= 0 && Held(b, zero, x + shift) == Held(a, zero, x)))
  }

  // ------------------------------------------------------------------- the inode

  class File<D(==)> {
    const zero: D
    const perBlock: nat        // ADDRS_PER_BLOCK
    const left: nat -> nat     // addresses from this index to the end of its dnode
    var slots: seq<Slot<D>>
    var cache: map<nat, Page<D>>
    var size: nat              // i_size in bytes

    constructor (zero: D, perBlock: nat, left: nat -> nat, slots: seq<Slot<D>>, size: nat)
      requires perBlock > 0 && (forall x :: left(x) > 0) && PagesOf(size) <= |slots|
      ensures Valid() && Mapped() && Now() == State(slots, map[]) && this.zero == zero && this.size == size
    {
      this.zero, this.perBlock, this.left := zero, perBlock, left;
      this.slots, this.cache, this.size := slots, map[], size;
    }

    /** The file fits into its address fields, and cached pages lie within the file. */
    ghost predicate Mapped()
      reads this
    {
      PagesOf(size) <= |slots| && forall x :: x in cache ==> x < PagesOf(size)
    }

    ghost predicate Valid()
      reads this
    {
      perBlock > 0 && forall x :: left(x) > 0
    }

    function Now(): State<D>
      reads this
    {
      State(slots, cache)
    }

    /**
      __read_out_blkaddrs.  It fails on a page whose dnode or address is bad and,
      in log-structured mode, on a block that no checkpoint refers to.
    */
    method ReadOut(src: nat, len: nat, env: Env)
      returns (addr: seq<Slot<D>>, rep: seq<bool>, r: Result, ghost held: nat)
      requires Valid() && src + len <= |slots|
      modifies this`slots
      ensures |addr| == |rep| == len && |slots| == old(|slots|)
      ensures Restored(Now(), addr, rep, src) == old(Now())
      ensures r.Ok? ==> TakenOut(Now(), addr, rep, src)
      ensures Out(old(Now()), Now(), addr, rep, src, 0, held) && (r.Ok? <==> held == len)
      ensures r.Ok? <==> AllReadable(old(slots), src, len, env)
      ensures held == ReadStop(old(slots), src, 0, len, env)
    {
      hide Restored;
      addr := seq(len, _ => Hole);
      rep := seq(len, _ => false);
      var i := 0;
      NoneTaken(Now(), addr, rep, src);
      while i < len
        invariant 0 <= i <= len && |addr| == |rep| == len && |slots| == old(|slots|)
        invariant forall j :: 0 <= j < len ==> (rep[j] <==> j < i && Fresh(old(slots)[src + j]))
        invariant forall j :: 0 <= j < i ==>
                    if rep[j] then slots[src + j] == Hole && Fresh(addr[j])
                    else slots[src + j] == addr[j] && !Fresh(addr[j])
        invariant Restored(Now(), addr, rep, src) == old(Now())
        invariant forall x: nat :: In(x, src, i) ==> Readable(old(slots), x, env.lfs, env.bad)
        invariant ReadStop(old(slots), src, 0, len, env) == ReadStop(old(slots), src, i, len, env)
      {
        var done := if left(src + i) < len - i then left(src + i) else len - i;
        var end := i + done;
        while i < end
          invariant 0 <= i <= end <= len && |addr| == |rep| == len && |slots| == old(|slots|)
          invariant forall j :: 0 <= j < len ==> (rep[j] <==> j < i && Fresh(old(slots)[src + j]))
          invariant forall j :: 0 <= j < i ==>
                    if rep[j] then slots[src + j] == Hole && Fresh(addr[j])
                    else slots[src + j] == addr[j] && !Fresh(addr[j])
          invariant Restored(Now(), addr, rep, src) == old(Now())
          invariant forall x: nat :: In(x, src, i) ==> Readable(old(slots), x, env.lfs, env.bad)
          invariant ReadStop(old(slots), src, 0, len, env) == ReadStop(old(slots), src, i, len, env)
        {
          TakeOut(Now(), addr, rep, src, i);
          assert In(src + i, src, len);
          if src + i in env.bad {
            return addr, rep, Err(env.bad[src + i]), i;
          }
          addr := addr[i := slots[src + i]];
          if slots[src + i].Block? && !slots[src + i].checkpointed {
            if env.lfs {
              return addr, rep, Err(EOPNOTSUPP), i;
            }
            slots := slots[src + i := Hole];
            rep := rep[i := true];
          }
          i := i + 1;
        }
      }
      r, held := Ok, len;
    }

    /** __roll_back_blkaddrs.  `gone` are pages whose dnode cannot be found any more; their blocks are freed. */
    method RollBack(addr: seq<Slot<D>>, rep: seq<bool>, src: nat, gone: set<nat>)
      requires |addr| == |rep| && src + |addr| <= |slots|
      modifies this`slots
      ensures Now() == old(RolledBack(Now(), addr, rep, src, gone)) && |slots| == old(|slots|)
    {
      var i := 0;
      while i < |addr|
        invariant 0 <= i <= |addr| && |slots| == old(|slots|)
        invariant forall x :: 0 <= x < |slots| ==>
                    slots[x] == if src <= x < src + i && rep[x - src] && x !in gone
                                then addr[x - src] else old(slots)[x]
      {
        if rep[i] && src + i !in gone {
          slots := slots[src + i := addr[i]];
        }
        i := i + 1;
      }
    }

    /** i_size follows the pages that are put in place. */
    method GrowTo(pages: nat)
      modifies this`size
      ensures size == if old(size) < pages * PAGE_SIZE then pages * PAGE_SIZE else old(size)
    {
      if size < pages * PAGE_SIZE {
        size := pages * PAGE_SIZE;
      }
    }

    /** The inner loop of __clone_blkaddrs: a run of handed-over addresses and holes within one dnode. */
    method HandOverRun(addr: seq<Slot<D>>, rep0: seq<bool>, src: nat, dst: nat, i0: nat, full: bool,
                       ghost start: State<D>)
      returns (rep: seq<bool>, i: nat)
      requires Valid() && Cloning(start, Now(), addr, rep0, zero, src, dst, i0, full)
      requires i0 < |addr| == |rep0| && (rep0[i0] || addr[i0] == Hole)
      modifies this`slots, this`size
      ensures i0 < i <= |addr| == |rep| && |slots| == old(|slots|)
      ensures Cloning(start, Now(), addr, rep, zero, src, dst, i, full)
      ensures Grown(old(size), size, dst + i)
      ensures i == RunTo(addr, i0 + 1, RunLimit(left, dst, i0, |addr|))
    {
      hide Cloning, Running, ByCopy, RunTo, RunLimit;
      CloneParts(start, Now(), addr, rep0, zero, src, dst, i0, full);
      CloneKind(start, Now(), addr, rep0, zero, src, dst, i0, full);
      LimitIs(left, dst, i0, |addr|);
      ghost var was := Now();
      i, rep := i0, rep0;
      var len := |addr|;
      var ilen := if left(dst + i) < len - i then left(dst + i) else len - i;
      while true
        invariant i0 <= i < len && 0 < ilen <= len - i && |rep| == len && |slots| == old(|slots|)
        invariant rep[i] || addr[i] == Hole
        invariant i + ilen == RunLimit(left, dst, i0, len)
        invariant RunTo(addr, i0 + 1, i + ilen) == RunTo(addr, i + 1, i + ilen)
        invariant Grown(old(size), size, dst + i)
        invariant Running(start, Now(), addr, rep, zero, src, dst, i, full)
        decreases ilen
      {
        RunNext(start, Now(), addr, rep, zero, src, dst, i, full);
        ghost var before, repBefore := slots, rep;
        slots := slots[dst + i := Hole];
        if rep[i] {
          slots := slots[dst + i := addr[i]];
          rep := rep[i := false];
        }
        assert slots == before[dst + i := addr[i]] && rep == repBefore[i := false];
        i := i + 1;
        ilen := ilen - 1;
        GrowTo(dst + i);
        RunStep(addr, i, i + ilen);
        if ilen == 0 || !(rep[i] || addr[i] == Hole) {
          break;
        }
      }
      CloneRun(start, was, rep0, Now(), rep, addr, zero, src, dst, i0, i, full);
    }

    /** f2fs_get_lock_data_page: a page that is not cached is read in. */
    method ReadPage(x: nat) returns (data: D)
      requires x < |slots|
      modifies this`cache
      ensures data == if x in old(cache) then old(cache)[x].data else OnDisk(slots[x], zero)
      ensures cache == if x in old(cache) then old(cache) else old(cache)[x := Page(data, false)]
    {
      if x !in cache {
        cache := cache[x := Page(OnDisk(slots[x], zero), false)];
      }
      data := cache[x].data;
    }

    /** The other branch of __clone_blkaddrs: page `i` is copied and its source punched. */
    method CopyPage(addr: seq<Slot<D>>, rep: seq<bool>, src: nat, dst: nat, i: nat, full: bool, fail: map<nat, Failure>,
                    ghost start: State<D>) returns (r: Result)
      requires Valid() && Cloning(start, Now(), addr, rep, zero, src, dst, i, full)
      requires i < |addr| == |rep| && !rep[i] && addr[i] != Hole
      modifies this`slots, this`cache, this`size
      ensures |slots| == old(|slots|)
      ensures r.Err? <==> src + i in fail
      ensures r.Ok? ==> Cloning(start, Now(), addr, rep, zero, src, dst, i + 1, full)
      ensures r.Err? ==> Failed(start, Now(), addr, rep, zero, src, dst, i, fail)
      ensures Grown(old(size), size, dst + i + 1)
      ensures old(CacheIn(Now())) ==> CacheIn(Now())
    {
      hide Cloning, Failed, ByCopy;
      CopyReady(start, Now(), addr, rep, zero, src, dst, i, full);
      ghost var before := Now();
      if src + i in fail { CopyFails(start, before, addr, rep, zero, src, dst, i, full, fail); }
      if src + i in fail && fail[src + i].Reading? {
        return Err(fail[src + i].errno);
      }
      var data := ReadPage(src + i);
      if src + i in fail && fail[src + i].Writing? {
        assert Now() == FaultState(before, src + i, dst + i, data, fail[src + i]);
        return Err(fail[src + i].errno);
      }
      if slots[dst + i].Hole? {
        slots := slots[dst + i := Reserved];
      }
      cache := cache[dst + i := Page(data, true)];
      GrowTo(dst + i + 1);
      if src + i in fail {
        assert Now() == FaultState(before, src + i, dst + i, data, fail[src + i]);
        return Err(fail[src + i].errno);
      }
      slots := slots[src + i := Hole];
      assert Now() == AfterCopy(before, src + i, dst + i, data);
      r := Ok;
    }

    /** One turn of the loop of __clone_blkaddrs: a hole skipped, a run handed over, or a page copied. */
    method CloneNext(addr: seq<Slot<D>>, rep0: seq<bool>, src: nat, dst: nat, i0: nat, full: bool,
                     fail: map<nat, Failure>, ghost start: State<D>)
      returns (rep: seq<bool>, i: nat, r: Result)
      requires Valid() && Cloning(start, Now(), addr, rep0, zero, src, dst, i0, full) && i0 < |addr| == |rep0|
      modifies this`slots, this`cache, this`size
      ensures |rep| == |addr| && |slots| == old(|slots|) && i0 <= i <= |addr|
      ensures r.Ok? ==> i0 < i && Cloning(start, Now(), addr, rep, zero, src, dst, i, full)
      ensures r.Err? ==> i == i0 && src + i in fail && Failed(start, Now(), addr, rep, zero, src, dst, i, fail)
      ensures CloneStop(addr, src, dst, i0, full, fail, left) ==
              if r.Err? then i else CloneStop(addr, src, dst, i, full, fail, left)
      ensures Grown(old(size), size, dst + if r.Err? then i + 1 else i)
      ensures old(CacheIn(Now())) ==> CacheIn(Now())
    {
      hide Cloning, Failed, CloneStop, RunTo, RunLimit, ByCopy;
      CloneKind(start, Now(), addr, rep0, zero, src, dst, i0, full);
      CloneStep(addr, src, dst, i0, full, fail, left);
      rep, i, r := rep0, i0, Ok;
      if addr[i] == Hole && !full {
        CloneSkip(start, Now(), addr, rep, zero, src, dst, i);
        i := i + 1;
      } else if rep[i] || addr[i] == Hole {
        if src + i in fail {
          CloneRunFails(start, Now(), addr, rep, zero, src, dst, i, full, fail);
          r := Err(fail[src + i].errno);
        } else {
          rep, i := HandOverRun(addr, rep, src, dst, i, full, start);
        }
      } else {
        r := CopyPage(addr, rep, src, dst, i, full, fail, start);
        if r.Ok? {
          i := i + 1;
        }
      }
    }

    /**
      __clone_blkaddrs.  `fail` says of a source page where moving it fails,
      if it does.  `moved` counts the pages that were moved.
    */
    method Clone(addr: seq<Slot<D>>, rep0: seq<bool>, src: nat, dst: nat, full: bool, fail: map<nat, Failure>)
      returns (rep: seq<bool>, r: Result, ghost moved: nat)
      requires Valid() && TakenOut(Now(), addr, rep0, src)
      requires Ready(Restored(Now(), addr, rep0, src), src, dst, |addr|, full)
      modifies this`slots, this`cache, this`size
      ensures |rep| == |addr| && |slots| == old(|slots|)
      ensures r.Ok? ==> moved == |addr|
      ensures r.Ok? ==> Moved(old(Restored(Now(), addr, rep0, src)), Now(), zero, src, dst, |addr|)
      ensures r.Err? ==> Failed(old(Restored(Now(), addr, rep0, src)), Now(), addr, rep, zero, src, dst, moved, fail)
      ensures moved == CloneStop(addr, src, dst, 0, full, fail, left) && (r.Ok? <==> moved == |addr|)
      ensures r.Ok? ==> CacheAfter(old(Restored(Now(), addr, rep0, src)), Now(), zero, src, dst, |addr|)
      ensures fail == map[] ==> r.Ok?
      ensures Grown(old(size), size, dst + |addr|)
      ensures old(CacheIn(Now())) ==> CacheIn(Now())
    {
      assert |addr| == |rep0|;
      hide TakenOut, Restored, Cloning, Failed, Moved, Ready, CacheAfter, CloneStop, RunTo, RunLimit, ByCopy;
      ghost var start := Restored(Now(), addr, rep0, src);
      var len := |addr|;
      var i := 0;
      rep := rep0;
      CloneBegin(Now(), addr, rep, zero, src, dst, full);
      CloneLength(start, Now(), addr, rep, zero, src, dst, 0, full);
      while i < len
        invariant 0 <= i <= len && |rep| == len && |slots| == old(|slots|)
        invariant Cloning(start, Now(), addr, rep, zero, src, dst, i, full)
        invariant CloneStop(addr, src, dst, 0, full, fail, left) == CloneStop(addr, src, dst, i, full, fail, left)
        invariant Grown(old(size), size, dst + i)
        invariant old(CacheIn(Now())) ==> CacheIn(Now())
      {
        rep, i, r := CloneNext(addr, rep, src, dst, i, full, fail, start);
        if r.Err? {
          return rep, r, i;
        }
      }
      CloneEnd(start, Now(), addr, rep, zero, src, dst, full);
      r := Ok;
      moved := len;
    }

    /** One turn of __exchange_data_block: a chunk is moved, or what was taken out is rolled back. */
    method ExchangeChunk(src: nat, dst: nat, len: nat, full: bool, env: Env) returns (r: Result, ghost at: Halt)
      requires Valid() && len > 0 && Ready(Now(), src, dst, len, full)
      modifies this`slots, this`cache, this`size
      ensures |slots| == old(|slots|)
      ensures ChunkGone(old(Now()), Now(), zero, src, dst, len, full, env, left, r.Ok?, at)
      ensures Grown(old(size), size, dst + len)
      ensures old(CacheIn(Now())) ==> CacheIn(Now())
    {
      ghost var before := Now();
      ReadyFits(before, src, dst, len, full);
      hide Moved, Broken, Failed, Ready, Restored, RolledBack, TakenOut, Readable, AllReadable, Out, CacheAfter,
        ReadStop, CloneStop, ChunkGone;
      var addr, rep;
      ghost var held, moved;
      addr, rep, r, held := ReadOut(src, len, env);
      if r.Err? {
        ReadOutBreaks(before, Now(), addr, rep, src, dst, held, zero, full, env.gone, env.fail);
        RollBack(addr, rep, src, env.gone);
        ChunkReadFailed(before, Now(), zero, src, dst, len, full, env, left, held);
        return r, Halt(0, held, false);
      }
      TakenAddr(before, Now(), addr, rep, src);
      rep, r, moved := Clone(addr, rep, src, dst, full, env.fail);
      if r.Err? {
        CloneBreaks(before, Now(), addr, rep, src, dst, moved, zero, env.gone, env.fail);
        RollBack(addr, rep, src, env.gone);
      }
      ChunkCloned(before, Now(), zero, src, dst, len, full, env, left, addr, moved, r.Ok?);
      at := Halt(moved, len, moved < len);
    }

    /**
      __exchange_data_block, within one inode.  `at` is where it stops: on failure
      `at.moved` pages have moved, and the fresh blocks up to page `at.held` had been
      taken out; of those, the ones that roll-back cannot put back are lost.
    */
    method Exchange(src: nat, dst: nat, len: nat, full: bool, env: Env) returns (r: Result, ghost at: Halt)
      requires Valid() && Ready(Now(), src, dst, len, full)
      modifies this`slots, this`cache, this`size
      ensures |slots| == old(|slots|)
      ensures Exchanged(old(Now()), Now(), zero, src, dst, len, 4 * perBlock, full, env, left, r.Ok?, at)
      ensures Grown(old(size), size, dst + len)
      ensures old(CacheIn(Now())) ==> CacheIn(Now())
    {
      hide Ready, Exchanging, Exchanged, ChunkGone;
      var done: nat := 0;
      ghost var start := Now();
      ExchangeBegin(start, zero, src, dst, len, 4 * perBlock, full, env, left);
      while done < len
        invariant done <= len && |slots| == old(|slots|)
        invariant Exchanging(start, Now(), zero, src, dst, done, len, 4 * perBlock, full, env, left)
        invariant Grown(old(size), size, dst + done)
        invariant old(CacheIn(Now())) ==> CacheIn(Now())
      {
        var olen := if 4 * perBlock < len - done then 4 * perBlock else len - done;
        ghost var before := Now();
        if done in env.noMemory {
          at := Halt(done, done, false);
          ExchangeShort(start, before, zero, src, dst, done, len, 4 * perBlock, full, env, left);
          return Err(ENOMEM), at;
        }
        ExchangeReady(start, before, zero, src, dst, done, olen, len, 4 * perBlock, full, env, left);
        ghost var part;
        r, part := ExchangeChunk(src + done, dst + done, olen, full, env);
        at := Halt(done + part.moved, done + part.held, part.cloning);
        ExchangeNext(start, before, Now(), zero, src, dst, done, olen, len, 4 * perBlock, full, env, left, r.Ok?, part);
        if r.Err? {
          return;
        }
        done := done + olen;
      }
      at := Halt(len, len, false);
      ExchangeDone(start, Now(), zero, src, dst, len, 4 * perBlock, full, env, left);
      r := Ok;
    }

    /**
      f2fs_collapse_range.  `unwritten` are moved pages whose write-out fails,
      which the source does not look at.  The VFS has refused an empty range.
    */
    method Collapse(offset: nat, len: nat, env: Env, flushErr: int, unwritten: set<nat>, truncErr: int)
      returns (r: Result)
      requires Valid() && Mapped() && len > 0
      modifies this
      ensures Valid() && |slots| == old(|slots|)
      ensures r.Ok? ==>
                offset + len < old(size) && offset % PAGE_SIZE == 0 == len % PAGE_SIZE && size == old(size) - len
      ensures r.Ok? ==> Mapped() && forall x :: PagesOf(size) <= x < |slots| ==> slots[x] == Hole
      // The range is cut out, exactly if every copied page that was not written out reads the same without it.
      ensures r.Ok? ==>
                var was, start, end := old(Pages(Now(), zero, PagesOf(size))),
                                        offset / PAGE_SIZE, (offset + len) / PAGE_SIZE;
                && start <= end <= |was|
                && (Pages(Now(), zero, PagesOf(size)) == was[..start] + was[end..]
                    <==> CollapseKeeps(old(Now()), zero, start, end, old(PagesOf(size)), unwritten))
      ensures r.Err? ==> size == old(size)
      // An unfit range or a failing flush changes nothing.  Once pages move, whether this succeeds, and whether a
      // read then finds each page at its new or old place, is decided by the state before and the layers below.
      ensures !Fit(offset, len, old(size)) || flushErr != 0 ==> r.Err? && Now() == old(Now())
      ensures Fit(offset, len, old(size)) && flushErr == 0 ==>
                CollapseEnds(old(Now()), Now(), zero, offset / PAGE_SIZE, (offset + len) / PAGE_SIZE,
                             old(PagesOf(size)), 4 * perBlock, env, left, unwritten, truncErr, r.Ok?)
      // Apart from clean pages in the cache every page is where it was or where it was to go, if nothing is lost.
      ensures r.Err? ==>
                var start, end, n := offset / PAGE_SIZE, (offset + len) / PAGE_SIZE, PagesOf(size);
                CollapseKeeps(old(Now()), zero, start, end, n, unwritten)
                && Harmless(old(Now()), zero, env.gone, end, n) ==>
                  NoneLost(old(Now()), Now(), zero, end, n, start - end)
    {
      hide Moved, Broken, Ready, NoneLost, Held, Settled, Cut, PagesOf, CollapseKeeps, Harmless, Exchanged,
        CollapseEnds;
      NoChange(Now(), zero, (offset + len) / PAGE_SIZE, PagesOf(size), offset / PAGE_SIZE - (offset + len) / PAGE_SIZE);
      if offset + len >= size {
        return Err(EINVAL);
      }
      if offset % PAGE_SIZE != 0 || len % PAGE_SIZE != 0 {
        return Err(EINVAL);
      }
      if flushErr != 0 {
        return Err(flushErr);
      }
      ghost var s0 := Now();
      var start, end, n := offset / PAGE_SIZE, (offset + len) / PAGE_SIZE, PagesOf(size);
      PageNumbers(offset, len, size);
      SetState(Settled(Now(), start, {}));
      ghost var s1 := Now();
      Flushed(s0, zero, start, end, n);
      ghost var at;
      r, at := Exchange(end, start, n - end, true, env);
      ExchangedParts(s1, Now(), zero, end, start, n - end, 4 * perBlock, true, env, left, r.Ok?, at);
      NotGrown(old(size), size, start + (n - end), n);
      if r.Err? {
        CollapseBroke(s0, Now(), zero, start, end, n, 4 * perBlock, env, left, unwritten, truncErr, at);
        if Harmless(s0, zero, env.gone, end, n) {
          CollapseFailed(s0, s1, Now(), zero, start, end, n, at, env.gone, env.fail);
        }
        return;
      }
      ghost var s2 := Now();
      SetState(Settled(Now(), start, unwritten));
      if truncErr != 0 {
        if CollapseKeeps(s0, zero, start, end, n, unwritten) {
          CollapseUncut(s0, s2, zero, start, end, n, unwritten);
        }
        CollapseMoved(s0, s2, Now(), zero, start, end, n, 4 * perBlock, env, left, unwritten, truncErr, at);
        return Err(truncErr);
      }
      SetState(Cut(Now(), PagesOf(size - len)));
      size := size - len;
      CollapseMoved(s0, s2, Now(), zero, start, end, n, 4 * perBlock, env, left, unwritten, truncErr, at);
      CollapseDone(s0, s2, zero, start, end, n, unwritten);
    }

    /** f2fs_insert_range.  A failure may leave i_size grown by pages already moved. */
    method Insert(offset: nat, len: nat, env: Env, truncErr: int, flushErr: int, unwritten: set<nat>)
      returns (r: Result)
      requires Valid() && Mapped() && len > 0
      modifies this
      ensures Valid() && |slots| == old(|slots|)
      // It succeeds exactly if the range is fit, nothing fails before, and every move from the top down runs through.
      ensures r.Ok? <==>
                && offset < old(size) && offset % PAGE_SIZE == 0 && len % PAGE_SIZE == 0
                && PagesOf(old(size) + len) <= |slots| && truncErr == 0 && flushErr == 0
                && InsertRuns(old(Now()), offset / PAGE_SIZE, old(PagesOf(size)), len / PAGE_SIZE, 4 * perBlock, env,
                              left)
      ensures offset >= old(size) || offset % PAGE_SIZE != 0 || len % PAGE_SIZE != 0 || truncErr != 0
              || PagesOf(old(size) + len) > |slots| ==>
                Now() == old(Now()) && size == old(size)
      ensures r.Ok? ==> offset < old(size) && offset % PAGE_SIZE == 0 == len % PAGE_SIZE && size == old(size) + len
      ensures r.Ok? ==>
                var at := offset / PAGE_SIZE;
                Mapped() && forall x :: at <= x < at + len / PAGE_SIZE && x < |slots| ==> slots[x] == Hole
      // A hole is put in, exactly if every copied page that was not written out holds zeroes.
      ensures r.Ok? ==>
                var was, at, delta := old(Pages(Now(), zero, PagesOf(size))), offset / PAGE_SIZE, len / PAGE_SIZE;
                && at <= |was|
                && (Pages(Now(), zero, PagesOf(size)) == was[..at] + Zeroes(zero, delta) + was[at..]
                    <==> InsertKeeps(old(Now()), zero, at, old(PagesOf(size)), delta, unwritten))
      ensures r.Err? ==> Grown(old(size), size, old(PagesOf(size)) + len / PAGE_SIZE)
      // Otherwise every page is where it was or where it was to go, if nothing is lost on the way.
      ensures r.Err? ==>
                var at, n, delta := offset / PAGE_SIZE, old(PagesOf(size)), len / PAGE_SIZE;
                InsertKeeps(old(Now()), zero, at, n, delta, unwritten)
                && Harmless(old(Now()), zero, env.gone, at, n) ==>
                  NoneLost(old(Now()), Now(), zero, at, n, delta)
    {
      hide Moved, Broken, Ready, NoneLost, Held, Settled, Cut, PagesOf, InsertKeeps, Harmless, Prepared, Exchanged,
        MovesUp;
      NoChange(Now(), zero, offset / PAGE_SIZE, PagesOf(size), len / PAGE_SIZE);
      var newSize := size + len;
      if PagesOf(newSize) > |slots| {
        return Err(EFBIG);
      }
      if offset >= size {
        return Err(EINVAL);
      }
      if offset % PAGE_SIZE != 0 || len % PAGE_SIZE != 0 {
        return Err(EINVAL);
      }
      if truncErr != 0 {
        return Err(truncErr);
      }
      var start, delta, n := offset / PAGE_SIZE, (offset + len) / PAGE_SIZE - offset / PAGE_SIZE, PagesOf(size);
      InsertNumbers(offset, len, size);
      ghost var s0 := Now();
      SetState(Cut(Now(), n));
      CutSame(s0, zero, start, n, delta);
      if flushErr != 0 {
        return Err(flushErr);
      }
      SetState(Settled(Now(), start, {}));
      ghost var s1 := Now();
      InsertStart(s0, zero, start, n, delta);
      var idx := n;
      r := Ok;
      ghost var kept := InsertKeeps(s0, zero, start, n, delta, unwritten) && Harmless(s0, zero, env.gone, start, n);
      while r.Ok? && idx > start
        invariant start <= idx <= n && |slots| == old(|slots|) && CacheIn(Now()) && Grown(old(size), size, n + delta)
        invariant r.Ok? ==> Moved(s1, Now(), zero, idx, idx + delta, n - idx)
        invariant r.Err? && kept ==> NoneLost(s0, Settled(Now(), start, unwritten), zero, start, n, delta)
        invariant MovesUp(s1.slots, start, n, delta, 4 * perBlock, env, left) <==>
                    r.Ok? && MovesUp(s1.slots, start, idx, delta, 4 * perBlock, env, left)
        decreases r.Ok?, idx
      {
        var nr := if idx - start > delta then delta else idx - start;
        ghost var before := Now();
        ghost var at;
        InsertReady(s0, s1, before, zero, start, idx, nr, delta, n);
        r, at := Exchange(idx - nr, idx - nr + delta, nr, false, env);
        InsertStep(s0, s1, before, Now(), zero, start, idx, nr, delta, n, 4 * perBlock, env, left, r.Ok?, at,
                   unwritten);
        InsertStops(s1, before, Now(), zero, start, idx, nr, delta, n, 4 * perBlock, env, left, r.Ok?, at);
        idx := idx - nr;
      }
      ghost var s2 := Now();
      MovesUpNone(s1.slots, start, delta, 4 * perBlock, env, left);
      SetState(Settled(Now(), start, unwritten));
      if r.Ok? {
        InsertDone(s0, s1, s2, zero, start, n, delta, unwritten);
        size := newSize;
      }
    }

    method SetState(s: State<D>)
      modifies this`slots, this`cache
      ensures Now() == s
    {
      slots, cache := s.slots, s.cache;
    }
  }

  lemma ReadyFits<D>(s: State<D>, src: nat, dst: nat, len: nat, full: bool)
    requires Ready(s, src, dst, len, full)
    ensures Apart(src, dst, len) && src + len <= |s.slots| && dst + len <= |s.slots|
  {
  }

  lemma ExchangeStep<D>(slots: seq<Slot<D>>, src: nat, dst: nat, done: nat, len: nat, chunk: nat, full: bool, env: Env,
                        left: nat -> nat)
    requires done < len && src + len <= |slots| && chunk > 0 && forall x :: left(x) > 0
    ensures var olen := if chunk < len - done then chunk else len - done;
            var h := ChunkStop(slots, src + done, dst + done, olen, full, env, left);
            ExchangeStop(slots, src, dst, done, len, chunk, full, env, left) ==
              if done in env.noMemory then Halt(done, done, false)
              else if h.moved < olen then Halt(done + h.moved, done + h.held, h.cloning)
              else ExchangeStop(slots, src, dst, done + olen, len, chunk, full, env, left)
  {
  }

  lemma ExchangeEnd<D>(slots: seq<Slot<D>>, src: nat, dst: nat, len: nat, chunk: nat, full: bool, env: Env,
                       left: nat -> nat)
    requires src + len <= |slots| && chunk > 0 && forall x :: left(x) > 0
    ensures ExchangeStop(slots, src, dst, len, len, chunk, full, env, left) == Halt(len, len, false)
  {
  }

  /** The next chunk can be moved, and its source is as it was. */
  lemma ChunkReady<D>(a: State<D>, b: State<D>, zero: D, src: nat, dst: nat, done: nat, len: nat, total: nat,
                      full: bool)
    requires Progress(a, b, zero, src, dst, done, total, full) && done + len <= total
    ensures Ready(b, src + done, dst + done, len, full) && src + total <= |a.slots| == |b.slots|
    ensures forall x :: src + done <= x < src + done + len ==> a.slots[x] == b.slots[x]
  {
    ReadySome(b, src + done, dst + done, len, total - done, full);
    hide Ready, Held, Lands;
    ProgressFits(a, b, zero, src, dst, done, total, full);
    forall x | src + done <= x < src + done + len
      ensures a.slots[x] == b.slots[x]
    {
      MovedSource(a, b, zero, src, dst, done, len, x);
    }
  }

  lemma ChunkCache<D>(start: State<D>, a: State<D>, b: State<D>, zero: D, src: nat, dst: nat, done: nat, len: nat,
                      total: nat, full: bool)
    requires Progress(start, a, zero, src, dst, done, total, full) && done + len <= total
    requires CacheAfter(start, a, zero, src, dst, done) && CacheAfter(a, b, zero, src + done, dst + done, len)
    ensures CacheAfter(start, b, zero, src, dst, done + len)
  {
    hide Ready, Moved, CacheAfter;
    ProgressFits(start, a, zero, src, dst, done, total, full);
    CacheThen(start, a, b, zero, src, dst, done, len);
  }

  /** The state of a move between two chunks: `done` pages have moved. */
  ghost predicate Exchanging<D>(a: State<D>, b: State<D>, zero: D, src: nat, dst: nat, done: nat, len: nat, chunk: nat,
                                full: bool, env: Env, left: nat -> nat) {
    && Progress(a, b, zero, src, dst, done, len, full) && CacheAfter(a, b, zero, src, dst, done)
    && AllReadable(a.slots, src, done, env)
    && src + len <= |a.slots| == |b.slots| && chunk > 0 && (forall x :: left(x) > 0)
    && ExchangeStop(a.slots, src, dst, 0, len, chunk, full, env, left) ==
         ExchangeStop(a.slots, src, dst, done, len, chunk, full, env, left)
  }

  lemma ExchangeBegin<D>(a: State<D>, zero: D, src: nat, dst: nat, len: nat, chunk: nat, full: bool, env: Env,
                         left: nat -> nat)
    requires Ready(a, src, dst, len, full) && chunk > 0 && forall x :: left(x) > 0
    ensures Exchanging(a, a, zero, src, dst, 0, len, chunk, full, env, left)
  {
    Begin(a, zero, src, dst, len, full);
    CacheStart(a, a, zero, src, dst);
    NoneToRead(a.slots, src, env);
    ReadyFits(a, src, dst, len, full);
  }

  lemma ExchangeReady<D>(a: State<D>, b: State<D>, zero: D, src: nat, dst: nat, done: nat, olen: nat, len: nat,
                         chunk: nat, full: bool, env: Env, left: nat -> nat)
    requires Exchanging(a, b, zero, src, dst, done, len, chunk, full, env, left) && done + olen <= len
    ensures Ready(b, src + done, dst + done, olen, full)
  {
    ChunkReady(a, b, zero, src, dst, done, olen, len, full);
  }

  lemma ExchangeShort<D>(a: State<D>, b: State<D>, zero: D, src: nat, dst: nat, done: nat, len: nat, chunk: nat,
                         full: bool, env: Env, left: nat -> nat)
    requires Exchanging(a, b, zero, src, dst, done, len, chunk, full, env, left) && done < len && done in env.noMemory
    ensures Exchanged(a, b, zero, src, dst, len, chunk, full, env, left, false, Halt(done, done, false))
  {
    hide Progress, CacheAfter, Broken, AllReadable, ChunkStop;
    ExchangeStep(a.slots, src, dst, done, len, chunk, full, env, left);
    MemoryBreaks(a, b, zero, src, dst, done, len, full, env.gone, env.fail);
    assert env.noMemory != {};
  }

  lemma ExchangeNext<D>(a: State<D>, b: State<D>, c: State<D>, zero: D, src: nat, dst: nat, done: nat, olen: nat,
                        len: nat, chunk: nat, full: bool, env: Env, left: nat -> nat, ok: bool, part: Halt)
    requires Exchanging(a, b, zero, src, dst, done, len, chunk, full, env, left) && done < len && done !in env.noMemory
    requires olen == if chunk < len - done then chunk else len - done
    requires ChunkGone(b, c, zero, src + done, dst + done, olen, full, env, left, ok, part)
    ensures ok ==> Exchanging(a, c, zero, src, dst, done + olen, len, chunk, full, env, left)
    ensures !ok ==> Exchanged(a, c, zero, src, dst, len, chunk, full, env, left, false,
                              Halt(done + part.moved, done + part.held, part.cloning))
  {
    hide Progress, CacheAfter, Broken, AllReadable, ChunkStop, Moved, Ready;
    ExchangeStep(a.slots, src, dst, done, len, chunk, full, env, left);
    ChunkReady(a, b, zero, src, dst, done, olen, len, full);
    ChunkStopSame(a.slots, b.slots, src + done, dst + done, olen, full, env, left);
    ReadableThen(a, b, zero, src, dst, done, olen, len, full, env);
    if ok {
      Chunk(a, b, c, zero, src, dst, done, olen, len, full);
      ChunkCache(a, b, c, zero, src, dst, done, olen, len, full);
    } else {
      ChunkBreaks(a, b, c, zero, src, dst, done, olen, len, full, part, env.gone, env.fail);
    }
  }

  lemma ExchangeDone<D>(a: State<D>, b: State<D>, zero: D, src: nat, dst: nat, len: nat, chunk: nat, full: bool,
                        env: Env, left: nat -> nat)
    requires Exchanging(a, b, zero, src, dst, len, len, chunk, full, env, left)
    ensures Exchanged(a, b, zero, src, dst, len, chunk, full, env, left, true, Halt(len, len, false))
  {
    hide CacheAfter, Broken, AllReadable, ChunkStop, Moved;
    ProgressFits(a, b, zero, src, dst, len, len, full);
    ExchangeEnd(a.slots, src, dst, len, chunk, full, env, left);
  }

  /** A range that f2fs_collapse_range accepts. */
  predicate Fit(offset: nat, len: nat, size: nat) {
    offset + len < size && offset % PAGE_SIZE == 0 && len % PAGE_SIZE == 0
  }

  lemma NotGrown(was: nat, now: nat, pages: nat, n: nat)
    requires Grown(was, now, pages) && n == PagesOf(was) && pages < n
    ensures now == was
  {
  }

  lemma NoChange<D>(s: State<D>, zero: D, start: nat, n: nat, shift: int)
    ensures NoneLost(s, s, zero, start, n, shift)
  {
  }

  lemma PageNumbers(offset: nat, len: nat, size: nat)
    requires offset % PAGE_SIZE == 0 && len % PAGE_SIZE == 0 && 0 < len && offset + len < size
    ensures offset / PAGE_SIZE < (offset + len) / PAGE_SIZE < PagesOf(size)
    ensures PagesOf(size - len) == PagesOf(size) - ((offset + len) / PAGE_SIZE - offset / PAGE_SIZE)
  {
  }

  /** After the first flush every page holds what it held, and nothing from `start` on is cached. */
  lemma Flushed<D>(s0: State<D>, zero: D, start: nat, end: nat, n: nat)
    requires start < end <= n <= |s0.slots| && forall x :: x in s0.cache ==> x < n
    ensures var s1 := Settled(s0, start, {});
            && Ready(s1, end, start, n - end, true)
            && (forall x: nat :: Held(s1, zero, x) == Held(s0, zero, x))
            && (forall x :: x in s1.cache ==> x < start)
  {
    var s1 := Settled(s0, start, {});
    forall x: nat
      ensures Held(s1, zero, x) == Held(s0, zero, x)
      ensures x >= start ==> x !in s1.cache
    {
      WrittenBack(s0, zero, start, {}, x);
    }
  }

  lemma LostReads<D>(s0: State<D>, s1: State<D>, zero: D, gone: set<nat>, from: nat, upto: nat, lo: nat, hi: nat,
                     start: nat)
    requires Harmless(s0, zero, gone, lo, hi) && start <= lo <= from && upto <= hi <= |s1.slots| == |s0.slots|
    requires forall x: nat :: lo <= x < hi ==>
               (Fresh(s1.slots[x]) <==> FreshPage(s0, x)) && Held(s1, zero, x) == Held(s0, zero, x)
    ensures forall x :: x in LostSet(s1, gone, from, upto) ==> Held(s1, zero, x) == zero
  {
  }

  lemma FlushedFresh<D>(s0: State<D>, zero: D, start: nat, n: nat)
    requires start <= n <= |s0.slots|
    ensures forall x: nat :: start <= x < n ==>
              (Fresh(Settled(s0, start, {}).slots[x]) <==> FreshPage(s0, x))
  {
    hide Settled, Fresh;
    forall x: nat | start <= x < n
      ensures Fresh(Settled(s0, start, {}).slots[x]) <==> FreshPage(s0, x)
    {
      FlushedSlot(s0, zero, start, x);
    }
  }

  lemma BrokenStopped<D>(a: State<D>, b: State<D>, zero: D, src: nat, dst: nat, len: nat, at: Halt, gone: set<nat>,
                         fail: map<nat, Failure>)
    requires Broken(a, b, zero, src, dst, len, at, gone, fail)
    ensures at.held <= len
    ensures Stopped(a, b, zero, src, dst, at.moved, len, LostSet(a, gone, src + at.moved, src + at.held))
  {
  }

  lemma CollapseFailed<D>(s0: State<D>, s1: State<D>, s2: State<D>, zero: D, start: nat, end: nat, n: nat, at: Halt,
                          gone: set<nat>, fail: map<nat, Failure>)
    requires start < end <= n <= |s0.slots| && s1 == Settled(s0, start, {})
    requires forall x: nat :: Held(s1, zero, x) == Held(s0, zero, x)
    requires Broken(s1, s2, zero, end, start, n - end, at, gone, fail)
    requires Harmless(s0, zero, gone, end, n)
    ensures NoneLost(s0, s2, zero, end, n, start - end)
  {
    BrokenStopped(s1, s2, zero, end, start, n - end, at, gone, fail);
    var moved, held := at.moved, at.held;
    hide Held, Settled, Lands, Dirty, Broken, Harmless, FreshPage;
    FlushedFresh(s0, zero, start, n);
    LostReads(s0, s1, zero, gone, end + moved, end + held, end, n, start);
    hide LostSet;
    forall x: nat | end <= x < n
      ensures Held(s2, zero, x) == Held(s0, zero, x) ||
              (x + (start - end) >= 0 && Held(s2, zero, x + (start - end)) == Held(s0, zero, x))
    {
      if x < end + moved {
        assert In(x + (start - end), start, moved);
      } else {
        assert In(x, end + moved, n - end - moved);
      }
    }
    forall x: nat | x < start
      ensures Held(s2, zero, x) == Held(s0, zero, x)
    {
      assert !In(x, end, n - end) && !In(x, start, moved + 1) && Kept(s1, s2, zero, x);
    }
  }

  /** Where page `x` is once the first `m` have moved. */
  function PlaceOf(start: nat, end: nat, m: nat, x: nat): nat
    requires start <= end <= x
  {
    if x < end + m then x - (end - start) else x
  }

  /** Each page that was to move is read at its new place if it is one of the first `m`, otherwise at its old one. */
  ghost predicate InPlace<D>(s0: State<D>, t: State<D>, zero: D, start: nat, end: nat, n: nat, m: nat)
    requires start <= end
  {
    forall x: nat :: end <= x < n ==>
      Reads(t, zero, PlaceOf(start, end, m, x)) == Held(s0, zero, x)
  }

  /**
    No page is handed over, and no hole carried, to where a page has been copied
    away: the copied page is left in the cache, clean, and hides what has come.
    Unless both hold the same.
  */
  ghost predicate Unmasked<D>(s0: State<D>, zero: D, start: nat, end: nat, m: nat)
    requires start <= end
  {
    forall x: nat :: end + (end - start) <= x < end + m && !CopiedPage(s0, x) && CopiedPage(s0, x - (end - start)) ==>
      Held(s0, zero, x - (end - start)) == Held(s0, zero, x)
  }

  /** What a read returns after a move downwards that broke, nothing having been cached from the target on. */
  lemma BrokenReads<D>(a: State<D>, b: State<D>, zero: D, src: nat, dst: nat, len: nat, at: Halt, gone: set<nat>,
                       fail: map<nat, Failure>, x: nat)
    requires Broken(a, b, zero, src, dst, len, at, gone, fail) && dst < src && src <= x < src + len
    requires forall y :: y in a.cache ==> y < dst
    ensures var y := x - (src - dst);
            var masked := !ByCopy(a.slots[x]) && src <= y && ByCopy(a.slots[y]);
            x < src + at.moved ==> Reads(b, zero, y) == OnDisk(a.slots[if masked then y else x], zero)
    ensures var lost := LostSet(a, gone, src + at.moved, src + at.held);
            x >= src + at.moved ==> Reads(b, zero, x) == if x in lost then zero else OnDisk(a.slots[x], zero)
  {
    hide Stopped, OnDisk, ByCopy;
    var m := at.moved;
    var lost := LostSet(a, gone, src + m, src + at.held);
    if x < src + m {
      var y := x - (src - dst);
      assert Cached(b, y) == StopCache(a, zero, src, dst, m, FaultAt(a.slots, src, at, fail), y);
      assert OnDisk(b.slots[y], zero) == StopDisk(a, zero, src, dst, m, lost, y);
    } else {
      assert Cached(b, x) == StopCache(a, zero, src, dst, m, FaultAt(a.slots, src, at, fail), x);
      assert OnDisk(b.slots[x], zero) == StopDisk(a, zero, src, dst, m, lost, x);
      LostCopied(a, gone, src, m, at, fail);
    }
  }

  /** A page that fails to be copied is not one that roll-back loses. */
  lemma LostCopied<D>(a: State<D>, gone: set<nat>, src: nat, m: nat, at: Halt, fail: map<nat, Failure>)
    requires m == at.moved
    ensures FaultAt(a.slots, src, at, fail).Some? ==> src + m !in LostSet(a, gone, src + m, src + at.held)
  {
  }

  lemma CollapseReadIs<D>(s0: State<D>, t: State<D>, zero: D, start: nat, end: nat, n: nat, at: Halt, gone: set<nat>,
                          fail: map<nat, Failure>, x: nat)
    requires start < end <= x < n <= |s0.slots| && forall x :: x in s0.cache ==> x < n
    requires Broken(Settled(s0, start, {}), t, zero, end, start, n - end, at, gone, fail)
    ensures Reads(t, zero, PlaceOf(start, end, at.moved, x)) ==
            CollapseRead(s0, zero, start, end, at.moved, at.held, gone, x)
  {
    hide Broken, Settled, Held, Reads, ByCopy, Fresh, FreshPage, CopiedPage, OnDisk;
    Flushed(s0, zero, start, end, n);
    BrokenReads(Settled(s0, start, {}), t, zero, end, start, n - end, at, gone, fail, x);
    FlushedSlot(s0, zero, start, x);
    if x - (end - start) >= end { FlushedSlot(s0, zero, start, x - (end - start)); }
  }

  /** After a collapse that broke, everything is in place if and only if nothing is masked and nothing is lost. */
  lemma CollapseInPlace<D>(s0: State<D>, t: State<D>, zero: D, start: nat, end: nat, n: nat, at: Halt, gone: set<nat>,
                           fail: map<nat, Failure>)
    requires start < end <= n <= |s0.slots| && forall x :: x in s0.cache ==> x < n
    requires Broken(Settled(s0, start, {}), t, zero, end, start, n - end, at, gone, fail)
    ensures InPlace(s0, t, zero, start, end, n, at.moved) <==>
              && Unmasked(s0, zero, start, end, at.moved)
              && Harmless(s0, zero, gone, end + at.moved, end + at.held)
  {
    var s1, m := Settled(s0, start, {}), at.moved;
    Flushed(s0, zero, start, end, n);
    BrokenStopped(s1, t, zero, end, start, n - end, at, gone, fail);
    forall x: nat | end <= x < n
      ensures Reads(t, zero, PlaceOf(start, end, m, x)) == CollapseRead(s0, zero, start, end, m, at.held, gone, x)
    {
      CollapseReadIs(s0, t, zero, start, end, n, at, gone, fail, x);
    }
    hide Broken, Settled, Held, Reads, CopiedPage, FreshPage;
    InPlaceIff(s0, t, zero, start, end, n, m, at.held, gone);
  }

  /** What the place that page `x` should be at reads as. */
  function CollapseRead<D>(s0: State<D>, zero: D, start: nat, end: nat, m: nat, held: nat, gone: set<nat>, x: nat): D
    requires start <= end <= x
  {
    var y := x - (end - start);
    if x < end + m then
      if !CopiedPage(s0, x) && end <= y && CopiedPage(s0, y) then Held(s0, zero, y) else Held(s0, zero, x)
    else if x in gone && x < end + held && FreshPage(s0, x) then zero
    else Held(s0, zero, x)
  }

  lemma InPlaceIff<D>(s0: State<D>, t: State<D>, zero: D, start: nat, end: nat, n: nat, m: nat, held: nat,
                      gone: set<nat>)
    requires start <= end <= n && m <= held <= n - end
    requires forall x: nat :: end <= x < n ==>
               Reads(t, zero, PlaceOf(start, end, m, x)) ==
               CollapseRead(s0, zero, start, end, m, held, gone, x)
    ensures InPlace(s0, t, zero, start, end, n, m) <==>
              Unmasked(s0, zero, start, end, m) && Harmless(s0, zero, gone, end + m, end + held)
  {
    hide Held, Reads, CopiedPage, FreshPage;
    if InPlace(s0, t, zero, start, end, n, m) {
      forall x: nat | end <= x < n
        ensures CollapseRead(s0, zero, start, end, m, held, gone, x) == Held(s0, zero, x)
      {
      }
    }
    if Unmasked(s0, zero, start, end, m) && Harmless(s0, zero, gone, end + m, end + held) {
      forall x: nat | end <= x < n
        ensures CollapseRead(s0, zero, start, end, m, held, gone, x) == Held(s0, zero, x)
      {
      }
    }
  }

  /** After a collapse that moved all pages they are in place if and only if no unwritten page is missed. */
  lemma CollapseAllMoved<D>(s0: State<D>, s2: State<D>, t: State<D>, zero: D, start: nat, end: nat, n: nat,
                            unwritten: set<nat>)
    requires start < end <= n <= |s0.slots| && forall x :: x in s0.cache ==> x < n
    requires Moved(Settled(s0, start, {}), s2, zero, end, start, n - end)
    requires t == Settled(s2, start, unwritten) || t == Cut(Settled(s2, start, unwritten), n - (end - start))
    ensures InPlace(s0, t, zero, start, end, n, n - end) <==> CollapseKeeps(s0, zero, start, end, n, unwritten)
  {
    forall y: nat | start <= y < n - (end - start)
      ensures Reads(t, zero, y) == CollapsedAt(s0, zero, start, end, unwritten, y)
    {
      CollapsedReads(s0, s2, t, zero, start, end, n, unwritten, y);
    }
    hide Settled, Cut, Moved, Held, Reads, CopiedPage;
    AllMovedIff(s0, t, zero, start, end, n, unwritten);
  }

  lemma CollapsedReads<D>(s0: State<D>, s2: State<D>, t: State<D>, zero: D, start: nat, end: nat, n: nat,
                          unwritten: set<nat>, y: nat)
    requires start < end <= n <= |s0.slots| && forall x :: x in s0.cache ==> x < n
    requires Moved(Settled(s0, start, {}), s2, zero, end, start, n - end) && start <= y < n - (end - start)
    requires t == Settled(s2, start, unwritten) || t == Cut(Settled(s2, start, unwritten), n - (end - start))
    ensures Reads(t, zero, y) == CollapsedAt(s0, zero, start, end, unwritten, y)
  {
    CollapsePage(s0, s2, zero, start, end, n, unwritten, y);
    hide Moved, CollapsedAt, WriteBack;
    CutHeld(Settled(s2, start, unwritten), zero, n - (end - start), y);
    assert y !in t.cache;
  }

  lemma AllMovedIff<D>(s0: State<D>, t: State<D>, zero: D, start: nat, end: nat, n: nat, unwritten: set<nat>)
    requires start < end <= n
    requires forall y: nat :: start <= y < n - (end - start) ==>
               Reads(t, zero, y) == CollapsedAt(s0, zero, start, end, unwritten, y)
    ensures InPlace(s0, t, zero, start, end, n, n - end) <==> CollapseKeeps(s0, zero, start, end, n, unwritten)
  {
    hide Held, Reads, CopiedPage;
    if InPlace(s0, t, zero, start, end, n, n - end) {
      forall y | y in unwritten && start <= y < n - (end - start) && CopiedPage(s0, y + (end - start))
        ensures Held(s0, zero, y + (end - start)) == if y < end then Held(s0, zero, y) else zero
      {
        var x: nat := y + (end - start);
        assert Reads(t, zero, PlaceOf(start, end, n - end, x)) == Held(s0, zero, x);
      }
    }
    if CollapseKeeps(s0, zero, start, end, n, unwritten) {
      forall x: nat | end <= x < n
        ensures Reads(t, zero, PlaceOf(start, end, n - end, x)) == Held(s0, zero, x)
      {
        var y: nat := x - (end - start);
        assert Reads(t, zero, y) == CollapsedAt(s0, zero, start, end, unwritten, y);
      }
    }
  }

  /**
    How a collapse ends that has begun to move pages.  It succeeds exactly if all
    have moved and the tail is cut.  Where it stops is decided by the state before
    and the layers below, and so is whether everything is in place then.
  */
  ghost predicate CollapseEnds<D>(s0: State<D>, t: State<D>, zero: D, start: nat, end: nat, n: nat, chunk: nat,
                                  env: Env, left: nat -> nat, unwritten: set<nat>, truncErr: int, ok: bool) {
    && start < end <= n <= |s0.slots| && chunk > 0 && (forall x :: left(x) > 0)
    && var at := ExchangeStop(Settled(s0, start, {}).slots, end, start, 0, n - end, chunk, true, env, left);
    && (ok <==> at.moved == n - end && truncErr == 0)
    && (InPlace(s0, t, zero, start, end, n, at.moved) <==>
          if at.moved == n - end then CollapseKeeps(s0, zero, start, end, n, unwritten)
          else
            && Unmasked(s0, zero, start, end, at.moved)
            && Harmless(s0, zero, env.gone, end + at.moved, end + at.held))
  }

  lemma CollapseBroke<D>(s0: State<D>, t: State<D>, zero: D, start: nat, end: nat, n: nat, chunk: nat, env: Env,
                         left: nat -> nat, unwritten: set<nat>, truncErr: int, at: Halt)
    requires start < end <= n <= |s0.slots| && forall x :: x in s0.cache ==> x < n
    requires Exchanged(Settled(s0, start, {}), t, zero, end, start, n - end, chunk, true, env, left, false, at)
    ensures CollapseEnds(s0, t, zero, start, end, n, chunk, env, left, unwritten, truncErr, false)
  {
    hide Settled, Broken, InPlace, Unmasked, Harmless, CollapseKeeps, ExchangeStop;
    CollapseInPlace(s0, t, zero, start, end, n, at, env.gone, env.fail);
  }

  lemma CollapseMoved<D>(s0: State<D>, s2: State<D>, t: State<D>, zero: D, start: nat, end: nat, n: nat, chunk: nat,
                         env: Env, left: nat -> nat, unwritten: set<nat>, truncErr: int, at: Halt)
    requires start < end <= n <= |s0.slots| && forall x :: x in s0.cache ==> x < n
    requires Exchanged(Settled(s0, start, {}), s2, zero, end, start, n - end, chunk, true, env, left, true, at)
    requires var u := Settled(s2, start, unwritten); t == if truncErr != 0 then u else Cut(u, n - (end - start))
    ensures CollapseEnds(s0, t, zero, start, end, n, chunk, env, left, unwritten, truncErr, truncErr == 0)
  {
    hide Settled, Cut, Broken, InPlace, Unmasked, Harmless, CollapseKeeps, ExchangeStop, Moved;
    CollapseAllMoved(s0, s2, t, zero, start, end, n, unwritten);
  }

  lemma ExchangedParts<D>(a: State<D>, b: State<D>, zero: D, src: nat, dst: nat, len: nat, chunk: nat, full: bool,
                          env: Env, left: nat -> nat, ok: bool, at: Halt)
    requires Exchanged(a, b, zero, src, dst, len, chunk, full, env, left, ok, at)
    ensures ok ==> Moved(a, b, zero, src, dst, len)
    ensures !ok ==> Broken(a, b, zero, src, dst, len, at, env.gone, env.fail)
  {
  }

  /** What page `x` holds after a collapse: a copied page that was not written out reads as what lay there before. */
  function CollapsedAt<D>(s0: State<D>, zero: D, start: nat, end: nat, unwritten: set<nat>, x: nat): D
    requires start <= end
  {
    if x < start then Held(s0, zero, x)
    else if x in unwritten && CopiedPage(s0, x + (end - start)) then if x < end then Held(s0, zero, x) else zero
    else Held(s0, zero, x + (end - start))
  }

  /** No page is read wrongly for want of being written out. */
  ghost predicate CollapseKeeps<D>(s0: State<D>, zero: D, start: nat, end: nat, n: nat, unwritten: set<nat>) {
    start <= end ==>
      forall x :: x in unwritten && start <= x < n - (end - start) && CopiedPage(s0, x + (end - start)) ==>
        Held(s0, zero, x + (end - start)) == if x < end then Held(s0, zero, x) else zero
  }

  lemma CollapseDone<D>(s0: State<D>, s2: State<D>, zero: D, start: nat, end: nat, n: nat, unwritten: set<nat>)
    requires start < end <= n <= |s0.slots| && forall x :: x in s0.cache ==> x < n
    requires Moved(Settled(s0, start, {}), s2, zero, end, start, n - end)
    ensures var s3 := Cut(Settled(s2, start, unwritten), n - (end - start));
            && (Pages(s3, zero, n - (end - start)) == Pages(s0, zero, n)[..start] + Pages(s0, zero, n)[end..]
                <==> CollapseKeeps(s0, zero, start, end, n, unwritten))
            && (forall x :: x in s3.cache ==> x < start)
            && (forall x :: n - (end - start) <= x < |s3.slots| ==> s3.slots[x] == Hole)
  {
    var s3 := Cut(Settled(s2, start, unwritten), n - (end - start));
    forall x: nat | x < n - (end - start)
      ensures Held(s3, zero, x) == CollapsedAt(s0, zero, start, end, unwritten, x)
    {
      CollapsePage(s0, s2, zero, start, end, n, unwritten, x);
      CutHeld(Settled(s2, start, unwritten), zero, n - (end - start), x);
    }
    hide Held, Moved;
    CollapsedPages(s0, s3, zero, start, end, n, unwritten);
  }

  lemma CollapsedPages<D>(s0: State<D>, s3: State<D>, zero: D, start: nat, end: nat, n: nat, unwritten: set<nat>)
    requires start < end <= n
    requires forall x: nat :: x < n - (end - start) ==>
              Held(s3, zero, x) == CollapsedAt(s0, zero, start, end, unwritten, x)
    ensures Pages(s3, zero, n - (end - start)) == Pages(s0, zero, n)[..start] + Pages(s0, zero, n)[end..]
            <==> CollapseKeeps(s0, zero, start, end, n, unwritten)
  {
    hide Held, CopiedPage;
    var got, want := Pages(s3, zero, n - (end - start)), Pages(s0, zero, n)[..start] + Pages(s0, zero, n)[end..];
    assert |got| == |want|;
    forall x: nat | x < |want|
      ensures got[x] == CollapsedAt(s0, zero, start, end, unwritten, x)
      ensures want[x] == Held(s0, zero, if x < start then x else x + (end - start))
    {
    }
    if got == want {
      forall x | x in unwritten && start <= x < n - (end - start) && CopiedPage(s0, x + (end - start))
        ensures Held(s0, zero, x + (end - start)) == if x < end then Held(s0, zero, x) else zero
      {
        assert got[x] == want[x];
      }
    }
    if CollapseKeeps(s0, zero, start, end, n, unwritten) {
      assert forall x :: 0 <= x < |want| ==> got[x] == want[x];
    }
  }

  lemma CollapsePage<D>(s0: State<D>, s2: State<D>, zero: D, start: nat, end: nat, n: nat, unwritten: set<nat>, x: nat)
    requires start < end <= n <= |s0.slots| && forall x :: x in s0.cache ==> x < n
    requires Moved(Settled(s0, start, {}), s2, zero, end, start, n - end) && x < n - (end - start)
    ensures Held(Settled(s2, start, unwritten), zero, x) == CollapsedAt(s0, zero, start, end, unwritten, x)
  {
    hide Held, Settled;
    var s1, y := Settled(s0, start, {}), x + (end - start);
    Flushed(s0, zero, start, end, n);
    if x < start {
      MovedOutside(s1, s2, zero, end, start, n - end, x);
      SettledBelow(s2, zero, start, unwritten, x);
    } else {
      assert In(x, start, n - end) && Lands(s1, s2, end, start, n - end, x);
      Arrived(s1, s2, zero, end, start, n - end, x, start, unwritten);
      FlushedSlot(s0, zero, start, y);
      FlushedSlot(s0, zero, start, x);
    }
  }

  lemma SettledBelow<D>(s: State<D>, zero: D, from: nat, unwritten: set<nat>, x: nat)
    requires x < from && x < |s.slots|
    ensures Held(Settled(s, from, unwritten), zero, x) == Held(s, zero, x)
  {
    WrittenBack(s, zero, from, unwritten, x);
  }

  /** If cutting the tail fails, every page has moved all the same. */
  lemma CollapseUncut<D>(s0: State<D>, s2: State<D>, zero: D, start: nat, end: nat, n: nat, unwritten: set<nat>)
    requires start < end <= n <= |s0.slots| && forall x :: x in s0.cache ==> x < n
    requires Moved(Settled(s0, start, {}), s2, zero, end, start, n - end)
    requires CollapseKeeps(s0, zero, start, end, n, unwritten)
    ensures NoneLost(s0, Settled(s2, start, unwritten), zero, end, n, start - end)
  {
    var t := Settled(s2, start, unwritten);
    forall x: nat | x < n - (end - start)
      ensures Held(t, zero, x) == CollapsedAt(s0, zero, start, end, unwritten, x)
    {
      CollapsePage(s0, s2, zero, start, end, n, unwritten, x);
    }
    hide Held, Settled, CopiedPage, Moved;
    UncutKeeps(s0, t, zero, start, end, n, unwritten);
  }

  lemma UncutKeeps<D>(s0: State<D>, t: State<D>, zero: D, start: nat, end: nat, n: nat, unwritten: set<nat>)
    requires start < end <= n && CollapseKeeps(s0, zero, start, end, n, unwritten)
    requires forall x: nat :: x < n - (end - start) ==>
               Held(t, zero, x) == CollapsedAt(s0, zero, start, end, unwritten, x)
    ensures NoneLost(s0, t, zero, end, n, start - end)
  {
    hide Held, CopiedPage;
    forall x: nat | end <= x < n
      ensures x + (start - end) >= 0 && Held(t, zero, x + (start - end)) == Held(s0, zero, x)
    {
      var w: nat := x + (start - end);
      assert Held(t, zero, w) == CollapsedAt(s0, zero, start, end, unwritten, w);
    }
  }

  function Zeroes<D>(zero: D, n: nat): seq<D> { seq(n, _ => zero) }

  lemma InsertNumbers(offset: nat, len: nat, size: nat)
    requires offset % PAGE_SIZE == 0 && len % PAGE_SIZE == 0 && 0 < len && offset < size
    ensures offset / PAGE_SIZE < PagesOf(size)
    ensures (offset + len) / PAGE_SIZE - offset / PAGE_SIZE == len / PAGE_SIZE > 0
    ensures PagesOf(size + len) == PagesOf(size) + len / PAGE_SIZE
  {
  }

  lemma CutSame<D>(s0: State<D>, zero: D, start: nat, n: nat, delta: nat)
    requires start <= n
    ensures NoneLost(s0, Cut(s0, n), zero, start, n, delta)
  {
    forall x: nat | x < n
      ensures Held(Cut(s0, n), zero, x) == Held(s0, zero, x)
    {
      CutHeld(s0, zero, n, x);
    }
  }

  /** Before the first chunk: the old content, no page cached from `start` on, only holes past the end. */
  ghost predicate Prepared<D>(s0: State<D>, s1: State<D>, zero: D, start: nat, n: nat) {
    && n <= |s1.slots| == |s0.slots|
    && (forall x: nat :: x < n ==> Held(s1, zero, x) == Held(s0, zero, x))
    && (forall x :: x in s1.cache ==> x < start)
    && (forall x :: n <= x < |s1.slots| ==> s1.slots[x] == Hole)
    && (forall x: nat :: start <= x < n ==>
          (ByCopy(s1.slots[x]) <==> CopiedPage(s0, x)) && (Fresh(s1.slots[x]) <==> FreshPage(s0, x)))
  }

  lemma InsertStart<D>(s0: State<D>, zero: D, start: nat, n: nat, delta: nat)
    requires start <= n && n + delta <= |s0.slots| && forall x :: x in s0.cache ==> x < n
    ensures var s1 := Settled(Cut(s0, n), start, {});
            Prepared(s0, s1, zero, start, n) && CacheIn(s1) && Moved(s1, s1, zero, n, n + delta, 0)
  {
    var c := Cut(s0, n);
    var s1 := Settled(c, start, {});
    forall x: nat | x < n
      ensures Held(s1, zero, x) == Held(s0, zero, x)
    {
      CutHeld(s0, zero, n, x);
      WrittenBack(c, zero, start, {}, x);
    }
    forall x: nat | start <= x < n
      ensures (ByCopy(s1.slots[x]) <==> CopiedPage(s0, x)) && (Fresh(s1.slots[x]) <==> FreshPage(s0, x))
    {
      FlushedSlot(c, zero, start, x);
    }
    forall x | n <= x < |s1.slots|
      ensures s1.slots[x] == Hole
    {
      assert !Dirty(c, x);
    }
    MovedNone(s1, zero, n, n + delta);
  }

  /** The chunk below has its source untouched and its target empty. */
  lemma InsertReady<D>(s0: State<D>, s1: State<D>, s: State<D>, zero: D, start: nat, idx: nat, nr: nat, delta: nat,
                       n: nat)
    requires Prepared(s0, s1, zero, start, n) && n + delta <= |s1.slots|
    requires start + nr <= idx <= n && nr <= delta
    requires Moved(s1, s, zero, idx, idx + delta, n - idx)
    ensures Ready(s, idx - nr, idx - nr + delta, nr, false)
  {
    hide Held, Lands;
    forall x: nat | In(x, idx - nr, nr)
      ensures x !in s.cache
    {
      MovedOutside(s1, s, zero, idx, idx + delta, n - idx, x);
    }
    forall x: nat | In(x, idx - nr + delta, nr)
      ensures !Dirty(s, x) && s.slots[x] == Hole
    {
      assert !In(x, idx + delta, n - idx);
      if !In(x, idx, n - idx) { MovedOutside(s1, s, zero, idx, idx + delta, n - idx, x); }
    }
  }

  /** A move upwards, made from the top down. */
  lemma MovedBefore<D>(a: State<D>, b: State<D>, c: State<D>, zero: D, src: nat, delta: nat, len: nat, more: nat)
    requires len <= delta
    requires Moved(a, b, zero, src + len, src + len + delta, more) && Moved(b, c, zero, src, src + delta, len)
    ensures Moved(a, c, zero, src, src + delta, len + more)
  {
    hide Held, SameAt, Dirty, Lands;
    var dst, total := src + delta, len + more;
    forall x: nat | In(x, dst, total)
      ensures Held(c, zero, x) == Held(a, zero, x - dst + src)
      ensures Lands(a, c, src, dst, total, x)
    {
      LandsBefore(a, b, c, zero, src, delta, len, more, x);
      if In(x, dst, len) {
        MovedOutside(a, b, zero, src + len, dst + len, more, x - dst + src);
      } else {
        assert In(x, dst + len, more);
        MovedOutside(b, c, zero, src, dst, len, x);
      }
    }
    forall x: nat | !In(x, src, total) && !In(x, dst, total)
      ensures SameAt(a, c, x)
    {
      MovedOutside(a, b, zero, src + len, dst + len, more, x);
      MovedOutside(b, c, zero, src, dst, len, x);
      SameThen(a, b, c, x);
    }
    forall x: nat | In(x, src, total) && !In(x, dst, total)
      ensures c.slots[x] == Hole && !Dirty(c, x)
    {
      assert !In(x, dst, len) && !In(x, dst + len, more);
      if !In(x, src, len) {
        assert In(x, src + len, more);
        MovedOutside(b, c, zero, src, dst, len, x);
        SameSlot(b, c, x);
      }
    }
  }

  lemma LandsBefore<D>(a: State<D>, b: State<D>, c: State<D>, zero: D, src: nat, delta: nat, len: nat, more: nat,
                       x: nat)
    requires len <= delta && In(x, src + delta, len + more)
    requires Moved(a, b, zero, src + len, src + len + delta, more) && Moved(b, c, zero, src, src + delta, len)
    ensures src + len + more <= |a.slots| && src + delta + len + more <= |a.slots| == |c.slots|
    ensures Lands(a, c, src, src + delta, len + more, x)
  {
    hide Held, SameAt, Dirty;
    var dst := src + delta;
    if In(x, dst, len) {
      assert Lands(b, c, src, dst, len, x);
      MovedOutside(a, b, zero, src + len, dst + len, more, x - dst + src);
      SameSlot(a, b, x - dst + src);
      assert !In(x, dst + len, more);
      if !In(x, src + len, more) {
        MovedOutside(a, b, zero, src + len, dst + len, more, x);
        SameSlot(a, b, x);
      }
    } else {
      assert In(x, dst + len, more) && Lands(a, b, src + len, dst + len, more, x);
      MovedOutside(b, c, zero, src, dst, len, x);
      SameSlot(b, c, x);
    }
  }

  /** No page is read wrongly for want of being written out. */
  ghost predicate InsertKeeps<D>(s0: State<D>, zero: D, start: nat, n: nat, delta: nat, unwritten: set<nat>) {
    forall x :: x in unwritten && start + delta <= x < n + delta && CopiedPage(s0, x - delta) ==>
      Held(s0, zero, x - delta) == zero
  }

  /** A page that has moved up reads the same after the write-out, or as zeroes. */
  lemma InsertArrived<D>(s0: State<D>, s1: State<D>, a: State<D>, t: State<D>, zero: D, start: nat, n: nat, src: nat,
                         delta: nat, len: nat, y: nat, unwritten: set<nat>)
    requires Prepared(s0, s1, zero, start, n) && start <= src && start <= y < n && In(y, src, len)
    requires |a.slots| == |t.slots| == |s1.slots| && src + delta + len <= |a.slots|
    requires a.slots[y] == s1.slots[y] && Held(a, zero, y) == Held(s1, zero, y)
    requires In(y + delta, src, len) || a.slots[y + delta] == Hole
    requires Lands(a, t, src, src + delta, len, y + delta) && Held(t, zero, y + delta) == Held(a, zero, y)
    ensures Held(Settled(t, start, unwritten), zero, y + delta) ==
            if y + delta in unwritten && CopiedPage(s0, y) then zero else Held(s0, zero, y)
  {
    hide Held, Settled, CopiedPage;
    Arrived(a, t, zero, src, src + delta, len, y + delta, start, unwritten);
  }

  lemma InsertFailed<D>(s0: State<D>, s1: State<D>, s: State<D>, t: State<D>, zero: D, start: nat, idx: nat, nr: nat,
                        delta: nat, n: nat, moved: nat, held: nat, gone: set<nat>, unwritten: set<nat>)
    requires Prepared(s0, s1, zero, start, n) && n + delta <= |s1.slots| && start + nr <= idx <= n && nr <= delta
    requires held <= nr
    requires Moved(s1, s, zero, idx, idx + delta, n - idx) && Ready(s, idx - nr, idx - nr + delta, nr, false)
    requires Stopped(s, t, zero, idx - nr, idx - nr + delta, moved, nr,
                     LostSet(s, gone, idx - nr + moved, idx - nr + held))
    requires InsertKeeps(s0, zero, start, n, delta, unwritten) && Harmless(s0, zero, gone, start, n)
    ensures NoneLost(s0, Settled(t, start, unwritten), zero, start, n, delta)
  {
    var u := Settled(t, start, unwritten);
    forall x: nat | start <= x < n
      ensures Held(u, zero, x) == Held(s0, zero, x) || Held(u, zero, x + delta) == Held(s0, zero, x)
    {
      if x >= idx {
        InsertFailedAbove(s0, s1, s, t, zero, start, idx, nr, delta, n, moved, gone, held, unwritten, x);
      } else if idx - nr <= x < idx - nr + moved {
        InsertFailedMoved(s0, s1, s, t, zero, start, idx, nr, delta, n, moved, gone, held, unwritten, x);
      } else {
        InsertFailedStays(s0, s1, s, t, zero, start, idx, nr, delta, n, moved, gone, held, unwritten, x);
      }
    }
    forall x: nat | x < start
      ensures Held(u, zero, x) == Held(s0, zero, x)
    {
      InsertFailedBelow(s0, s1, s, t, zero, start, idx, nr, delta, n, moved, gone, held, unwritten, x);
    }
    hide Held, Settled;
  }

  /** One chunk of an insertion, moved or not. */
  lemma InsertStep<D>(s0: State<D>, s1: State<D>, s: State<D>, t: State<D>, zero: D, start: nat, idx: nat, nr: nat,
                      delta: nat, n: nat, chunk: nat, env: Env, left: nat -> nat, ok: bool, at: Halt,
                      unwritten: set<nat>)
    requires Prepared(s0, s1, zero, start, n) && n + delta <= |s1.slots| && start + nr <= idx <= n && nr <= delta
    requires Moved(s1, s, zero, idx, idx + delta, n - idx) && Ready(s, idx - nr, idx - nr + delta, nr, false)
    requires Exchanged(s, t, zero, idx - nr, idx - nr + delta, nr, chunk, false, env, left, ok, at)
    ensures ok ==> Moved(s1, t, zero, idx - nr, idx - nr + delta, n - (idx - nr))
    ensures !ok && InsertKeeps(s0, zero, start, n, delta, unwritten) && Harmless(s0, zero, env.gone, start, n) ==>
              NoneLost(s0, Settled(t, start, unwritten), zero, start, n, delta)
  {
    hide Prepared, Moved, Ready, Settled, NoneLost, InsertKeeps, Harmless, Broken, Exchanged;
    ExchangedParts(s, t, zero, idx - nr, idx - nr + delta, nr, chunk, false, env, left, ok, at);
    if ok {
      MovedBefore(s1, s, t, zero, idx - nr, delta, nr, n - idx);
    } else if InsertKeeps(s0, zero, start, n, delta, unwritten) && Harmless(s0, zero, env.gone, start, n) {
      BrokenStopped(s, t, zero, idx - nr, idx - nr + delta, nr, at, env.gone, env.fail);
      InsertFailed(s0, s1, s, t, zero, start, idx, nr, delta, n, at.moved, at.held, env.gone, unwritten);
    }
  }

  /** Every move of an insertion, from page `idx` down in steps of `delta`, runs to its end. */
  ghost predicate MovesUp<D>(slots: seq<Slot<D>>, start: nat, idx: nat, delta: nat, chunk: nat, env: Env,
                             left: nat -> nat)
    requires start <= idx <= |slots| && delta > 0 && chunk > 0 && forall x :: left(x) > 0
    decreases idx
  {
    if idx == start then true
    else
      var nr := if idx - start > delta then delta else idx - start;
      && ExchangeStop(slots, idx - nr, idx - nr + delta, 0, nr, chunk, false, env, left).moved == nr
      && MovesUp(slots, start, idx - nr, delta, chunk, env, left)
  }

  /** The same over the state before the call: blocks past the end are cut and dirty pages written out first. */
  ghost predicate InsertRuns<D>(s0: State<D>, start: nat, n: nat, delta: nat, chunk: nat, env: Env, left: nat -> nat) {
    && start <= n <= |s0.slots| && delta > 0 && chunk > 0 && (forall x :: left(x) > 0)
    && MovesUp(Settled(Cut(s0, n), start, {}).slots, start, n, delta, chunk, env, left)
  }

  lemma MovesUpNone<D>(slots: seq<Slot<D>>, start: nat, delta: nat, chunk: nat, env: Env, left: nat -> nat)
    requires start <= |slots| && delta > 0 && chunk > 0 && forall x :: left(x) > 0
    ensures MovesUp(slots, start, start, delta, chunk, env, left)
  {
  }

  lemma MovesUpStep<D>(slots: seq<Slot<D>>, start: nat, idx: nat, nr: nat, delta: nat, chunk: nat, env: Env,
                       left: nat -> nat)
    requires start < idx <= |slots| && delta > 0 && chunk > 0 && forall x :: left(x) > 0
    requires nr == if idx - start > delta then delta else idx - start
    ensures MovesUp(slots, start, idx, delta, chunk, env, left) <==>
              && ExchangeStop(slots, idx - nr, idx - nr + delta, 0, nr, chunk, false, env, left).moved == nr
              && MovesUp(slots, start, idx - nr, delta, chunk, env, left)
  {
  }

  lemma {:induction false} ExchangeStopSame<D>(a: seq<Slot<D>>, b: seq<Slot<D>>, src: nat, dst: nat, done: nat,
                                               len: nat, chunk: nat, full: bool, env: Env, left: nat -> nat)
    requires done <= len && src + len <= |a| == |b| && chunk > 0 && forall x :: left(x) > 0
    requires forall x :: src <= x < src + len ==> a[x] == b[x]
    ensures ExchangeStop(a, src, dst, done, len, chunk, full, env, left) ==
            ExchangeStop(b, src, dst, done, len, chunk, full, env, left)
    decreases len - done
  {
    hide ExchangeStop, ChunkStop;
    if done < len {
      var olen := if chunk < len - done then chunk else len - done;
      ChunkStopSame(a, b, src + done, dst + done, olen, full, env, left);
      ExchangeStopSame(a, b, src, dst, done + olen, len, chunk, full, env, left);
      ExchangeStep(a, src, dst, done, len, chunk, full, env, left);
      ExchangeStep(b, src, dst, done, len, chunk, full, env, left);
    } else {
      ExchangeEnd(a, src, dst, len, chunk, full, env, left);
      ExchangeEnd(b, src, dst, len, chunk, full, env, left);
    }
  }

  /** A chunk of an insertion runs to its end exactly if its source, as it was at the start, lets it. */
  lemma InsertStops<D>(s1: State<D>, s: State<D>, t: State<D>, zero: D, start: nat, idx: nat, nr: nat, delta: nat,
                       n: nat, chunk: nat, env: Env, left: nat -> nat, ok: bool, at: Halt)
    requires start < idx <= n && n + delta <= |s1.slots| && delta > 0 && chunk > 0 && forall x :: left(x) > 0
    requires nr == if idx - start > delta then delta else idx - start
    requires Moved(s1, s, zero, idx, idx + delta, n - idx)
    requires Exchanged(s, t, zero, idx - nr, idx - nr + delta, nr, chunk, false, env, left, ok, at)
    ensures MovesUp(s1.slots, start, idx, delta, chunk, env, left) <==>
              ok && MovesUp(s1.slots, start, idx - nr, delta, chunk, env, left)
  {
    hide Held, Lands, Broken, AllReadable, ExchangeStop, MovesUp;
    assert |s1.slots| == |s.slots|;
    forall x | idx - nr <= x < idx
      ensures s1.slots[x] == s.slots[x]
    {
      MovedOutside(s1, s, zero, idx, idx + delta, n - idx, x);
    }
    hide Moved;
    MovesUpStep(s1.slots, start, idx, nr, delta, chunk, env, left);
    ExchangeStopSame(s1.slots, s.slots, idx - nr, idx - nr + delta, 0, nr, chunk, false, env, left);
  }

  lemma InsertFailedAbove<D>(s0: State<D>, s1: State<D>, s: State<D>, t: State<D>, zero: D, start: nat, idx: nat,
                             nr: nat,
                             delta: nat, n: nat, moved: nat, gone: set<nat>, held: nat, unwritten: set<nat>, x: nat)
    requires Prepared(s0, s1, zero, start, n) && n + delta <= |s1.slots| && start + nr <= idx <= x < n && nr <= delta
    requires Moved(s1, s, zero, idx, idx + delta, n - idx)
    requires Stopped(s, t, zero, idx - nr, idx - nr + delta, moved, nr,
                     LostSet(s, gone, idx - nr + moved, idx - nr + held))
    requires InsertKeeps(s0, zero, start, n, delta, unwritten)
    ensures Held(Settled(t, start, unwritten), zero, x + delta) == Held(s0, zero, x)
  {
    hide Held, Settled, Dirty, LostSet, CopiedPage;
    var y := x + delta;
    assert In(y, idx + delta, n - idx) && Lands(s1, s, idx, idx + delta, n - idx, y);
    assert !In(y, idx - nr, nr) && !In(y, idx - nr + delta, moved + 1) && Kept(s, t, zero, y);
    assert Lands(s1, t, idx, idx + delta, n - idx, y);
    assert In(y, idx, n - idx) || s1.slots[y] == Hole;
    InsertArrived(s0, s1, s1, t, zero, start, n, idx, delta, n - idx, x, unwritten);
  }

  lemma InsertFailedMoved<D>(s0: State<D>, s1: State<D>, s: State<D>, t: State<D>, zero: D, start: nat, idx: nat,
                             nr: nat,
                             delta: nat, n: nat, moved: nat, gone: set<nat>, held: nat, unwritten: set<nat>, x: nat)
    requires Prepared(s0, s1, zero, start, n) && n + delta <= |s1.slots| && start + nr <= idx <= n && nr <= delta
    requires idx - nr <= x < idx - nr + moved
    requires Moved(s1, s, zero, idx, idx + delta, n - idx) && Ready(s, idx - nr, idx - nr + delta, nr, false)
    requires Stopped(s, t, zero, idx - nr, idx - nr + delta, moved, nr,
                     LostSet(s, gone, idx - nr + moved, idx - nr + held))
    requires InsertKeeps(s0, zero, start, n, delta, unwritten)
    ensures Held(Settled(t, start, unwritten), zero, x + delta) == Held(s0, zero, x)
  {
    hide Held, Settled, Dirty, LostSet, CopiedPage, SameAt;
    var src, y := idx - nr, x + delta;
    MovedOutside(s1, s, zero, idx, idx + delta, n - idx, x);
    SameSlot(s1, s, x);
    assert In(y, src + delta, moved) && Lands(s, t, src, src + delta, moved, y);
    assert In(y, src + delta, nr) && s.slots[y] == Hole;
    InsertArrived(s0, s1, s, t, zero, start, n, src, delta, moved, x, unwritten);
  }

  lemma InsertFailedStays<D>(s0: State<D>, s1: State<D>, s: State<D>, t: State<D>, zero: D, start: nat, idx: nat,
                             nr: nat,
                             delta: nat, n: nat, moved: nat, gone: set<nat>, held: nat, unwritten: set<nat>, x: nat)
    requires Prepared(s0, s1, zero, start, n) && n + delta <= |s1.slots| && start + nr <= idx <= n && nr <= delta
    requires held <= nr
    requires start <= x < idx && !(idx - nr <= x < idx - nr + moved)
    requires Moved(s1, s, zero, idx, idx + delta, n - idx)
    requires Stopped(s, t, zero, idx - nr, idx - nr + delta, moved, nr,
                     LostSet(s, gone, idx - nr + moved, idx - nr + held))
    requires Harmless(s0, zero, gone, start, n)
    ensures Held(Settled(t, start, unwritten), zero, x) == Held(s0, zero, x)
  {
    hide Held, Settled, Lands;
    var src := idx - nr;
    MovedOutside(s1, s, zero, idx, idx + delta, n - idx, x);
    SameSlot(s1, s, x);
    if x < src {
      assert !In(x, src, nr) && !In(x, src + delta, moved + 1) && Kept(s, t, zero, x);
    } else {
      assert In(x, src + moved, nr - moved);
    }
    WrittenBack(t, zero, start, unwritten, x);
  }

  lemma InsertFailedBelow<D>(s0: State<D>, s1: State<D>, s: State<D>, t: State<D>, zero: D, start: nat, idx: nat,
                             nr: nat,
                             delta: nat, n: nat, moved: nat, gone: set<nat>, held: nat, unwritten: set<nat>, x: nat)
    requires Prepared(s0, s1, zero, start, n) && n + delta <= |s1.slots| && start + nr <= idx <= n && x < start
    requires Moved(s1, s, zero, idx, idx + delta, n - idx)
    requires Stopped(s, t, zero, idx - nr, idx - nr + delta, moved, nr,
                     LostSet(s, gone, idx - nr + moved, idx - nr + held))
    ensures Held(Settled(t, start, unwritten), zero, x) == Held(s0, zero, x)
  {
    hide Held, Settled, Lands, LostSet;
    MovedOutside(s1, s, zero, idx, idx + delta, n - idx, x);
    assert !In(x, idx - nr, nr) && !In(x, idx - nr + delta, moved + 1) && Kept(s, t, zero, x);
    SettledBelow(t, zero, start, unwritten, x);
  }

  lemma InsertDone<D>(s0: State<D>, s1: State<D>, s2: State<D>, zero: D, start: nat, n: nat, delta: nat,
                      unwritten: set<nat>)
    requires Prepared(s0, s1, zero, start, n) && start <= n && CacheIn(s2)
    requires Moved(s1, s2, zero, start, start + delta, n - start)
    ensures var s3 := Settled(s2, start, unwritten);
            && (Pages(s3, zero, n + delta) ==
                Pages(s0, zero, n)[..start] + Zeroes(zero, delta) + Pages(s0, zero, n)[start..]
                <==> InsertKeeps(s0, zero, start, n, delta, unwritten))
            && (forall x :: x in s3.cache ==> x < start)
            && (forall x :: start <= x < start + delta && x < |s3.slots| ==> s3.slots[x] == Hole)
  {
    var s3 := Settled(s2, start, unwritten);
    InsertGap(s0, s1, s2, zero, start, n, delta);
    forall x: nat | x < n + delta
      ensures Held(s3, zero, x) == InsertedAt(s0, zero, start, delta, unwritten, x)
    {
      InsertPage(s0, s1, s2, zero, start, n, delta, unwritten, x);
    }
    hide Held, InsertedAt, Moved, Prepared;
    InsertedPages(s0, s3, zero, start, n, delta, unwritten);
  }

  /** What page `x` holds after an insertion: a copied page that was not written out reads as zeroes. */
  function InsertedAt<D>(s0: State<D>, zero: D, start: nat, delta: nat, unwritten: set<nat>, x: nat): D {
    if x < start then Held(s0, zero, x)
    else if x < start + delta then zero
    else if x in unwritten && CopiedPage(s0, x - delta) then zero
    else Held(s0, zero, x - delta)
  }

  lemma InsertedPages<D>(s0: State<D>, s3: State<D>, zero: D, start: nat, n: nat, delta: nat, unwritten: set<nat>)
    requires start <= n
    requires forall x: nat :: x < n + delta ==> Held(s3, zero, x) == InsertedAt(s0, zero, start, delta, unwritten, x)
    ensures Pages(s3, zero, n + delta) ==
            Pages(s0, zero, n)[..start] + Zeroes(zero, delta) + Pages(s0, zero, n)[start..]
            <==> InsertKeeps(s0, zero, start, n, delta, unwritten)
  {
    hide Held, CopiedPage;
    var got := Pages(s3, zero, n + delta);
    var want := Pages(s0, zero, n)[..start] + Zeroes(zero, delta) + Pages(s0, zero, n)[start..];
    assert |got| == |want|;
    forall x: nat | x < |want|
      ensures got[x] == InsertedAt(s0, zero, start, delta, unwritten, x)
      ensures want[x] == InsertedAt(s0, zero, start, delta, {}, x)
    {
    }
    if got == want {
      forall x | x in unwritten && start + delta <= x < n + delta && CopiedPage(s0, x - delta)
        ensures Held(s0, zero, x - delta) == zero
      {
        assert got[x] == want[x];
      }
    }
    if InsertKeeps(s0, zero, start, n, delta, unwritten) {
      assert forall x :: 0 <= x < |want| ==> got[x] == want[x];
    }
  }

  lemma InsertGap<D>(s0: State<D>, s1: State<D>, s2: State<D>, zero: D, start: nat, n: nat, delta: nat)
    requires Prepared(s0, s1, zero, start, n) && start <= n
    requires Moved(s1, s2, zero, start, start + delta, n - start)
    ensures forall x: nat :: start <= x < start + delta && x < |s2.slots| ==> s2.slots[x] == Hole && !Dirty(s2, x)
  {
    hide Held, Lands;
    forall x: nat | start <= x < start + delta && x < |s2.slots|
      ensures s2.slots[x] == Hole && !Dirty(s2, x)
    {
      assert !In(x, start + delta, n - start);
      if !In(x, start, n - start) { MovedOutside(s1, s2, zero, start, start + delta, n - start, x); }
    }
  }

  lemma InsertPage<D>(s0: State<D>, s1: State<D>, s2: State<D>, zero: D, start: nat, n: nat, delta: nat,
                      unwritten: set<nat>, x: nat)
    requires Prepared(s0, s1, zero, start, n) && start <= n && CacheIn(s2) && x < n + delta
    requires Moved(s1, s2, zero, start, start + delta, n - start)
    ensures Held(Settled(s2, start, unwritten), zero, x) == InsertedAt(s0, zero, start, delta, unwritten, x)
  {
    hide Settled, Held, CopiedPage;
    if x < start {
      MovedOutside(s1, s2, zero, start, start + delta, n - start, x);
      SettledBelow(s2, zero, start, unwritten, x);
    } else if x >= start + delta {
      assert In(x, start + delta, n - start) && Lands(s1, s2, start, start + delta, n - start, x);
      InsertArrived(s0, s1, s1, s2, zero, start, n, start, delta, n - start, x - delta, unwritten);
    } else {
      InsertGap(s0, s1, s2, zero, start, n, delta);
      WrittenBack(s2, zero, start, unwritten, x);
      HoleHeld(s2, zero, x);
    }
  }

  lemma HoleHeld<D>(s: State<D>, zero: D, x: nat)
    requires !Dirty(s, x) && (x < |s.slots| ==> s.slots[x] == Hole)
    ensures Held(s, zero, x) == zero
  {
  }

  lemma CutHeld<D>(s: State<D>, zero: D, from: nat, x: nat)
    requires x < from
    ensures Held(Cut(s, from), zero, x) == Held(s, zero, x)
  {
  }

  ghost predicate AllReadable<D>(slots: seq<Slot<D>>, src: nat, len: nat, env: Env) {
    forall x: nat :: In(x, src, len) ==> Readable(slots, x, env.lfs, env.bad)
  }

  lemma NoneToRead<D>(slots: seq<Slot<D>>, src: nat, env: Env)
    ensures AllReadable(slots, src, 0, env)
  {
  }

  lemma ReadySome<D>(s: State<D>, src: nat, dst: nat, len: nat, total: nat, full: bool)
    requires Ready(s, src, dst, total, full) && len <= total
    ensures Ready(s, src, dst, len, full)
  {
    assert forall x: nat :: In(x, src, len) ==> In(x, src, total);
    assert forall x: nat :: In(x, dst, len) ==> In(x, dst, total);
  }

  /** The source pages of the next chunk are still as they were at the start. */
  lemma ReadableThen<D>(a: State<D>, b: State<D>, zero: D, src: nat, dst: nat, done: nat, len: nat, total: nat,
                        full: bool, env: Env)
    requires Progress(a, b, zero, src, dst, done, total, full) && done + len <= total
    requires AllReadable(a.slots, src, done, env)
    ensures AllReadable(b.slots, src + done, len, env) <==> AllReadable(a.slots, src, done + len, env)
    ensures AllReadable(a.slots, src, total, env) ==> AllReadable(a.slots, src, done + len, env)
  {
    forall x: nat | In(x, src + done, len)
      ensures Readable(b.slots, x, env.lfs, env.bad) <==> Readable(a.slots, x, env.lfs, env.bad)
      ensures In(x, src, done + len)
    {
      MovedOutside(a, b, zero, src, dst, done, x);
    }
    assert forall x: nat :: In(x, src, done + len) ==> In(x, src, done) || In(x, src + done, len);
    assert forall x: nat :: In(x, src, done + len) ==> In(x, src, total);
  }

  lemma Chunk<D>(start: State<D>, a: State<D>, b: State<D>, zero: D, src: nat, dst: nat, done: nat, len: nat,
                 total: nat, full: bool)
    requires Progress(start, a, zero, src, dst, done, total, full) && done + len <= total
    requires Moved(a, b, zero, src + done, dst + done, len)
    ensures Progress(start, b, zero, src, dst, done + len, total, full)
  {
    hide Moved, Ready;
    MovedThen(start, a, b, zero, src, dst, done, len);
    ReadyThen(a, b, zero, src + done, dst + done, len, total - done - len, full);
  }

  /**
    A file of two pages, a hole and a block under a checkpoint, loses its first
    page to a collapse: if the copied page is not written out, a hole is left
    where the block's content should be.
  */
  lemma CopyNotWritten()
    ensures var s0 := State([Hole, Block(7, true)], map[]);
            !CollapseKeeps(s0, 0, 0, 1, 2, {0}) && !InsertKeeps(s0, 0, 0, 2, 1, {2})
  {
    var s0 := State([Hole, Block(7, true)], map[]);
    assert CopiedPage(s0, 0 + (1 - 0)) && Held(s0, 0, 1) == 7;
    assert CopiedPage(s0, 2 - 1);
  }

  /** A fresh block taken out for a move that fails is lost when its dnode cannot be found again. */
  lemma RollBackLoses()
    ensures var a, s := State([Hole, Block(7, false)], map[]), State([Hole, Hole], map[]);
            var b := RolledBack(s, [Block(7, false)], [true], 1, {1});
            Out(a, s, [Block(7, false)], [true], 1, 0, 1) && !Stopped(a, b, 0, 1, 0, 0, 1, {})
  {
    var a, s := State([Hole, Block(7, false)], map[]), State([Hole, Hole], map[]);
    var b := RolledBack(s, [Block(7, false)], [true], 1, {1});
    assert In(1, 1 + 0, 1 - 0) && Held(b, 0, 1) == 0 && Held(a, 0, 1) == 7;
  }

  /** Four blocks, the third of them fresh. */
  function FourBlocks(): State<int> { State([Block(1, true), Block(2, true), Block(3, false), Block(4, true)], map[]) }

  /** The second page copied, the third handed over to its place. */
  function TwoMoved(): State<int> {
    State([Block(1, true), Block(3, false), Hole, Block(4, true)], map[0 := Page(2, true), 1 := Page(2, false)])
  }

  /**
    The first of four pages is collapsed and the last cannot be moved.  The second
    is copied, the third handed over to its place, and there the copied page, still
    cached, hides it: no read of the file returns the third block any more.
  */
  lemma StalePageHides()
    ensures var env := Env(false, map[], {}, map[3 := Reading(5)], {});
            var s1 := Settled(FourBlocks(), 0, {});
            && |s1.slots| == 4
            && ExchangeStop(s1.slots, 1, 0, 0, 3, 4, true, env, _ => 1000) == Halt(2, 3, true)
            && Broken(s1, TwoMoved(), 0, 1, 0, 3, Halt(2, 3, true), env.gone, env.fail)
    ensures !Unmasked(FourBlocks(), 0, 0, 1, 2) && forall y: nat :: Reads(TwoMoved(), 0, y) != 3
  {
    hide Stopped, Halted, ExchangeStop, Settled, Unmasked;
    StaleStart();
    StaleReads();
    StaleStop(FourBlocks().slots);
    var lost := LostSet(FourBlocks(), {}, 3, 4);
    StaleHalted(lost);
    StaleStopped(lost);
  }

  lemma StaleStart()
    ensures Settled(FourBlocks(), 0, {}) == FourBlocks() && !Unmasked(FourBlocks(), 0, 0, 1, 2)
  {
    assert CopiedPage(FourBlocks(), 2 - (1 - 0)) && !CopiedPage(FourBlocks(), 2);
  }

  lemma StaleReads()
    ensures forall y: nat :: Reads(TwoMoved(), 0, y) != 3
  {
  }

  lemma StaleHalted(lost: set<nat>)
    requires lost == {}
    ensures Halted(FourBlocks(), TwoMoved(), 0, 1, 0, 2, 3, lost,
                   FaultAt(FourBlocks().slots, 1, Halt(2, 3, true), map[3 := Reading(5)]))
  {
  }

  lemma StaleStopped(lost: set<nat>)
    requires lost == {}
    ensures Stopped(FourBlocks(), TwoMoved(), 0, 1, 0, 2, 3, lost)
  {
    var a, b := FourBlocks(), TwoMoved();
    forall x: nat | In(x, 0, 2)
      ensures Held(b, 0, x) == Held(a, 0, x - 0 + 1) && Lands(a, b, 1, 0, 2, x)
    {
      assert x == 0 || x == 1;
    }
    forall x: nat | In(x, 1 + 2, 3 - 2)
      ensures !Dirty(b, x) && Held(b, 0, x) == Held(a, 0, x)
    {
      assert x == 3;
    }
    forall x: nat | !In(x, 1, 3) && !In(x, 0, 2 + 1)
      ensures Kept(a, b, 0, x)
    {
      assert x >= 4;
    }
  }

  lemma StaleStop(slots: seq<Slot<int>>)
    requires slots == [Block(1, true), Block(2, true), Block(3, false), Block(4, true)]
    ensures ExchangeStop(slots, 1, 0, 0, 3, 4, true, Env(false, map[], {}, map[3 := Reading(5)], {}), _ => 1000) ==
            Halt(2, 3, true)
  {
    var env, left := Env(false, map[], {}, map[3 := Reading(5)], {}), _ => 1000;
    var addr := slots[1..4];
    assert addr == [Block(2, true), Block(3, false), Block(4, true)];
    assert ReadStop(slots, 1, 3, 3, env) == 3;
    assert ReadStop(slots, 1, 2, 3, env) == 3;
    assert ReadStop(slots, 1, 1, 3, env) == 3;
    assert ReadStop(slots, 1, 0, 3, env) == 3;
    assert RunTo(addr, 2, 3) == 2;
    CloneStep(addr, 1, 0, 2, true, env.fail, left);
    CloneStep(addr, 1, 0, 1, true, env.fail, left);
    CloneStep(addr, 1, 0, 0, true, env.fail, left);
  }
}
