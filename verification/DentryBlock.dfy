/**
  One dentry block (dir.c): a slot bitmap, one dentry per slot, and eight name
  bytes per slot.  A name longer than eight bytes runs on over the following
  slots, whose dentries then carry name_len 0.
*/
module DentryBlock {

  import opened Bitmap

  newtype byte = x: int | 0 <= x < 256

  type Name = seq<byte>

  const SLOT_LEN: nat := 8

  datatype Dentry = Dentry(hash: nat, ino: nat, nameLen: nat, fileType: nat)

  datatype Block = Block(bits: seq<bool>, dents: seq<Dentry>, bytes: seq<byte>)

  /** What a directory entry says. */
  datatype Entry = Entry(name: Name, hash: nat, ino: nat, fileType: nat)

  /** GET_DENTRY_SLOTS. */
  function Slots(len: nat): nat { (len + SLOT_LEN - 1) / SLOT_LEN }

  /** A name takes the least number of slots of eight bytes that hold it. */
  lemma SlotsLeast(len: nat, n: nat)
    ensures len <= 8 * n <==> Slots(len) <= n
  {
  }

  /** A freshly allocated page reads as zeroes. */
  function Empty(n: nat): (b: Block)
    ensures WF(b, n) && Tight(b) && forall p: nat :: !Live(b, p)
  {
    Block(seq(n, _ => false), seq(n, _ => Dentry(0, 0, 0, 0)), seq(SLOT_LEN * n, _ => 0))
  }

  // ---------------------------------------------------------- well-formed blocks

  predicate Shaped(b: Block, n: nat) { |b.bits| == |b.dents| == n && |b.bytes| == SLOT_LEN * n }

  /** An entry starts in slot `p`. */
  predicate Live(b: Block, p: nat) { p < |b.bits| && p < |b.dents| && b.bits[p] && b.dents[p].nameLen > 0 }

  predicate Covers(b: Block, p: nat, q: nat) { Live(b, p) && p <= q < p + Slots(b.dents[p].nameLen) }

  /** The entry at `p` ends inside the block, and its further slots are taken and nameless. */
  predicate Whole(b: Block, p: nat)
    requires Live(b, p)
  {
    var end := p + Slots(b.dents[p].nameLen);
    && end <= |b.bits| && end <= |b.dents| && SLOT_LEN * end <= |b.bytes|
    && (forall q :: p < q < end ==> b.bits[q] && b.dents[q].nameLen == 0)
  }

  ghost predicate WF(b: Block, n: nat) {
    && Shaped(b, n)
    && (forall p: nat :: Live(b, p) ==> Whole(b, p))
  }

  /** Every slot taken belongs to an entry. */
  ghost predicate Tight(b: Block) {
    forall q: nat :: q < |b.bits| && b.bits[q] ==> exists p: nat :: Covers(b, p, q)
  }

  function NameAt(b: Block, p: nat): Name
    requires Live(b, p) && Whole(b, p)
  {
    b.bytes[SLOT_LEN * p .. SLOT_LEN * p + b.dents[p].nameLen]
  }

  function EntryAt(b: Block, p: nat): Entry
    requires Live(b, p) && Whole(b, p)
  {
    var d := b.dents[p];
    Entry(NameAt(b, p), d.hash, d.ino, d.fileType)
  }

  /** Two entries never share a slot. */
  lemma CoversOnce(b: Block, n: nat, p: nat, p': nat, q: nat)
    requires WF(b, n) && Covers(b, p, q) && Covers(b, p', q)
    ensures p == p'
  {
    assert Whole(b, p) && Whole(b, p');
  }

  // --------------------------------------------------------------- free space

  ghost predicate Fits(bits: seq<bool>, slots: nat, p: nat) {
    p + slots <= |bits| && forall q :: p <= q < p + slots ==> !bits[q]
  }

  ghost predicate HasRoom(bits: seq<bool>, slots: nat) { exists p: nat :: Fits(bits, slots, p) }

  /** f2fs_room_for_filename: first fit, or the number of slots when nothing fits. */
  method RoomForFilename(bits: seq<bool>, slots: nat) returns (r: nat)
    requires slots > 0
    ensures r <= |bits|
    ensures r < |bits| ==> Fits(bits, slots, r)
    ensures forall p: nat :: p < r ==> !Fits(bits, slots, p)
    ensures r < |bits| <==> HasRoom(bits, slots)
  {
    var start: nat := 0;
    while true
      invariant start <= |bits|
      invariant forall p: nat :: p < start ==> !Fits(bits, slots, p)
      decreases |bits| - start
    {
      var zero := FindNext(bits, false, start);
      forall p: nat | p < zero ensures !Fits(bits, slots, p) {
        if start <= p { assert bits[p]; }
      }
      if zero >= |bits| {
        return |bits|;
      }
      var end := FindNext(bits, true, zero);
      if end - zero >= slots {
        return zero;
      }
      forall p: nat | p <= end ensures !Fits(bits, slots, p) {
        if zero <= p { assert end < |bits| ==> bits[end]; }
      }
      if end + 1 >= |bits| {
        return |bits|;
      }
      start := end + 1;
    }
  }

  // ------------------------------------------------------------------- lookup

  /** No entry that starts before `pos` has this name and hash. */
  ghost predicate NoMatch(b: Block, pos: nat, name: Name, hash: nat) {
    forall p: nat :: p < pos && Live(b, p) && Whole(b, p) ==> !Matches(EntryAt(b, p), name, hash)
  }

  predicate Matches(e: Entry, name: Name, hash: nat) { e.hash == hash && e.name == name }

  /** No entry reaches into `pos` from before. */
  ghost predicate Aligned(b: Block, pos: nat) { forall p: nat :: Covers(b, p, pos) ==> p == pos }

  lemma NextSlot(b: Block, n: nat, pos: nat, name: Name, hash: nat)
    requires WF(b, n) && Aligned(b, pos) && NoMatch(b, pos, name, hash) && pos < n && !Live(b, pos)
    ensures Aligned(b, pos + 1) && NoMatch(b, pos + 1, name, hash)
  {
    var next := pos + 1;
    forall p: nat | Covers(b, p, next)
      ensures p == next
    {
      assert p < pos ==> Covers(b, p, pos);
    }
  }

  lemma NextEntry(b: Block, n: nat, pos: nat, name: Name, hash: nat)
    requires WF(b, n) && Aligned(b, pos) && NoMatch(b, pos, name, hash)
    requires Live(b, pos) && Whole(b, pos) && !Matches(EntryAt(b, pos), name, hash)
    ensures var next := pos + Slots(b.dents[pos].nameLen);
            next <= n && Aligned(b, next) && NoMatch(b, next, name, hash)
  {
    var next := pos + Slots(b.dents[pos].nameLen);
    var last: nat := next - 1;
    forall p: nat | Covers(b, p, next)
      ensures p == next
    {
      assert p < next ==> Covers(b, p, last);
      if p < next { CoversOnce(b, n, p, pos, last); }
    }
  }

  /**
    f2fs_find_target_dentry: the slot where an entry with this name and hash
    starts, if there is one.  The second result is the longest free run.
  */
  method FindTarget(b: Block, n: nat, name: Name, hash: nat) returns (found: bool, pos: nat, maxSlots: nat)
    requires WF(b, n)
    ensures found ==> Live(b, pos) && Whole(b, pos) && Matches(EntryAt(b, pos), name, hash)
    ensures !found ==> NoMatch(b, n, name, hash)
    ensures !found && Tight(b) ==> forall s: nat :: s > 0 ==> (s <= maxSlots <==> HasRoom(b.bits, s))
  {
    hide Runs, NoMatch, Aligned, HasRoom, WF, Tight, Live, Whole, EntryAt;
    pos, maxSlots, found := 0, 0, false;
    var maxLen: nat := 0;
    Start(b, n, name, hash);
    while pos < n
      invariant pos <= n
      invariant NoMatch(b, pos, name, hash) && Aligned(b, pos)
      invariant Tight(b) ==> Runs(b.bits, pos, maxLen, maxSlots)
    {
      SlotKind(b, n, pos);
      if !b.bits[pos] {
        if Tight(b) { RunsFree(b.bits, pos, maxLen, maxSlots); }
        NextSlot(b, n, pos, name, hash);
        pos, maxLen := pos + 1, maxLen + 1;
      } else if b.dents[pos].nameLen == 0 {
        StrayBit(b, pos);
        NextSlot(b, n, pos, name, hash);
        pos := pos + 1;
      } else {
        if b.dents[pos].hash == hash && NameAt(b, pos) == name {
          found := true;
          return;
        }
        NextEntry(b, n, pos, name, hash);
        var next := pos + Slots(b.dents[pos].nameLen);
        if Tight(b) { RunsTaken(b.bits, pos, next, maxLen, maxSlots); }
        if maxLen > maxSlots { maxSlots := maxLen; }
        pos, maxLen := next, 0;
      }
    }
    if Tight(b) { RunsTotal(b.bits, maxLen, maxSlots); }
    if maxLen > maxSlots { maxSlots := maxLen; }
  }

  lemma Start(b: Block, n: nat, name: Name, hash: nat)
    requires WF(b, n)
    ensures NoMatch(b, 0, name, hash) && Aligned(b, 0) && Runs(b.bits, 0, 0, 0)
    ensures |b.bits| == |b.dents| == n
  {
  }

  /** A slot starts an entry exactly if it is taken and named, and then the slots of the entry are taken. */
  lemma SlotKind(b: Block, n: nat, pos: nat)
    requires WF(b, n) && pos < n
    ensures pos < |b.bits| && pos < |b.dents| && (Live(b, pos) <==> b.bits[pos] && b.dents[pos].nameLen > 0)
    ensures Live(b, pos) ==>
              && Whole(b, pos) && EntryAt(b, pos).name == NameAt(b, pos) && EntryAt(b, pos).hash == b.dents[pos].hash
              && var next := pos + Slots(b.dents[pos].nameLen);
              pos < next <= |b.bits| && forall q :: pos <= q < next ==> b.bits[q]
  {
  }

  lemma StrayBit(b: Block, pos: nat)
    requires Aligned(b, pos) && pos < |b.bits| && b.bits[pos] && !Live(b, pos)
    ensures !Tight(b)
  {
  }

  /** Bookkeeping of free runs: `cur` is the run that ends at `pos`, `best` the longest closed one. */
  ghost predicate Runs(bits: seq<bool>, pos: nat, cur: nat, best: nat) {
    && cur <= pos <= |bits|
    && (forall q :: pos - cur <= q < pos ==> !bits[q])
    && (pos - cur > 0 ==> bits[pos - cur - 1])
    && (forall s: nat, p: nat :: Fits(bits, s, p) && s > 0 && p + s <= pos - cur ==> s <= best)
    && (best > 0 ==> exists p: nat :: Fits(bits, best, p))
  }

  lemma RunsFree(bits: seq<bool>, pos: nat, cur: nat, best: nat)
    requires Runs(bits, pos, cur, best) && pos < |bits| && !bits[pos]
    ensures Runs(bits, pos + 1, cur + 1, best)
  {
  }

  /** A taken stretch [pos, next) closes the current run. */
  lemma RunsTaken(bits: seq<bool>, pos: nat, next: nat, cur: nat, best: nat)
    requires Runs(bits, pos, cur, best) && pos < next <= |bits|
    requires forall q :: pos <= q < next ==> bits[q]
    ensures Runs(bits, next, 0, if cur > best then cur else best)
  {
    forall s: nat, p: nat | Fits(bits, s, p) && s > 0 && p + s <= next
      ensures s <= (if cur > best then cur else best)
    {
      assert !bits[p + s - 1] && !bits[p];
      assert p + s <= pos;
      assert p < pos - cur ==> bits[pos - cur - 1];
    }
    if cur > 0 { assert Fits(bits, cur, pos - cur); }
  }

  lemma RunsTotal(bits: seq<bool>, cur: nat, best: nat)
    requires Runs(bits, |bits|, cur, best)
    ensures var m := if cur > best then cur else best;
            forall s: nat :: s > 0 ==> (s <= m <==> HasRoom(bits, s))
  {
    var m := if cur > best then cur else best;
    forall s: nat | s > 0
      ensures s <= m <==> HasRoom(bits, s)
    {
      if p: nat :| Fits(bits, s, p) {
        assert p < |bits| - cur ==> bits[|bits| - cur - 1];
      }
      if s <= m {
        if cur > best {
          assert Fits(bits, s, |bits| - cur);
        } else {
          var p: nat :| Fits(bits, best, p);
          assert Fits(bits, s, p);
        }
      }
    }
  }

  // ------------------------------------------------------------- insert, delete

  /** Slots [p, p + slots) have been taken. */
  ghost predicate Occupied(bits: seq<bool>, bits': seq<bool>, p: nat, slots: nat) {
    |bits'| == |bits| && forall q :: 0 <= q < |bits| ==> bits'[q] == (bits[q] || p <= q < p + slots)
  }

  /** f2fs_update_dentry: writes an entry over free slots. */
  method UpdateDentry(b: Block, n: nat, e: Entry, pos: nat) returns (b': Block)
    requires WF(b, n) && |e.name| > 0 && Fits(b.bits, Slots(|e.name|), pos)
    ensures WF(b', n) && (Tight(b) ==> Tight(b'))
    ensures Live(b', pos) && EntryAt(b', pos) == e
    ensures forall p: nat :: p != pos ==> (Live(b', p) <==> Live(b, p))
    ensures forall p: nat :: Live(b, p) ==> EntryAt(b', p) == EntryAt(b, p)
    ensures Occupied(b.bits, b'.bits, pos, Slots(|e.name|))
  {
    var slots := Slots(|e.name|);
    var bits := b.bits;
    var dents := b.dents[pos := Dentry(e.hash, e.ino, |e.name|, e.fileType)];
    var at := SLOT_LEN * pos;
    var bytes := b.bytes[..at] + e.name + b.bytes[at + |e.name|..];
    var i := 0;
    while i < slots
      invariant 0 <= i <= slots && |bits| == |dents| == n
      invariant forall q :: 0 <= q < n ==> bits[q] == (b.bits[q] || pos <= q < pos + i)
      invariant dents[pos] == Dentry(e.hash, e.ino, |e.name|, e.fileType)
      invariant forall q :: pos < q < pos + i ==> dents[q].nameLen == 0
      invariant forall q :: 0 <= q < n && !(pos <= q < pos + i) && q != pos ==> dents[q] == b.dents[q]
    {
      bits := bits[pos + i := true];
      if i != 0 {
        dents := dents[pos + i := dents[pos + i].(nameLen := 0)];
      }
      i := i + 1;
    }
    b' := Block(bits, dents, bytes);
    Inserted(b, n, e, pos, b');
  }

  /** The slots from `pos` on now hold `e`; all else is as before. */
  ghost predicate Put(b: Block, e: Entry, pos: nat, b': Block) {
    var end := pos + Slots(|e.name|);
    && |b'.bits| == |b.bits| == |b.dents| == |b'.dents| && |b.bytes| == |b'.bytes| == SLOT_LEN * |b.bits|
    && pos < end <= |b.bits|
    && (forall q :: 0 <= q < |b.bits| ==> b'.bits[q] == (b.bits[q] || pos <= q < end))
    && b'.dents[pos] == Dentry(e.hash, e.ino, |e.name|, e.fileType)
    && (forall q :: pos < q < end ==> b'.dents[q].nameLen == 0)
    && (forall q :: 0 <= q < |b.bits| && !(pos <= q < end) ==> b'.dents[q] == b.dents[q])
    && b'.bytes == b.bytes[..SLOT_LEN * pos] + e.name + b.bytes[SLOT_LEN * pos + |e.name|..]
  }

  lemma Inserted(b: Block, n: nat, e: Entry, pos: nat, b': Block)
    requires WF(b, n) && |e.name| > 0 && Fits(b.bits, Slots(|e.name|), pos)
    requires Put(b, e, pos, b')
    ensures WF(b', n) && (Tight(b) ==> Tight(b'))
    ensures Live(b', pos) && EntryAt(b', pos) == e
    ensures forall p: nat :: p != pos ==> (Live(b', p) <==> Live(b, p))
    ensures forall p: nat :: Live(b, p) ==> EntryAt(b', p) == EntryAt(b, p)
  {
    hide Put, Whole, EntryAt, Live, Tight, Fits;
    InsertedNew(b, e, pos, b');
    forall p: nat | Live(b, p)
      ensures Live(b', p) && Whole(b', p) && EntryAt(b', p) == EntryAt(b, p)
    {
      InsertedOther(b, n, e, pos, b', p);
    }
    forall p: nat | p != pos && Live(b', p)
      ensures Live(b, p)
    {
      InsertedBack(b, e, pos, b', p);
    }
    assert Shaped(b', n) by { InsertedShape(b, e, pos, b'); }
    if Tight(b) { InsertedTight(b, n, e, pos, b'); }
  }

  lemma InsertedShape(b: Block, e: Entry, pos: nat, b': Block)
    requires Put(b, e, pos, b')
    ensures Shaped(b', |b.bits|)
  {
  }

  lemma InsertedNew(b: Block, e: Entry, pos: nat, b': Block)
    requires |e.name| > 0 && Put(b, e, pos, b')
    ensures Live(b', pos) && Whole(b', pos) && EntryAt(b', pos) == e
  {
  }

  lemma InsertedBack(b: Block, e: Entry, pos: nat, b': Block, p: nat)
    requires Put(b, e, pos, b') && p != pos && Live(b', p)
    ensures Live(b, p)
  {
    assert !(pos < p < pos + Slots(|e.name|));
  }

  lemma InsertedOther(b: Block, n: nat, e: Entry, pos: nat, b': Block, p: nat)
    requires WF(b, n) && |e.name| > 0 && Fits(b.bits, Slots(|e.name|), pos)
    requires Put(b, e, pos, b') && Live(b, p)
    ensures Live(b', p) && Whole(b', p) && EntryAt(b', p) == EntryAt(b, p)
    ensures b'.dents[p] == b.dents[p]
  {
    assert Whole(b, p);
    var end := p + Slots(b.dents[p].nameLen);
    var last := pos + Slots(|e.name|);
    FreeApart(b, n, p, Slots(|e.name|), pos);
    assert b'.dents[p] == b.dents[p];
    forall q | p < q < end
      ensures b'.bits[q] && b'.dents[q].nameLen == 0
    {
      assert b.bits[q] && b'.dents[q] == b.dents[q];
    }
    BytesKept(b, e, pos, b', p, b.dents[p].nameLen);
  }

  /** Free slots lie before or after an entry. */
  lemma FreeApart(b: Block, n: nat, p: nat, slots: nat, pos: nat)
    requires WF(b, n) && Live(b, p) && slots > 0 && Fits(b.bits, slots, pos)
    ensures p + Slots(b.dents[p].nameLen) <= pos || pos + slots <= p
  {
    assert Whole(b, p);
    var q := if p <= pos then pos else p;
    var taken := b.bits[q];
  }

  lemma BytesKept(b: Block, e: Entry, pos: nat, b': Block, p: nat, len: nat)
    requires Put(b, e, pos, b')
    requires p + Slots(len) <= |b.bits| && (p + Slots(len) <= pos || pos + Slots(|e.name|) <= p)
    ensures SLOT_LEN * p + len <= |b.bytes| == |b'.bytes|
    ensures b'.bytes[SLOT_LEN * p .. SLOT_LEN * p + len] == b.bytes[SLOT_LEN * p .. SLOT_LEN * p + len]
  {
  }

  lemma InsertedTight(b: Block, n: nat, e: Entry, pos: nat, b': Block)
    requires WF(b, n) && |e.name| > 0 && Fits(b.bits, Slots(|e.name|), pos)
    requires Put(b, e, pos, b') && Tight(b)
    ensures Tight(b')
  {
    forall q: nat | q < |b'.bits| && b'.bits[q]
      ensures exists p: nat :: Covers(b', p, q)
    {
      if pos <= q < pos + Slots(|e.name|) {
        assert Covers(b', pos, q);
      } else {
        var p: nat :| Covers(b, p, q);
        InsertedOther(b, n, e, pos, b', p);
        assert Covers(b', p, q);
      }
    }
  }

  /** Clearing an entry's bits, as f2fs_delete_entry does. */
  method ClearEntry(b: Block, n: nat, pos: nat) returns (b': Block)
    requires WF(b, n) && Live(b, pos)
    ensures WF(b', n) && (Tight(b) ==> Tight(b'))
    ensures forall p: nat :: Live(b', p) <==> Live(b, p) && p != pos
    ensures forall p: nat :: Live(b', p) ==> EntryAt(b', p) == EntryAt(b, p)
    ensures forall q :: 0 <= q < n ==> b'.bits[q] == (b.bits[q] && !Covers(b, pos, q))
  {
    assert Whole(b, pos);
    var slots := Slots(b.dents[pos].nameLen);
    var bits := b.bits;
    var i := 0;
    while i < slots
      invariant 0 <= i <= slots && |bits| == n
      invariant forall q :: 0 <= q < n ==> bits[q] == (b.bits[q] && !(pos <= q < pos + i))
    {
      bits := bits[pos + i := false];
      i := i + 1;
    }
    b' := b.(bits := bits);
    Cleared(b, n, pos, b');
  }

  lemma Cleared(b: Block, n: nat, pos: nat, b': Block)
    requires WF(b, n) && Live(b, pos) && Erased(b, n, pos, b')
    ensures WF(b', n) && (Tight(b) ==> Tight(b'))
    ensures forall p: nat :: Live(b', p) <==> Live(b, p) && p != pos
    ensures forall p: nat :: Live(b', p) ==> EntryAt(b', p) == EntryAt(b, p)
  {
    hide Whole, Live, Tight, Covers;
    forall p: nat | Live(b, p) && p != pos
      ensures Live(b', p) && Whole(b', p) && EntryAt(b', p) == EntryAt(b, p)
    {
      ClearedOther(b, n, pos, b', p);
    }
    forall p: nat | Live(b', p)
      ensures Live(b, p) && p != pos
    {
      ClearedBack(b, n, pos, b', p);
    }
    if Tight(b) { ClearedTight(b, n, pos, b'); }
  }

  ghost predicate Erased(b: Block, n: nat, pos: nat, b': Block) {
    && b' == b.(bits := b'.bits) && |b'.bits| == |b.bits| == n
    && (forall q :: 0 <= q < n ==> b'.bits[q] == (b.bits[q] && !Covers(b, pos, q)))
  }

  lemma ClearedBack(b: Block, n: nat, pos: nat, b': Block, p: nat)
    requires WF(b, n) && Live(b, pos) && Erased(b, n, pos, b') && Live(b', p)
    ensures Live(b, p) && p != pos
  {
    assert Covers(b, pos, pos);
  }

  lemma ClearedTight(b: Block, n: nat, pos: nat, b': Block)
    requires WF(b, n) && Live(b, pos) && Erased(b, n, pos, b') && Tight(b)
    ensures Tight(b')
  {
    forall q: nat | q < n && b'.bits[q]
      ensures exists p: nat :: Covers(b', p, q)
    {
      var p: nat :| Covers(b, p, q);
      ClearedOther(b, n, pos, b', p);
      assert Covers(b', p, q);
    }
  }

  lemma ClearedOther(b: Block, n: nat, pos: nat, b': Block, p: nat)
    requires WF(b, n) && Live(b, pos) && Erased(b, n, pos, b')
    requires Live(b, p) && p != pos
    ensures Live(b', p) && Whole(b', p) && EntryAt(b', p) == EntryAt(b, p)
  {
    assert Whole(b, p) && Covers(b, p, p);
    forall q: nat | p <= q < p + Slots(b.dents[p].nameLen)
      ensures b'.bits[q]
    {
      NotShared(b, n, pos, p, q);
    }
  }

  lemma NotShared(b: Block, n: nat, p: nat, p': nat, q: nat)
    requires WF(b, n) && Covers(b, p', q) && p != p'
    ensures !Covers(b, p, q)
  {
    if Covers(b, p, q) { CoversOnce(b, n, p, p', q); }
  }
}
