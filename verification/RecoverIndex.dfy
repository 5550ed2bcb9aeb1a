/**
  Recovering one logged dnode (do_recover_data and check_index_in_prev_nodes in
  recovery.c): its addresses are taken over one by one, and whoever owned a
  block before loses it.

  A slot is an address field of a node page.  `valid` is the SIT bitmap over the
  main area [lo, hi), `summary` the owner that the SSA records for each block.
  The file is not compressed, so there is no COMPRESS_ADDR.
*/
module RecoverIndex {

  import opened Errno

  datatype Slot = Slot(nid: nat, ofs: nat)

  datatype Addr = Null | New | Blk(b: nat)

  /** What can go wrong below while one address is recovered. */
  datatype Fault =
    | NoFault
    | Reserving(errno: int)   // f2fs_reserve_new_block fails
    | Reading(errno: int)     // the summary, the owner's node or its inode cannot be read
    | Finding                 // the owner's dnode cannot be looked up; the source ignores this

  type Index = map<Slot, Addr>

  predicate Within(lo: nat, hi: nat, a: Addr) { a.Blk? ==> lo <= a.b < hi }

  ghost predicate Owns(index: Index, s: Slot, b: nat) { s in index && index[s] == Blk(b) }

  /** Each set bit belongs to exactly one slot, and each main-area address in a slot has its bit set. */
  ghost predicate Exact(lo: nat, hi: nat, index: Index, valid: set<nat>) {
    && (forall b :: b in valid ==> lo <= b < hi && exists s :: Owns(index, s, b))
    && (forall s, b: nat :: Owns(index, s, b) && lo <= b < hi ==> b in valid)
    && (forall s, t, b: nat :: Owns(index, s, b) && Owns(index, t, b) && lo <= b < hi ==> s == t)
  }

  /** The SSA names the owner of each valid block. */
  ghost predicate Named(index: Index, valid: set<nat>, summary: map<nat, Slot>) {
    forall b :: b in valid ==> b in summary && Owns(index, summary[b], b)
  }

  // ------------------------------------------------ the outcome, stated flatly

  ghost predicate Occurs(logged: seq<Addr>, from: nat, to: nat, a: Addr) {
    exists j :: from <= j < to <= |logged| && logged[j] == a
  }

  /**
    What slot `s` holds once the first `i` logged addresses of dnode `nid` are in
    force: a block goes to the last of them that names it, every other holder of
    it becomes empty, and nothing else changes.
  */
  ghost function AddrAfter(index: Index, nid: nat, logged: seq<Addr>, i: nat, s: Slot): Addr
    requires s in index && i <= |logged|
  {
    if s.nid == nid && s.ofs < i then
      if logged[s.ofs].Blk? && Occurs(logged, s.ofs + 1, i, logged[s.ofs]) then Null else logged[s.ofs]
    else
      if index[s].Blk? && Occurs(logged, 0, i, index[s]) then Null else index[s]
  }

  ghost predicate After(index: Index, nid: nat, logged: seq<Addr>, i: nat, now: Index)
    requires i <= |logged|
  {
    && now.Keys == index.Keys
    && (forall s :: s in index ==> now[s] == AddrAfter(index, nid, logged, i, s))
  }

  ghost predicate Distinct(logged: seq<Addr>) {
    forall i, j :: 0 <= i < j < |logged| && logged[i].Blk? ==> logged[i] != logged[j]
  }

  /** The dnode reads as it was logged. */
  ghost predicate Restored(now: Index, nid: nat, logged: seq<Addr>) {
    forall i: nat :: i < |logged| ==> Slot(nid, i) in now && now[Slot(nid, i)] == logged[i]
  }

  lemma RestoredIff(index: Index, nid: nat, logged: seq<Addr>, now: Index)
    requires forall i: nat :: i < |logged| ==> Slot(nid, i) in index
    requires After(index, nid, logged, |logged|, now)
    ensures Restored(now, nid, logged) <==> Distinct(logged)
  {
    if Restored(now, nid, logged) {
      forall i: nat, j: nat | i < j < |logged| && logged[i].Blk?
        ensures logged[i] != logged[j]
      {
        assert now[Slot(nid, i)] == AddrAfter(index, nid, logged, |logged|, Slot(nid, i));
      }
    }
    if Distinct(logged) {
      forall i: nat | i < |logged|
        ensures Slot(nid, i) in now && now[Slot(nid, i)] == logged[i]
      {
        assert now[Slot(nid, i)] == AddrAfter(index, nid, logged, |logged|, Slot(nid, i));
      }
    }
  }

  // ------------------------------------------------------- one slot changes

  /** Slot `s` is overwritten by `a`, and the bitmap follows. */
  ghost predicate Moved(lo: nat, hi: nat, index: Index, valid: set<nat>, s: Slot, a: Addr, valid': set<nat>)
    requires s in index
  {
    forall b {:trigger b in valid'} ::
      b in valid' <==> (b in valid && index[s] != Blk(b)) || a == Blk(b)
  }

  lemma MovedExact(lo: nat, hi: nat, index: Index, valid: set<nat>, s: Slot, a: Addr, valid': set<nat>)
    requires Exact(lo, hi, index, valid) && s in index
    requires Moved(lo, hi, index, valid, s, a, valid')
    requires a.Blk? ==> lo <= a.b < hi && a.b !in valid
    ensures Exact(lo, hi, index[s := a], valid')
  {
    var now := index[s := a];
    assert forall x, b: nat :: Owns(now, x, b) <==> if x == s then a == Blk(b) else Owns(index, x, b);
    forall b | b in valid'
      ensures lo <= b < hi && exists x :: Owns(now, x, b)
    {
      if a == Blk(b) {
        assert Owns(now, s, b);
      } else {
        var x :| Owns(index, x, b);
        assert Owns(now, x, b);
      }
    }
    forall x, b: nat | Owns(now, x, b) && lo <= b < hi
      ensures b in valid'
    {
      if x != s {
        assert Owns(index, x, b);
        assert index[s] == Blk(b) ==> Owns(index, s, b);
      }
    }
  }

  lemma MovedNamed(lo: nat, hi: nat, index: Index, valid: set<nat>, summary: map<nat, Slot>,
                   s: Slot, a: Addr, valid': set<nat>, summary': map<nat, Slot>)
    requires Named(index, valid, summary) && s in index
    requires Moved(lo, hi, index, valid, s, a, valid')
    requires summary' == if a.Blk? then summary[a.b := s] else summary
    ensures Named(index[s := a], valid', summary')
  {
    var now := index[s := a];
    forall b | b in valid'
      ensures b in summary' && Owns(now, summary'[b], b)
    {
      if a != Blk(b) {
        assert Owns(index, summary[b], b);
        assert summary[b] != s;
      }
    }
  }

  // --------------------------------------------------------- one index taken

  /** An index whose logged address is already in place. */
  lemma StepKeep(lo: nat, hi: nat, index: Index, valid: set<nat>, was: Index, nid: nat, logged: seq<Addr>, i: nat)
    requires Exact(lo, hi, index, valid)
    requires i < |logged| && Slot(nid, i) in index && After(was, nid, logged, i, index)
    requires index[Slot(nid, i)] == logged[i] && Within(lo, hi, logged[i])
    ensures After(was, nid, logged, i + 1, index)
  {
    forall x | x in was
      ensures index[x] == AddrAfter(was, nid, logged, i + 1, x)
    {
      StepSlot(was, nid, logged, i, x);
      if x != Slot(nid, i) && index[x].Blk? && index[x] == logged[i] {
        assert Owns(index, x, logged[i].b) && Owns(index, Slot(nid, i), logged[i].b);
        assert false;
      }
    }
  }

  /** How one more logged address changes what is expected of a slot. */
  lemma StepSlot(was: Index, nid: nat, logged: seq<Addr>, i: nat, x: Slot)
    requires i < |logged| && x in was
    ensures var before := AddrAfter(was, nid, logged, i, x);
            AddrAfter(was, nid, logged, i + 1, x) ==
            if x == Slot(nid, i) then logged[i]
            else if before.Blk? && before == logged[i] then Null
            else before
  {
    var held := if x.nid == nid && x.ofs < i then logged[x.ofs] else was[x];
    var from := if x.nid == nid && x.ofs < i then x.ofs + 1 else 0;
    assert Occurs(logged, from, i + 1, held) <==> Occurs(logged, from, i, held) || logged[i] == held;
  }

  /** An index whose logged address nobody holds any more is overwritten. */
  lemma StepPut(was: Index, nid: nat, logged: seq<Addr>, i: nat, mid: Index, now: Index)
    requires i < |logged| && Slot(nid, i) in was && mid.Keys == was.Keys
    requires forall x :: x in was && x != Slot(nid, i) ==>
               var before := AddrAfter(was, nid, logged, i, x);
               mid[x] == if before.Blk? && before == logged[i] then Null else before
    requires now == mid[Slot(nid, i) := logged[i]]
    ensures After(was, nid, logged, i + 1, now)
  {
    forall x | x in was
      ensures now[x] == AddrAfter(was, nid, logged, i + 1, x)
    {
      StepSlot(was, nid, logged, i, x);
    }
  }

  // ------------------------------------------------------ when it goes through

  /**
    Index `k` passes: both addresses lie in the main area, and the slot that the
    summary names for the block is one the recovered dnode has as well.
  */
  ghost predicate Passes(lo: nat, hi: nat, index: Index, valid: set<nat>, summary: map<nat, Slot>,
                         nid: nat, logged: seq<Addr>, k: nat)
  {
    && k < |logged| && Slot(nid, k) in index
    && (forall b: nat :: index[Slot(nid, k)] == Blk(b) || logged[k] == Blk(b) ==> lo <= b < hi)
    && (logged[k].Blk? && logged[k].b in valid ==>
          logged[k].b in summary && summary[logged[k].b].ofs < |logged|)
  }

  /** The fault strikes an operation that recovering address `dest` into `here` needs. */
  ghost predicate Trips(index: Index, valid: set<nat>, here: Slot, dest: Addr, fault: Fault)
    requires here in index
  {
    && index[here] != dest
    && match fault
       case NoFault => false
       case Reserving(_) => dest == New || (dest.Blk? && index[here] == Null)
       case Reading(_) => dest.Blk? && dest.b in valid
       case Finding => dest.Blk? && dest.b in valid
  }

  lemma KeepPasses(lo: nat, hi: nat, index: Index, valid: set<nat>, summary: map<nat, Slot>,
                   nid: nat, logged: seq<Addr>, k: nat)
    requires Exact(lo, hi, index, valid) && Named(index, valid, summary)
    requires k < |logged| && Slot(nid, k) in index && index[Slot(nid, k)] == logged[k] && Within(lo, hi, logged[k])
    ensures Passes(lo, hi, index, valid, summary, nid, logged, k)
  {
    if logged[k].Blk? && logged[k].b in valid {
      assert Owns(index, Slot(nid, k), logged[k].b) && Owns(index, summary[logged[k].b], logged[k].b);
    }
  }

  /** Taking over the first `i` addresses does not change whether the next one passes. */
  lemma PassesLater(lo: nat, hi: nat, nid: nat, logged: seq<Addr>, i: nat,
                    was: Index, valid0: set<nat>, summary0: map<nat, Slot>,
                    now: Index, valid: set<nat>, summary: map<nat, Slot>)
    requires i < |logged| && Slot(nid, i) in was && After(was, nid, logged, i, now)
    requires Exact(lo, hi, was, valid0) && Named(was, valid0, summary0)
    requires Exact(lo, hi, now, valid) && Named(now, valid, summary)
    requires forall k: nat :: k < i ==> Passes(lo, hi, was, valid0, summary0, nid, logged, k)
    ensures Passes(lo, hi, now, valid, summary, nid, logged, i)
            <==> Passes(lo, hi, was, valid0, summary0, nid, logged, i)
  {
    var here := Slot(nid, i);
    assert now[here] == AddrAfter(was, nid, logged, i, here);
    if now[here] != was[here] {
      var k: nat :| k < i && logged[k] == was[here];
      assert Passes(lo, hi, was, valid0, summary0, nid, logged, k);
    }
    if logged[i].Blk? && Within(lo, hi, logged[i]) {
      OwnerLater(lo, hi, nid, logged, i, was, valid0, summary0, now, valid, summary);
    }
  }

  lemma OwnerLater(lo: nat, hi: nat, nid: nat, logged: seq<Addr>, i: nat,
                   was: Index, valid0: set<nat>, summary0: map<nat, Slot>,
                   now: Index, valid: set<nat>, summary: map<nat, Slot>)
    requires i < |logged| && After(was, nid, logged, i, now)
    requires Exact(lo, hi, was, valid0) && Named(was, valid0, summary0)
    requires Exact(lo, hi, now, valid) && Named(now, valid, summary)
    requires forall k: nat :: k < i ==> Passes(lo, hi, was, valid0, summary0, nid, logged, k)
    requires logged[i].Blk? && lo <= logged[i].b < hi
    ensures var b := logged[i].b;
            (b in valid ==> summary[b].ofs < |logged|) <==> (b in valid0 ==> summary0[b].ofs < |logged|)
  {
    var b := logged[i].b;
    if Occurs(logged, 0, i, Blk(b)) {
      var k: nat :| k < i && logged[k] == Blk(b);
      assert Passes(lo, hi, was, valid0, summary0, nid, logged, k);
      if b in valid {
        var o := summary[b];
        assert Owns(now, o, b);
        assert now[o] == AddrAfter(was, nid, logged, i, o);
      }
    } else {
      if b in valid {
        var o := summary[b];
        assert Owns(now, o, b);
        assert now[o] == AddrAfter(was, nid, logged, i, o);
        assert Owns(was, o, b);
        assert Owns(was, summary0[b], b);
      }
      if b in valid0 && b !in valid {
        var o := summary0[b];
        assert Owns(was, o, b);
        assert !Owns(now, o, b);
        assert now[o] == AddrAfter(was, nid, logged, i, o);
      }
    }
  }

  // ------------------------------------------------------------- the volume

  class Volume {
    const lo: nat
    const hi: nat
    var index: Index
    var valid: set<nat>
    var summary: map<nat, Slot>

    ghost predicate Sound()
      reads this
    {
      Exact(lo, hi, index, valid) && forall b: nat :: lo <= b < hi ==> b in summary
    }

    ghost predicate SummarySound()
      reads this
    {
      Named(index, valid, summary)
    }

    /** f2fs_truncate_data_blocks_range for one slot. */
    method Truncate(s: Slot)
      requires Sound() && s in index
      modifies this
      ensures Sound() && index == old(index)[s := Null] && valid <= old(valid)
      ensures old(index[s]).Blk? ==> old(index[s]).b !in valid
      ensures forall b :: b in old(valid) && old(index[s]) != Blk(b) ==> b in valid
      ensures old(SummarySound()) ==> SummarySound()
      ensures summary == old(summary)
    {
      var a := index[s];
      if a.Blk? { valid := valid - {a.b}; }
      MovedExact(lo, hi, index, old(valid), s, Null, valid);
      if SummarySoundWith(old(valid)) {
        MovedNamed(lo, hi, index, old(valid), summary, s, Null, valid, summary);
      }
      index := index[s := Null];
    }

    ghost predicate SummarySoundWith(bits: set<nat>)
      reads this
    {
      Named(index, bits, summary)
    }

    /** f2fs_reserve_new_block on an empty slot. */
    method Reserve(s: Slot)
      requires Sound() && s in index && index[s] == Null
      modifies this`index
      ensures Sound() && index == old(index)[s := New]
      ensures old(SummarySound()) ==> SummarySound()
    {
      MovedExact(lo, hi, index, valid, s, New, valid);
      if SummarySound() {
        MovedNamed(lo, hi, index, valid, summary, s, New, valid, summary);
      }
      index := index[s := New];
    }

    /** f2fs_replace_block: slot `s`, which held `src`, takes block `dest`. */
    method Replace(s: Slot, src: Addr, dest: nat)
      requires Sound() && s in index && lo <= dest < hi && dest !in valid
      requires index[s] == src || (src == Null && index[s] == New)
      modifies this
      ensures Sound() && index == old(index)[s := Blk(dest)]
      ensures valid == (old(valid) - (if src.Blk? then {src.b} else {})) + {dest}
      ensures summary == old(summary)[dest := s]
      ensures old(SummarySound()) ==> SummarySound()
    {
      var bits := valid + {dest};
      if src.Blk? { bits := bits - {src.b}; }
      assert src.Blk? ==> Owns(index, s, src.b);
      MovedExact(lo, hi, index, valid, s, Blk(dest), bits);
      if SummarySound() {
        MovedNamed(lo, hi, index, valid, summary, s, Blk(dest), bits, summary[dest := s]);
      }
      index, valid, summary := index[s := Blk(dest)], bits, summary[dest := s];
    }

    /**
      check_index_in_prev_nodes, and the look at the bitmap that follows it: on
      success nobody holds `dest` any more and only its holder has changed.
      `n` is the number of addresses in the dnode being recovered, although
      the owner named by the summary may be a node of another size.
    */
    method ReleaseOwner(dest: nat, n: nat, fault: Fault) returns (r: Result)
      requires Sound() && lo <= dest < hi
      modifies this
      ensures Sound() && (old(SummarySound()) ==> SummarySound())
      ensures summary == old(summary) && index.Keys == old(index.Keys)
      ensures forall x :: x in index ==> index[x] == old(index)[x] || (index[x] == Null && old(index)[x] == Blk(dest))
      ensures r.Ok? ==> dest !in valid && forall x :: x in index ==> index[x] != Blk(dest)
      ensures r.Err? ==> index == old(index) && valid == old(valid)
      ensures old(SummarySound()) ==>
                (r.Ok? <==> (dest in old(valid) ==>
                               old(summary)[dest].ofs < n && !fault.Reading? && !fault.Finding?))
      ensures dest in old(valid) && fault.Reading? ==> r == Err(fault.errno)
      ensures forall b :: b in old(valid) && b != dest ==> b in valid
      ensures valid <= old(valid)
    {
      r := Ok;
      ghost var before := index;
      if dest in valid {
        if fault.Reading? {
          return Err(fault.errno);
        }
        var h := summary[dest];
        if h.ofs >= n {
          return Err(EFSCORRUPTED);
        }
        if h in index && index[h] == Blk(dest) && fault != Finding {
          Truncate(h);
        }
        if dest in valid {
          return Err(EFSCORRUPTED);
        }
      }
      forall x | x in index
        ensures index[x] != Blk(dest)
      {
        assert index[x] == Blk(dest) ==> Owns(index, x, dest);
      }
    }

    /** One turn of the loop in do_recover_data. */
    method RecoverOne(nid: nat, logged: seq<Addr>, i: nat, fault: Fault, ghost was: Index) returns (r: Result)
      requires Sound() && i < |logged| && Slot(nid, i) in index
      requires After(was, nid, logged, i, index)
      modifies this
      ensures Sound() && (old(SummarySound()) ==> SummarySound())
      ensures index.Keys == old(index.Keys)
      ensures r.Ok? ==> After(was, nid, logged, i + 1, index)
      ensures old(SummarySound()) ==>
                (r.Ok? <==> old(Passes(lo, hi, index, valid, summary, nid, logged, i)) &&
                            !old(Trips(index, valid, Slot(nid, i), logged[i], fault)))
      // What a failure leaves behind: the slot emptied or reserved for what did not come, and nothing else.
      ensures r.Err? ==>
                var here, range := Slot(nid, i), forall b: nat ::
                      old(index)[Slot(nid, i)] == Blk(b) || logged[i] == Blk(b) ==> lo <= b < hi;
                index == if range && logged[i] == New then old(index)[here := Null]
                         else if range && logged[i].Blk? && old(index)[here] == Null && !fault.Reserving? then
                           old(index)[here := New]
                         else old(index)
    {
      hide Exact, Named, AddrAfter;
      var here := Slot(nid, i);
      var src := index[here];
      var dest := logged[i];
      if !Within(lo, hi, src) || !Within(lo, hi, dest) {
        return Err(EFSCORRUPTED);
      }
      if src == dest {
        if SummarySound() {
          KeepPasses(lo, hi, index, valid, summary, nid, logged, i);
        }
        StepKeep(lo, hi, index, valid, was, nid, logged, i);
        return Ok;
      }
      match dest {
        case Null =>
          Truncate(here);
          StepPut(was, nid, logged, i, old(index), index);
        case New =>
          Truncate(here);
          if fault.Reserving? {
            return Err(fault.errno);
          }
          Reserve(here);
          StepPut(was, nid, logged, i, old(index), index);
        case Blk(b) =>
          if src == Null {
            if fault.Reserving? {
              return Err(fault.errno);
            }
            Reserve(here);
          }
          r := ReleaseOwner(b, |logged|, fault);
          if r.Err? {
            return;
          }
          ghost var mid := index;
          Replace(here, src, b);
          StepPut(was, nid, logged, i, mid, index);
      }
      r := Ok;
    }

    /**
      Step 3 of do_recover_data for the dnode `nid`, whose logged copy holds
      `logged`.
    */
    method RecoverIndices(nid: nat, logged: seq<Addr>, faults: map<nat, Fault>) returns (r: Result)
      requires Sound() && forall k: nat :: k < |logged| ==> Slot(nid, k) in index
      modifies this
      // Ownership stays exact, also when recovery gives up half way.
      ensures Sound() && (old(SummarySound()) ==> SummarySound())
      ensures index.Keys == old(index.Keys)
      // Success fixes every slot of the volume ...
      ensures r.Ok? ==> After(old(index), nid, logged, |logged|, index)
      // ... and gives back the logged dnode exactly when no block is logged twice.
      ensures r.Ok? ==> (Restored(index, nid, logged) <==> Distinct(logged))
      // With nothing failing below, success is decided by the state before.
      ensures old(SummarySound()) && faults == map[] ==>
                (r.Ok? <==> forall k: nat :: k < |logged| ==>
                              Passes(lo, hi, old(index), old(valid), old(summary), nid, logged, k))
    {
      var i: nat := 0;
      ghost var decided := SummarySound() && faults == map[];
      while i < |logged|
        invariant i <= |logged| && Sound() && (old(SummarySound()) ==> SummarySound())
        invariant index.Keys == old(index.Keys)
        invariant After(old(index), nid, logged, i, index)
        invariant decided ==> forall k: nat :: k < i ==>
                    Passes(lo, hi, old(index), old(valid), old(summary), nid, logged, k)
      {
        assert Slot(nid, i) in index;
        if decided {
          PassesLater(lo, hi, nid, logged, i, old(index), old(valid), old(summary), index, valid, summary);
        }
        ghost var passes := Passes(lo, hi, index, valid, summary, nid, logged, i);
        r := RecoverOne(nid, logged, i, if i in faults then faults[i] else NoFault, old(index));
        assert decided ==> (r.Ok? <==> passes);
        if r.Err? {
          return;
        }
        i := i + 1;
      }
      RestoredIff(old(index), nid, logged, index);
      r := Ok;
    }
  }

  /**
    The size check is made against the dnode being recovered, not the one that
    owns the block: a healthy volume whose owner slot lies past that size is
    refused as corrupted.
  */
  lemma OwnerInLargerNodeRefused()
    ensures var index := map[Slot(1, 0) := Null, Slot(2, 1) := Blk(7)];
            && Exact(0, 10, index, {7}) && Named(index, {7}, map[7 := Slot(2, 1)])
            && Within(0, 10, Blk(7)) && Distinct([Blk(7)])
            && !Passes(0, 10, index, {7}, map[7 := Slot(2, 1)], 1, [Blk(7)], 0)
  {
    var index := map[Slot(1, 0) := Null, Slot(2, 1) := Blk(7)];
    assert Owns(index, Slot(2, 1), 7);
  }
}
