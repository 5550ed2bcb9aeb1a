/**
  Discard windows (swod.c): segments are divided into groups, a group may hold
  back one window of its segments, and a held window may be parked when its time
  is up.  Three segment maps and three counters mirror the groups.

  Deadlines, readiness and pressure are inputs here, and `SwodWindow` has the
  search for a window; what becomes of groups, maps and counters is the model.
*/
module Swod {

  import Arith
  import opened SwodWindow
  import opened Widths

  datatype State = Normal | Held | Parked

  /** swod_group_hint; the window is [off, off + len) within the group. */
  datatype Group = Group(state: State, action: Action, wce: bool, off: nat, len: nat, q: nat, l: nat, score: nat)

  const CLEAR: Group := Group(Normal, Bypass, false, 0, 0, 0, 0, 0)

  datatype Reason = Success | Timeout | Pressure

  // ------------------------------------------------------------- segments and groups

  function GroupOf(win: nat, segno: nat): nat
    requires win > 0
  {
    segno / win
  }

  function OffsetOf(win: nat, segno: nat): nat
    requires win > 0
  {
    segno % win
  }

  lemma SegmentAt(win: nat, gid: nat, o: nat)
    requires o < win
    ensures GroupOf(win, gid * win + o) == gid && OffsetOf(win, gid * win + o) == o
  {
    Arith.DivMod(gid, win, o);
  }

  lemma SegmentIs(win: nat, segno: nat)
    requires win > 0
    ensures segno == GroupOf(win, segno) * win + OffsetOf(win, segno) && OffsetOf(win, segno) < win
  {
  }

  function Range(from: nat, n: nat): (r: set<nat>)
    ensures forall s: nat :: s in r <==> from <= s < from + n
  {
    if n == 0 then {} else Range(from, n - 1) + {from + n - 1}
  }

  /** A range within a group, by group and offset. */
  lemma RangeIn(win: nat, gid: nat, o: nat, n: nat, segno: nat)
    requires win > 0 && o + n <= win
    ensures segno in Range(gid * win + o, n) <==> GroupOf(win, segno) == gid && o <= OffsetOf(win, segno) < o + n
  {
    SegmentIs(win, segno);
    if gid * win + o <= segno < gid * win + o + n {
      SegmentAt(win, gid, segno - gid * win);
    }
  }

  // --------------------------------------------------------------- maps and counters

  datatype Mark = Hold | Park | Target

  /** Which groups a map or counter is about. */
  predicate Marked(m: Mark, g: Group) {
    match m
    case Hold => g.state == Held
    case Park => g.state == Parked
    case Target => g.wce
  }

  predicate InWindow(g: Group, o: nat) { g.off <= o < g.off + g.len }

  /** The map is the union of the windows of the groups marked. */
  ghost predicate Mirrors(win: nat, groups: seq<Group>, bits: set<nat>, m: Mark)
    requires win > 0
  {
    forall s: nat :: s in bits <==>
      GroupOf(win, s) < |groups| && Marked(m, groups[GroupOf(win, s)])
      && InWindow(groups[GroupOf(win, s)], OffsetOf(win, s))
  }

  function Count(groups: seq<Group>, m: Mark): nat {
    if groups == [] then 0
    else Count(groups[..|groups| - 1], m) + if Marked(m, groups[|groups| - 1]) then 1 else 0
  }

  lemma {:induction false} CountUpdate(groups: seq<Group>, m: Mark, gid: nat, g: Group)
    requires gid < |groups|
    ensures Count(groups[gid := g], m) ==
            Count(groups, m) - (if Marked(m, groups[gid]) then 1 else 0) + (if Marked(m, g) then 1 else 0)
  {
    var last := |groups| - 1;
    var next := groups[gid := g];
    if gid < last {
      CountUpdate(groups[..last], m, gid, g);
      assert next[..last] == groups[..last][gid := g];
    } else {
      assert next[..last] == groups[..last];
    }
  }

  lemma {:induction false} CountSome(groups: seq<Group>, m: Mark, gid: nat)
    requires gid < |groups| && Marked(m, groups[gid])
    ensures Count(groups, m) > 0
  {
    var last := |groups| - 1;
    if gid < last { CountSome(groups[..last], m, gid); }
  }

  lemma {:induction false} CountNone(groups: seq<Group>, m: Mark)
    ensures Count(groups, m) == 0 <==> forall i :: 0 <= i < |groups| ==> !Marked(m, groups[i])
  {
    if groups != [] {
      var last := |groups| - 1;
      CountNone(groups[..last], m);
      if Count(groups, m) == 0 {
        forall i | 0 <= i < |groups|
          ensures !Marked(m, groups[i])
        {
          if i < last { assert !Marked(m, groups[..last][i]); }
        }
      }
    }
  }

  /** A group is either clear of any window, or has one inside the group; parked windows are no targets. */
  predicate Sound(g: Group, nsegs: nat) {
    && (g.state == Normal ==> !g.wce)
    && (g.state != Normal ==> 0 < g.len && g.off + g.len <= nsegs)
    && (g.state == Parked ==> !g.wce)
  }

  /** Taking a group's segments out of a map. */
  lemma MirrorClear(win: nat, groups: seq<Group>, bits: set<nat>, m: Mark, gid: nat, n: nat, g: Group, bits': set<nat>)
    requires win > 0 && Mirrors(win, groups, bits, m) && gid < |groups| && n <= win
    requires groups[gid].state != Normal ==> groups[gid].off + groups[gid].len <= n
    requires groups[gid].state == Normal ==> !groups[gid].wce
    requires !Marked(m, g) && bits' == bits - Range(gid * win, n)
    ensures Mirrors(win, groups[gid := g], bits', m)
  {
    hide GroupOf, OffsetOf, Range;
    forall s: nat
      ensures s in Range(gid * win, n) <==> GroupOf(win, s) == gid && OffsetOf(win, s) < n
    {
      RangeIn(win, gid, 0, n, s);
    }
  }

  /** Putting a window into a map that has nothing of the group. */
  lemma MirrorSet(win: nat, groups: seq<Group>, bits: set<nat>, m: Mark, gid: nat, g: Group, bits': set<nat>)
    requires win > 0 && Mirrors(win, groups, bits, m) && gid < |groups|
    requires !Marked(m, groups[gid]) && Marked(m, g) && g.off + g.len <= win
    requires bits' == bits + Range(gid * win + g.off, g.len)
    ensures Mirrors(win, groups[gid := g], bits', m)
  {
    hide GroupOf, OffsetOf, Range;
    forall s: nat
      ensures s in Range(gid * win + g.off, g.len) <==>
              GroupOf(win, s) == gid && g.off <= OffsetOf(win, s) < g.off + g.len
    {
      RangeIn(win, gid, g.off, g.len, s);
    }
  }

  /** Taking just the window out. */
  lemma MirrorUnset(win: nat, groups: seq<Group>, bits: set<nat>, m: Mark, gid: nat, g: Group, bits': set<nat>)
    requires win > 0 && Mirrors(win, groups, bits, m) && gid < |groups| && groups[gid].off + groups[gid].len <= win
    requires !Marked(m, g) && bits' == bits - Range(gid * win + groups[gid].off, groups[gid].len)
    ensures Mirrors(win, groups[gid := g], bits', m)
  {
    hide GroupOf, OffsetOf, Range;
    var w := groups[gid];
    forall s: nat
      ensures s in Range(gid * win + w.off, w.len) <==>
              GroupOf(win, s) == gid && w.off <= OffsetOf(win, s) < w.off + w.len
    {
      RangeIn(win, gid, w.off, w.len, s);
    }
  }

  // ------------------------------------------------------------------- the controller

  /** What is measured: the regime, per group whether it is ready, expired or fit to be parked, and the hints. */
  datatype View = View(
    blocked: bool, maxLen: nat -> nat, ready: nat -> bool, expired: nat -> bool,
    parkable: nat -> bool, score: nat -> nat, nowQ: nat -> nat, nowL: nat -> nat, hints: Hints)

  class Ctrl {
    const nrSegs: nat
    const win: nat          // segments per group
    var maxHeld: nat        // swod_max_held_groups, which may be lowered at any time
    var groups: seq<Group>
    var hold: set<nat>
    var park: set<nat>
    var wce: set<nat>
    var nrHeld: nat
    var nrParked: nat
    var nrWce: nat

    /** swod_park_budget. */
    function Budget(): (r: nat)
      reads this
      ensures r >= 4 && maxHeld <= 2 * r + 1 && (r == 4 || 2 * r <= maxHeld)
    {
      if maxHeld / 2 > 4 then maxHeld / 2 else 4
    }

    function First(gid: nat): nat { gid * win }

    /** swod_group_nsegs. */
    function NSegs(gid: nat): nat {
      if First(gid) >= nrSegs then 0 else if win < nrSegs - First(gid) then win else nrSegs - First(gid)
    }

    /** The groups share out the segments: each lies in one, among its first NSegs. */
    lemma NSegsHas(s: nat)
      requires win > 0
      ensures s < nrSegs <==> OffsetOf(win, s) < NSegs(GroupOf(win, s))
      ensures s < nrSegs ==> GroupOf(win, s) < (nrSegs + win - 1) / win
    {
      Arith.Division(s, win);
      Arith.NonNeg(GroupOf(win, s), win);
      if s < nrSegs {
        Arith.DivLe(s + win, nrSegs + win - 1, win);
        Arith.DivMod(GroupOf(win, s) + 1, win, OffsetOf(win, s));
        Arith.Next(GroupOf(win, s), win);
      }
    }

    ghost predicate Mirrored()
      requires win > 0
      reads this
    {
      && Mirrors(win, groups, hold, Hold) && Mirrors(win, groups, park, Park) && Mirrors(win, groups, wce, Target)
      && nrHeld == Count(groups, Hold) && nrParked == Count(groups, Park) && nrWce == Count(groups, Target)
    }

    ghost predicate AllSound()
      reads this
    {
      forall gid: nat :: gid < |groups| ==> Sound(groups[gid], NSegs(gid))
    }

    ghost predicate Valid()
      reads this
    {
      win > 0 && maxHeld > 0 && AllSound() && Mirrored()
    }

    /** No more is held or parked than the limits allow, which is so until a limit is lowered. */
    predicate Limited()
      reads this
    {
      nrHeld <= maxHeld && nrParked <= Budget()
    }

    /** No more is held or parked than the limits allow, or else no more than before. */
    twostate predicate Within()
      reads this
    {
      && (nrHeld <= maxHeld || nrHeld <= old(nrHeld))
      && (nrParked <= Budget() || nrParked <= old(nrParked))
    }

    /** Writing swod_max_held_groups in sysfs. */
    method SetMaxHeld(n: nat) returns (ok: bool)
      requires Valid()
      modifies this`maxHeld
      ensures Valid() && (ok <==> 0 < n < U32) && maxHeld == if ok then n else old(maxHeld)
    {
      ok := 0 < n < U32;
      if ok { maxHeld := n; }
    }

    /** f2fs_swod_init, with cleared memory. */
    constructor (nrSegs: nat, win: nat, maxHeld: nat)
      requires win > 0 && maxHeld > 0
      ensures Valid() && Limited() && hold == {} && park == {} && wce == {}
      ensures this.nrSegs == nrSegs && this.win == win && this.maxHeld == maxHeld
      ensures |groups| == (nrSegs + win - 1) / win && forall gid: nat :: gid < |groups| ==> groups[gid] == CLEAR
    {
      this.nrSegs, this.win, this.maxHeld := nrSegs, win, maxHeld;
      groups := seq((nrSegs + win - 1) / win, _ => CLEAR);
      hold, park, wce, nrHeld, nrParked, nrWce := {}, {}, {}, 0, 0, 0;
      new;
      CountNone(groups, Hold);
      CountNone(groups, Park);
      CountNone(groups, Target);
    }

    /** swod_clear_group_locked. */
    method ClearGroup(gid: nat)
      requires Valid() && gid < |groups|
      modifies this`groups, this`hold, this`park, this`wce, this`nrHeld, this`nrParked, this`nrWce
      ensures Valid() && groups == old(groups)[gid := CLEAR]
      ensures nrHeld == old(nrHeld) - if old(groups)[gid].state == Held then 1 else 0
      ensures nrParked == old(nrParked) - if old(groups)[gid].state == Parked then 1 else 0
    {
      hide Mirrors, Count, Range;
      var g := groups[gid];
      Counters(groups, gid, CLEAR);
      if g.state == Held && nrHeld > 0 {
        nrHeld := nrHeld - 1;
      } else if g.state == Parked && nrParked > 0 {
        nrParked := nrParked - 1;
      }
      if g.wce && nrWce > 0 {
        nrWce := nrWce - 1;
      }
      var n := NSegs(gid);
      assert Sound(g, n);
      hold := ClearBits(hold, First(gid), n);
      park := ClearBits(park, First(gid), n);
      wce := ClearBits(wce, First(gid), n);
      MirrorClear(win, groups, old(hold), Hold, gid, n, CLEAR, hold);
      MirrorClear(win, groups, old(park), Park, gid, n, CLEAR, park);
      MirrorClear(win, groups, old(wce), Target, gid, n, CLEAR, wce);
      groups := groups[gid := CLEAR];
    }

    /** swod_install_candidate. */
    method Install(gid: nat, c: Candidate, v: View)
      requires Valid() && gid < |groups| && groups[gid].state == Normal
      requires c.Candidate? && 0 < c.len && c.off + c.len <= NSegs(gid)
      modifies this`groups, this`hold, this`park, this`wce, this`nrHeld, this`nrParked, this`nrWce
      ensures Valid()
      ensures groups == old(groups)[gid := HeldFrom(c, v)]
      ensures groups[gid].wce <==>
                c.action == CompletionHold && c.q % 0x1_0000 >= v.hints.wceQ && c.l % 0x1_0000 <= v.hints.wceL
      ensures nrHeld == old(nrHeld) + 1 && nrParked == old(nrParked)
    {
      hide Mirrors, Count, Range;
      var g := HeldFrom(c, v);
      Counters(groups, gid, g);
      assert Sound(groups[gid], NSegs(gid));
      if g.wce {
        nrWce := nrWce + 1;
      }
      nrHeld := nrHeld + 1;
      hold := SetBits(hold, First(gid) + c.off, c.len);
      park := ClearBits(park, First(gid) + c.off, c.len);
      MirrorSet(win, groups, old(hold), Hold, gid, g, hold);
      Elsewhere(win, groups, old(park), Park, gid, g, First(gid) + c.off, c.len, park);
      if g.wce {
        wce := SetBits(wce, First(gid) + c.off, c.len);
        MirrorSet(win, groups, old(wce), Target, gid, g, wce);
      } else {
        wce := ClearBits(wce, First(gid) + c.off, c.len);
        Elsewhere(win, groups, old(wce), Target, gid, g, First(gid) + c.off, c.len, wce);
      }
      groups := groups[gid := g];
    }

    /** The parked group with the lowest score, the first of those; or none. */
    method WeakestParked() returns (r: nat)
      ensures r <= |groups|
      ensures r < |groups| ==> FirstLowest(groups, r)
      ensures r == |groups| ==> forall i: nat :: i < |groups| ==> groups[i].state != Parked
    {
      r := |groups|;
      for i := 0 to |groups|
        invariant r == |groups| || r < i
        invariant r < |groups| ==> groups[r].state == Parked
        invariant r < |groups| ==> forall j: nat :: j < i && groups[j].state == Parked ==>
                    groups[r].score <= groups[j].score && (j < r ==> groups[r].score < groups[j].score)
        invariant r == |groups| ==> forall j: nat :: j < i ==> groups[j].state != Parked
      {
        if groups[i].state == Parked && (r == |groups| || groups[i].score < groups[r].score) {
          r := i;
        }
      }
    }

    /** swod_try_park_group_locked: a full parking lot gives way only to a higher score. */
    method TryPark(gid: nat, why: Reason, v: View) returns (ok: bool)
      requires Valid() && gid < |groups|
      modifies this`groups, this`hold, this`park, this`wce, this`nrHeld, this`nrParked, this`nrWce
      ensures Valid() && |groups| == old(|groups|)
      ensures !ok ==> groups == old(groups)
      ensures ok <==> MayPark(old(groups), old(nrParked) >= Budget(), gid, why, v)
      ensures ok ==> groups[gid] == ParkedFrom(old(groups)[gid], gid, v) && nrHeld == old(nrHeld) - 1
      ensures nrHeld + nrParked <= old(nrHeld) + old(nrParked) && Within()
      ensures ok && old(nrParked) < Budget() ==> groups == old(groups)[gid := groups[gid]]
      ensures ok && old(nrParked) >= Budget() ==>
                exists w: nat :: w < |groups| && Displaced(old(groups), w, v.score(gid)) &&
                  groups == old(groups)[w := CLEAR][gid := groups[gid]]
    {
      hide Mirrors, Count, Range;
      if groups[gid].state != Held || why == Success || !v.parkable(gid) {
        return false;
      }
      var score := v.score(gid);
      if nrParked >= Budget() {
        var w := WeakestParked();
        if w == |groups| || score <= groups[w].score {
          return false;
        }
        assert Displaced(groups, w, score);
        ClearGroup(w);
      }
      Park1(gid, v);
      ok := true;
    }

    /** The end of swod_try_park_group_locked: the window changes from held to parked. */
    method Park1(gid: nat, v: View)
      requires Valid() && gid < |groups| && groups[gid].state == Held
      modifies this`groups, this`hold, this`park, this`wce, this`nrHeld, this`nrParked, this`nrWce
      ensures Valid() && groups == old(groups)[gid := ParkedFrom(old(groups)[gid], gid, v)]
      ensures nrHeld == old(nrHeld) - 1 && nrParked == old(nrParked) + 1
    {
      hide Mirrors, Count, Range;
      var g := groups[gid];
      var g' := ParkedFrom(g, gid, v);
      assert Sound(g, NSegs(gid));
      Counters(groups, gid, g');
      nrHeld := nrHeld - 1;
      if g.wce && nrWce > 0 {
        nrWce := nrWce - 1;
      }
      hold := ClearBits(hold, First(gid) + g.off, g.len);
      wce := ClearBits(wce, First(gid) + g.off, g.len);
      park := SetBits(park, First(gid) + g.off, g.len);
      MirrorUnset(win, groups, old(hold), Hold, gid, g', hold);
      MirrorUnset(win, groups, old(wce), Target, gid, g', wce);
      MirrorSet(win, groups, old(park), Park, gid, g', park);
      nrParked := nrParked + 1;
      groups := groups[gid := g'];
    }

    /** swod_release_group_locked: parked if it may be, otherwise dropped. */
    method Release(gid: nat, why: Reason, v: View)
      requires Valid() && gid < |groups| && groups[gid].state != Normal
      modifies this`groups, this`hold, this`park, this`wce, this`nrHeld, this`nrParked, this`nrWce
      ensures Valid() && |groups| == old(|groups|)
      ensures groups[gid] == if MayPark(old(groups), old(nrParked) >= Budget(), gid, why, v)
                             then ParkedFrom(old(groups)[gid], gid, v) else CLEAR
      // Other groups stay, but one parked group may have to make room.
      ensures forall i: nat :: i < |groups| && i != gid && groups[i] != old(groups)[i] ==>
                groups[i] == CLEAR && groups[gid].state == Parked
                && old(nrParked) >= Budget() && Displaced(old(groups), i, v.score(gid))
      ensures nrHeld + nrParked <= old(nrHeld) + old(nrParked) && Within()
      ensures old(groups)[gid].state == Held ==> nrHeld == old(nrHeld) - 1
      ensures old(groups)[gid].state == Parked ==> nrHeld == old(nrHeld) && groups == old(groups)[gid := CLEAR]
    {
      hide Mirrors, Count;
      var parked := TryPark(gid, why, v);
      if !parked {
        ClearGroup(gid);
      }
    }

    /** The held group that is given up first: least coverage, then most live blocks, then shortest. */
    method WeakestHeld() returns (r: nat)
      ensures r <= |groups|
      ensures r < |groups| ==> FirstWeakest(groups, r)
      ensures r == |groups| ==> forall i: nat :: i < |groups| ==> groups[i].state != Held
    {
      r := |groups|;
      for i := 0 to |groups|
        invariant r == |groups| || r < i
        invariant r < |groups| ==> groups[r].state == Held
        invariant r < |groups| ==> forall j: nat :: j < i && groups[j].state == Held ==>
                    !Weaker(groups[j], groups[r]) && (j < r ==> Weaker(groups[r], groups[j]))
        invariant r == |groups| ==> forall j: nat :: j < i ==> groups[j].state != Held
      {
        if groups[i].state == Held && (r == |groups| || Weaker(groups[i], groups[r])) {
          r := i;
        }
      }
    }

    /** The search of swod_eval_group_locked, and what becomes of the window found. */
    method HoldBest(gid: nat, v: View) returns (ghost c: Candidate)
      requires Valid() && gid < |groups| && groups[gid].state == Normal
      modifies this`groups, this`hold, this`park, this`wce, this`nrHeld, this`nrParked, this`nrWce
      ensures Valid() && |groups| == old(|groups|) && Within()
      ensures Found(v.hints, First(gid), NSegs(gid), v.maxLen(gid), c)
      ensures c == NoCandidate ==> groups == old(groups)
      ensures c.Candidate? && old(nrHeld) < maxHeld ==> groups == old(groups)[gid := HeldFrom(c, v)]
      ensures c.Candidate? && old(nrHeld) >= maxHeld ==>
                && (forall w: nat :: w < |groups| && FirstWeakest(old(groups), w) ==>
                      if Beats(c, old(groups)[w]) then groups[gid] == HeldFrom(c, v) && groups[w].state != Held
                      else groups == old(groups))
                && ((forall w: nat :: w < |groups| ==> old(groups)[w].state != Held) ==> groups == old(groups))
      ensures forall i: nat :: i < |groups| && i != gid && groups[i].state == Held ==> groups[i] == old(groups)[i]
      ensures forall i: nat ::
                i < |groups| && i != gid && groups[i] != old(groups)[i] && old(groups)[i].state == Held ==>
                FirstWeakest(old(groups), i)
    {
      hide Mirrors, Count, BestShort, BestComplete;
      var best := FindWindow(v.hints, First(gid), NSegs(gid), v.maxLen(gid));
      c := best;
      if best == NoCandidate {
        return;
      }
      FoundFits(v.hints, First(gid), NSegs(gid), v.maxLen(gid), best);
      if nrHeld >= maxHeld {
        var w := WeakestHeld();
        if w == |groups| || !Beats(best, groups[w]) {
          return;
        }
        Release(w, Pressure, v);
      }
      Install(gid, best, v);
    }

    /** swod_eval_group_locked; `c` is the best window where one is searched for. */
    method EvalGroup(gid: nat, v: View) returns (ghost c: Candidate)
      requires Valid() && gid < |groups|
      modifies this`groups, this`hold, this`park, this`wce, this`nrHeld, this`nrParked, this`nrWce
      ensures Valid() && |groups| == old(|groups|)
      ensures NSegs(gid) == 0 ==> groups == old(groups)
      // In a blocked regime the group is let go.
      ensures NSegs(gid) > 0 && v.blocked ==>
                groups == old(groups)[gid := CLEAR] || (old(groups)[gid].state == Normal && groups == old(groups))
      // An active window that is not too long is kept until it is ready or its time is up.
      ensures Keeps(old(groups), gid, v) ==>
                if v.ready(gid) then groups[gid] == CLEAR
                else if v.expired(gid) then groups[gid].state != Held
                else groups == old(groups)
      // Otherwise the best window is held, if there is room or the weakest held window is worse.
      ensures Fresh(old(groups), gid, v) ==> Found(v.hints, First(gid), NSegs(gid), v.maxLen(gid), c)
      ensures Fresh(old(groups), gid, v) && c == NoCandidate ==>
                groups == old(groups)[gid := groups[gid]] && groups[gid].state == Normal
      ensures Fresh(old(groups), gid, v) && c.Candidate? && HeldBut(old(groups), old(nrHeld), gid) < maxHeld ==>
                groups == old(groups)[gid := HeldFrom(c, v)]
      ensures Fresh(old(groups), gid, v) && c.Candidate? && HeldBut(old(groups), old(nrHeld), gid) >= maxHeld ==>
                var base := Emptied(old(groups), gid);
                && (forall w: nat :: w < |groups| && FirstWeakest(base, w) ==>
                      if Beats(c, base[w]) then groups[gid] == HeldFrom(c, v) && groups[w].state != Held
                      else groups == base)
                && ((forall w: nat :: w < |groups| ==> base[w].state != Held) ==> groups == base)
      // Above a limit that has been lowered nothing is added.
      ensures Within()
      // No other group becomes held, and only a weakest one stops being so.
      ensures forall i: nat :: i < |groups| && i != gid && groups[i].state == Held ==> groups[i] == old(groups)[i]
      ensures forall i: nat ::
                i < |groups| && i != gid && groups[i] != old(groups)[i] && old(groups)[i].state == Held ==>
                !v.blocked && FirstWeakest(old(groups)[gid := CLEAR], i)
    {
      hide Mirrors, Count, BestShort, BestComplete;
      c := NoCandidate;
      if NSegs(gid) == 0 {
        NothingFits(v.hints, First(gid), v.maxLen(gid));
        return;
      }
      if v.blocked {
        if groups[gid].state != Normal {
          ClearGroup(gid);
        }
        return;
      }
      if groups[gid].state != Normal && groups[gid].len > v.maxLen(gid) {
        ClearGroup(gid);
      }
      if groups[gid].state != Normal {
        if v.ready(gid) {
          Release(gid, Success, v);
        } else if v.expired(gid) {
          Release(gid, Timeout, v);
        }
        return;
      }
      c := HoldBest(gid, v);
    }

    /** __f2fs_swod_release_all_locked. */
    method ReleaseAll()
      requires Valid()
      modifies this`groups, this`hold, this`park, this`wce, this`nrHeld, this`nrParked, this`nrWce
      ensures Valid() && (forall gid: nat :: gid < |groups| ==> groups[gid].state == Normal)
      ensures hold == {} && park == {} && wce == {} && nrHeld == nrParked == nrWce == 0
    {
      hide Mirrors, Count;
      for gid := 0 to |groups|
        invariant Valid() && |groups| == old(|groups|)
        invariant forall i: nat :: i < gid ==> groups[i].state == Normal
      {
        if groups[gid].state != Normal {
          ClearGroup(gid);
        }
      }
      NothingMarked(groups, NSegs);
      NoneHeld(win, groups, hold, Hold);
      NoneHeld(win, groups, park, Park);
      NoneHeld(win, groups, wce, Target);
    }

    /**
      f2fs_swod_sweep_timeout.  Nothing is swept while no group is held, however
      long parked groups are past their deadline.
    */
    method Sweep(v: View)
      requires Valid()
      modifies this`groups, this`hold, this`park, this`wce, this`nrHeld, this`nrParked, this`nrWce
      ensures Valid() && |groups| == old(|groups|)
      ensures old(nrHeld) == 0 ==> groups == old(groups)
      ensures old(nrHeld) > 0 ==> forall gid: nat :: gid < |groups| && v.expired(gid) ==>
                groups[gid].state != Held && (groups[gid].state == Parked ==> old(groups)[gid].state == Held)
      ensures forall gid: nat :: gid < |groups| && !v.expired(gid) && groups[gid] != old(groups)[gid] ==>
                groups[gid] == CLEAR && old(groups)[gid].state == Parked
      ensures Within()
      // While parking cannot overflow, what may be parked is parked.
      ensures 0 < old(nrHeld) && old(nrHeld) + old(nrParked) <= Budget() ==>
                forall gid: nat :: gid < |groups| ==> groups[gid] == Swept(old(groups)[gid], gid, v)
    {
      hide Mirrors, Count;
      if nrHeld == 0 {
        return;
      }
      for gid := 0 to |groups|
        invariant Valid() && |groups| == old(|groups|)
        invariant forall i: nat :: i < gid && v.expired(i) ==>
                    groups[i].state != Held && (groups[i].state == Parked ==> old(groups)[i].state == Held)
        invariant forall i: nat :: i < |groups| && (i >= gid || !v.expired(i)) && groups[i] != old(groups)[i] ==>
                    groups[i] == CLEAR && old(groups)[i].state == Parked
        invariant nrHeld + nrParked <= old(nrHeld) + old(nrParked) && Within()
        invariant old(nrHeld) + old(nrParked) <= Budget() ==>
                    forall i: nat :: i < |groups| ==>
                      groups[i] == if i < gid then Swept(old(groups)[i], i, v) else old(groups)[i]
      {
        if groups[gid].state != Normal && v.expired(gid) {
          if groups[gid].state == Held { CountSome(groups, Hold, gid); }
          Release(gid, Timeout, v);
        }
      }
    }

    /** f2fs_swod_range_held. */
    method RangeHeld(segno: nat, n: nat) returns (r: bool)
      requires Valid()
      ensures r <==> exists s: nat :: segno <= s < segno + n && s < nrSegs && s in hold
    {
      hide Mirrors, Count;
      NoneHeld(win, groups, hold, Hold);
      if n == 0 || segno >= nrSegs || nrHeld == 0 {
        return false;
      }
      r := AnyIn(hold, segno, if nrSegs < segno + n then nrSegs else segno + n);
    }

    /** f2fs_swod_range_wce_target. */
    method RangeTarget(segno: nat, n: nat) returns (r: bool)
      requires Valid()
      ensures r <==> exists s: nat :: segno <= s < segno + n && s < nrSegs && s in hold + park + wce
    {
      hide Mirrors, Count;
      NoneHeld(win, groups, hold, Hold);
      NoneHeld(win, groups, park, Park);
      NoneHeld(win, groups, wce, Target);
      if n == 0 || segno >= nrSegs || (nrHeld == 0 && nrParked == 0 && nrWce == 0) {
        return false;
      }
      r := AnyIn(hold + park + wce, segno, if nrSegs < segno + n then nrSegs else segno + n);
    }

    /** f2fs_swod_has_wce_target. */
    predicate HasTarget()
      reads this
    {
      nrHeld > 0 || nrParked > 0 || nrWce > 0
    }

    /** Without a held window nothing matches, and yet a parked one starts a target pass. */
    lemma TargetsInVain()
      requires Valid() && nrHeld == 0
      ensures forall segno: nat :: !Completing(win, groups, segno)
      ensures HasTarget() <==> nrParked > 0
    {
      CountNone(groups, Hold);
      CountNone(groups, Target);
    }

    /**
      swod_wce_match in gc.c: of a range only the first segment counts, and it
      matches exactly when it lies in a held window that is fit for completion.
    */
    method WceMatch(segno: nat, n: nat) returns (r: bool)
      requires Valid() && n > 0
      ensures r <==> segno < nrSegs && Completing(win, groups, segno)
      // Parked windows alone start a target pass, but none of their segments can match.
      ensures nrHeld == 0 ==> !r
    {
      r := RangeTarget(segno, n);
      NoneHeld(win, groups, wce, Target);
      assert segno in wce <==> Completing(win, groups, segno) by {
        if GroupOf(win, segno) < |groups| {
          assert Sound(groups[GroupOf(win, segno)], NSegs(GroupOf(win, segno)));
        }
      }
      if segno < nrSegs && segno in wce {
        CountSome(groups, Hold, GroupOf(win, segno));
        assert segno in hold + park + wce;
      }
      if r {
        r := nrWce != 0 && segno < nrSegs && segno in wce;
      }
    }
  }

  /** How many groups are held besides `gid`. */
  function HeldBut(groups: seq<Group>, nrHeld: nat, gid: nat): int
    requires gid < |groups|
  {
    nrHeld - if groups[gid].state == Held then 1 else 0
  }

  /** The groups once a window of `gid` that is too long has been dropped. */
  function Emptied(groups: seq<Group>, gid: nat): seq<Group>
    requires gid < |groups|
  {
    if groups[gid].state == Normal then groups else groups[gid := CLEAR]
  }

  /** The segment lies in a held window that is fit for completion. */
  predicate Completing(win: nat, groups: seq<Group>, segno: nat)
    requires win > 0
  {
    && GroupOf(win, segno) < |groups|
    && var g := groups[GroupOf(win, segno)];
    g.state == Held && g.wce && InWindow(g, OffsetOf(win, segno))
  }

  /** What a sweep makes of a group when no parked group has to make room. */
  function Swept(g: Group, gid: nat, v: View): Group {
    if g.state == Normal || !v.expired(gid) then g
    else if g.state == Held && v.parkable(gid) then ParkedFrom(g, gid, v)
    else CLEAR
  }

  /** The group is active, and its window still allowed. */
  predicate Keeps(groups: seq<Group>, gid: nat, v: View)
    requires gid < |groups|
  {
    !v.blocked && groups[gid].state != Normal && groups[gid].len <= v.maxLen(gid)
  }

  /** The group has no window, or one too long to be kept. */
  predicate Fresh(groups: seq<Group>, gid: nat, v: View)
    requires gid < |groups|
  {
    !v.blocked && (groups[gid].state == Normal || groups[gid].len > v.maxLen(gid))
  }

  /** The parked group with the lowest score, and the first of those. */
  ghost predicate FirstLowest(groups: seq<Group>, w: nat)
    requires w < |groups|
  {
    && groups[w].state == Parked
    && forall i: nat :: i < |groups| && groups[i].state == Parked ==>
         groups[w].score <= groups[i].score && (i < w ==> groups[w].score < groups[i].score)
  }

  /** Group `w` has to give way to a window of this score. */
  ghost predicate Displaced(groups: seq<Group>, w: nat, score: nat)
    requires w < |groups|
  {
    FirstLowest(groups, w) && groups[w].score < score
  }

  /** Whether a group may be parked, `full` or not as the parking lot is. */
  ghost predicate MayPark(groups: seq<Group>, full: bool, gid: nat, why: Reason, v: View)
    requires gid < |groups|
  {
    && groups[gid].state == Held && why != Success && v.parkable(gid)
    && (full ==> exists w: nat :: w < |groups| && Displaced(groups, w, v.score(gid)))
  }

  /** The held group that gives way first: no other is weaker, and those before it are stronger. */
  ghost predicate FirstWeakest(groups: seq<Group>, w: nat)
    requires w < |groups|
  {
    && groups[w].state == Held
    && forall i: nat :: i < |groups| && groups[i].state == Held ==>
         !Weaker(groups[i], groups[w]) && (i < w ==> Weaker(groups[w], groups[i]))
  }

  /** The group that holds a candidate, its coverage cut to 16 bits. */
  function HeldFrom(c: Candidate, v: View): Group
    requires c.Candidate?
  {
    Group(Held, c.action, Eligible(c, v), c.off, c.len, c.q % U16, c.l % U16, 0)
  }

  function ParkedFrom(g: Group, gid: nat, v: View): Group {
    g.(state := Parked, wce := false, q := v.nowQ(gid), l := v.nowL(gid), score := v.score(gid))
  }

  predicate Weaker(a: Group, b: Group) {
    || a.q < b.q
    || (a.q == b.q && a.l > b.l)
    || (a.q == b.q && a.l == b.l && a.len < b.len)
  }

  /** Whether a candidate is strictly better than the weakest held window. */
  predicate Beats(c: Candidate, g: Group)
    requires c.Candidate?
  {
    !(c.q < g.q) && !(c.q == g.q && c.l > g.l) && !(c.q == g.q && c.l == g.l && c.len <= g.len)
  }

  /** That is: more coverage, else less left alive, else longer. */
  lemma BeatsIff(c: Candidate, g: Group)
    requires c.Candidate?
    ensures Beats(c, g) <==> c.q > g.q || (c.q == g.q && (c.l < g.l || (c.l == g.l && c.len > g.len)))
  {
  }

  method AnyIn(bits: set<nat>, from: nat, to: nat) returns (r: bool)
    ensures r <==> exists s: nat :: from <= s < to && s in bits
  {
    var s := from;
    while s < to
      invariant from <= s && forall t: nat :: from <= t < s ==> t !in bits
    {
      if s in bits {
        return true;
      }
      s := s + 1;
    }
    r := false;
  }

  /** A counter at zero means an empty map. */
  lemma NoneHeld(win: nat, groups: seq<Group>, bits: set<nat>, m: Mark)
    requires win > 0 && Mirrors(win, groups, bits, m)
    ensures Count(groups, m) == 0 ==> bits == {}
  {
    CountNone(groups, m);
    if Count(groups, m) == 0 { assert forall s: nat :: s !in bits; }
  }

  lemma NothingMarked(groups: seq<Group>, nsegs: nat -> nat)
    requires forall gid: nat :: gid < |groups| ==> Sound(groups[gid], nsegs(gid)) && groups[gid].state == Normal
    ensures forall m: Mark :: Count(groups, m) == 0
  {
    forall m: Mark
      ensures Count(groups, m) == 0
    {
      CountNone(groups, m);
    }
  }


  /** wce_eligible: only a completion hold that is mature enough. */
  predicate Eligible(c: Candidate, v: View)
    requires c.Candidate?
  {
    c.action == CompletionHold && c.q % U16 >= v.hints.wceQ && c.l % U16 <= v.hints.wceL
  }

  lemma Counters(groups: seq<Group>, gid: nat, g: Group)
    requires gid < |groups|
    ensures forall m: Mark :: Count(groups[gid := g], m) ==
              Count(groups, m) - (if Marked(m, groups[gid]) then 1 else 0) + (if Marked(m, g) then 1 else 0)
    ensures forall m: Mark :: Marked(m, groups[gid]) ==> Count(groups, m) > 0
  {
    forall m: Mark
      ensures Count(groups[gid := g], m) ==
              Count(groups, m) - (if Marked(m, groups[gid]) then 1 else 0) + (if Marked(m, g) then 1 else 0)
      ensures Marked(m, groups[gid]) ==> Count(groups, m) > 0
    {
      CountUpdate(groups, m, gid, g);
      if Marked(m, groups[gid]) { CountSome(groups, m, gid); }
    }
  }

  /** A group that was not and is not marked leaves a map as it is. */
  lemma Elsewhere(win: nat, groups: seq<Group>, bits: set<nat>, m: Mark, gid: nat, g: Group, from: nat, n: nat,
                  bits': set<nat>)
    requires win > 0 && Mirrors(win, groups, bits, m) && gid < |groups| && !Marked(m, groups[gid]) && !Marked(m, g)
    requires gid * win <= from && from + n <= gid * win + win && bits' == bits - Range(from, n)
    ensures bits' == bits && Mirrors(win, groups[gid := g], bits', m)
  {
    hide GroupOf, OffsetOf, Range;
    forall s: nat | s in Range(from, n)
      ensures GroupOf(win, s) == gid
    {
      RangeIn(win, gid, from - gid * win, n, s);
    }
    assert bits' == bits;
  }

  method ClearBits(bits: set<nat>, from: nat, n: nat) returns (r: set<nat>)
    ensures r == bits - Range(from, n)
  {
    r := bits;
    for i := 0 to n
      invariant r == bits - Range(from, i)
    {
      r := r - {from + i};
    }
  }

  method SetBits(bits: set<nat>, from: nat, n: nat) returns (r: set<nat>)
    ensures r == bits + Range(from, n)
  {
    r := bits;
    for i := 0 to n
      invariant r == bits + Range(from, i)
    {
      r := r + {from + i};
    }
  }
}
