/**
  Victim selection (get_victim_by_default in gc.c): a scan over the dirty map
  that starts at the last victim, wraps round once and stops when its budget is
  spent.
*/
module Victim {

  import Arith
  import opened Errno

  datatype Seg = NullSeg | Seg(no: nat)

  /**
    What is fixed during one pass: the unit searched (a segment, or a section),
    the dirty units, the search budget, whether only completion targets count
    (swod_target_pass), which candidates are legal, which match a target, what
    they cost, and the value of last_victim when the pass began.
  */
  datatype Policy = Policy(
    unit: nat, total: nat, dirty: set<nat>, budget: nat, target: bool, byAge: bool,
    legal: nat -> bool, matches: nat -> bool, cost: nat -> nat, maxCost: nat, lastVictim: nat)

  /** `last` is last_segment, `lv` is sm->last_victim, `seen` the segments looked at so far. */
  datatype Scan = Scan(offset: nat, last: nat, lv: nat, searched: nat, best: Seg, bestCost: nat, seen: seq<nat>)

  datatype Outcome = Go(s: Scan) | Exhausted(s: Scan) | Spent(s: Scan)

  /** The unit that a segment belongs to, and the first segment of a unit. */
  function UnitOf(p: Policy, segno: nat): nat
    requires p.unit > 0
  {
    segno / p.unit
  }

  function SegOf(p: Policy, x: nat): nat { x * p.unit }

  /** A position at a unit boundary. */
  predicate Whole(p: Policy, segno: nat)
    requires p.unit > 0
  {
    segno % p.unit == 0
  }

  lemma UnitOfZero(p: Policy)
    requires p.unit > 0
    ensures UnitOf(p, 0) == 0 && Whole(p, 0)
  {
  }

  lemma UnitOfLe(p: Policy, a: nat, b: nat)
    requires p.unit > 0 && a <= b
    ensures UnitOf(p, a) <= UnitOf(p, b)
  {
    Arith.DivLe(a, b, p.unit);
  }

  /** find_next_bit. */
  function NextUnit(dirty: set<nat>, size: nat, from: nat): (r: nat)
    ensures r <= size && (r < size ==> r in dirty && from <= r)
    ensures forall x :: from <= x < r ==> x !in dirty
    ensures r == size || r >= from
    decreases size - from
  {
    if from >= size then size
    else if from in dirty then from
    else NextUnit(dirty, size, from + 1)
  }

  predicate Candidate(p: Policy, segno: nat) { p.legal(segno) && (p.target ==> p.matches(segno)) }

  /** Whether looking at a segment is charged to the budget: in a target pass only legal matches are. */
  predicate Charged(p: Policy, segno: nat) { p.target ==> Candidate(p, segno) }

  function Look(p: Policy, s: Scan, segno: nat): Scan {
    var charged := s.(offset := segno + p.unit, seen := s.seen + [segno],
                      searched := s.searched + if Charged(p, segno) then 1 else 0);
    if Candidate(p, segno) && !p.byAge && s.bestCost > p.cost(segno)
    then charged.(best := Seg(segno), bestCost := p.cost(segno))
    else charged
  }

  /** Where the next search will start when the budget is spent. */
  function Remembered(p: Policy, s: Scan, segno: nat): nat
    requires p.total > 0
  {
    (if s.lv == 0 && segno <= p.lastVictim then p.lastVictim + p.unit else segno + p.unit) % p.total
  }

  /** One turn of the scan loop. */
  function Step(p: Policy, s: Scan): Outcome
    requires p.unit > 0 && p.total > 0
  {
    var segno := SegOf(p, NextUnit(p.dirty, UnitOf(p, s.last), UnitOf(p, s.offset)));
    if segno >= s.last then
      if s.lv != 0 then Go(s.(last := s.lv, lv := 0, offset := 0)) else Exhausted(s)
    else
      var t := Look(p, s, segno);
      if t.searched >= p.budget then Spent(t.(lv := Remembered(p, s, segno))) else Go(t)
  }

  // ------------------------------------------------------------------ termination

  /** How many dirty units in [from, size) are charged. */
  function Count(p: Policy, from: nat, size: nat): nat
    decreases size - from
  {
    if from >= size then 0
    else (if from in p.dirty && Charged(p, SegOf(p, from)) then 1 else 0) + Count(p, from + 1, size)
  }

  /**
    Whether the scan ends, from a position `from` with these bounds.  When the
    bound is not a multiple of the unit, the search sticks at the unit that
    straddles it, and only charging that unit uses up the budget.
  */
  predicate HaltsAt(p: Policy, s: Scan)
    requires p.unit > 0
  {
    HaltsWith(p, s.last, s.lv, s.searched + Count(p, UnitOf(p, s.offset), UnitOf(p, s.last)))
  }

  /** `after` is what will have been charged when the bound is reached. */
  predicate HaltsWith(p: Policy, last: nat, lv: nat, after: nat)
    requires p.unit > 0
    decreases if lv != 0 then 1 else 0
  {
    || after >= p.budget
    || if !Whole(p, last) then Charged(p, SegOf(p, UnitOf(p, last)))
       else lv == 0 || HaltsWith(p, lv, 0, after + Count(p, 0, UnitOf(p, lv)))
  }

  lemma {:induction false} CountSkip(p: Policy, from: nat, size: nat)
    ensures var x := NextUnit(p.dirty, size, from);
            Count(p, from, size) ==
              if x == size then 0 else (if Charged(p, SegOf(p, x)) then 1 else 0) + Count(p, x + 1, size)
    decreases size - from
  {
    hide UnitOf, SegOf, Whole;
    if from < size && from !in p.dirty { CountSkip(p, from + 1, size); }
  }

  /** What a turn does, unit by unit. */
  lemma StepCases(p: Policy, s: Scan)
    requires p.unit > 0 && p.total > 0
    ensures var size := UnitOf(p, s.last);
            var x := NextUnit(p.dirty, size, UnitOf(p, s.offset));
            && (x < size ==> SegOf(p, x) < s.last)
            && (x == size ==> (SegOf(p, x) >= s.last <==> Whole(p, s.last)))
            && UnitOf(p, SegOf(p, x) + p.unit) == x + 1
  {
    Arith.Units(NextUnit(p.dirty, UnitOf(p, s.last), UnitOf(p, s.offset)), s.last, p.unit);
  }

  /** A turn that goes on neither gains nor loses termination, and where there is termination it makes progress. */
  lemma StepHalts(p: Policy, s: Scan)
    requires p.unit > 0 && p.total > 0 && s.searched < p.budget
    ensures Step(p, s).Go? ==> Step(p, s).s.searched < p.budget && (HaltsAt(p, Step(p, s).s) <==> HaltsAt(p, s))
    ensures !Step(p, s).Go? ==> HaltsAt(p, s)
    ensures Step(p, s).Go? && HaltsAt(p, s) ==> Less(p, Step(p, s).s, s)
  {
    hide UnitOf, SegOf, Whole;
    var size := UnitOf(p, s.last);
    var x := NextUnit(p.dirty, size, UnitOf(p, s.offset));
    StepCases(p, s);
    CountSkip(p, UnitOf(p, s.offset), size);
    if SegOf(p, x) >= s.last {
      Wraps(p, s);
    } else {
      LooksAt(p, s, x);
    }
  }

  lemma Wraps(p: Policy, s: Scan)
    requires p.unit > 0 && s.searched < p.budget && Whole(p, s.last)
    requires Count(p, UnitOf(p, s.offset), UnitOf(p, s.last)) == 0
    ensures s.lv == 0 ==> HaltsAt(p, s)
    ensures s.lv != 0 ==> (HaltsAt(p, s.(last := s.lv, lv := 0, offset := 0)) <==> HaltsAt(p, s))
  {
    hide UnitOf, SegOf, Whole;
    hide Count;
    UnitOfZero(p);
  }

  lemma LooksAt(p: Policy, s: Scan, x: nat)
    requires p.unit > 0 && s.searched < p.budget
    requires UnitOf(p, SegOf(p, x) + p.unit) == x + 1
    requires var size := UnitOf(p, s.last);
             && x <= size && (x == size ==> !Whole(p, s.last))
             && (x < size ==> UnitOf(p, s.offset) <= x)
             && Count(p, UnitOf(p, s.offset), size) ==
                if x == size then 0 else (if Charged(p, SegOf(p, x)) then 1 else 0) + Count(p, x + 1, size)
    ensures var t := Look(p, s, SegOf(p, x));
            && (t.searched < p.budget ==> (HaltsAt(p, t) <==> HaltsAt(p, s)) && (HaltsAt(p, s) ==> Less(p, t, s)))
            && (t.searched >= p.budget ==> HaltsAt(p, s))
  {
    hide UnitOf, SegOf, Whole;
    var size := UnitOf(p, s.last);
    var t := Look(p, s, SegOf(p, x));
    assert t.last == s.last && t.lv == s.lv && UnitOf(p, t.offset) == x + 1;
    assert x == size ==> Count(p, x + 1, size) == 0;
    hide Count, Look;
  }

  function Rest(p: Policy, s: Scan): nat
    requires p.unit > 0
  {
    if UnitOf(p, s.offset) <= UnitOf(p, s.last) then UnitOf(p, s.last) + 1 - UnitOf(p, s.offset) else 0
  }

  predicate Less(p: Policy, t: Scan, s: Scan)
    requires p.unit > 0
  {
    || (t.lv == 0 && s.lv != 0)
    || (t.lv == s.lv && Rest(p, t) < Rest(p, s))
    || (t.lv == s.lv && Rest(p, t) == Rest(p, s) && s.searched < t.searched <= p.budget)
  }

  function Run(p: Policy, s: Scan, turns: nat): Outcome
    requires p.unit > 0 && p.total > 0
    decreases turns
  {
    if turns == 0 then Go(s)
    else match Step(p, s)
      case Go(t) => Run(p, t, turns - 1)
      case o => o
  }

  /** A pass that does not halt goes on for ever ... */
  lemma {:induction false} RunsOn(p: Policy, s: Scan, turns: nat)
    requires p.unit > 0 && p.total > 0 && s.searched < p.budget && !HaltsAt(p, s)
    ensures Run(p, s, turns).Go?
    decreases turns
  {
    hide UnitOf, SegOf, Whole;
    if turns > 0 {
      StepHalts(p, s);
      RunsOn(p, Step(p, s).s, turns - 1);
    }
  }

  /** ... and one that does ends. */
  lemma {:induction false} RunsOut(p: Policy, s: Scan) returns (turns: nat)
    requires p.unit > 0 && p.total > 0 && s.searched < p.budget && HaltsAt(p, s)
    ensures !Run(p, s, turns).Go?
    decreases if s.lv != 0 then 1 else 0, Rest(p, s), p.budget - s.searched
  {
    hide UnitOf, SegOf, Whole;
    StepHalts(p, s);
    if Step(p, s).Go? {
      var more := RunsOut(p, Step(p, s).s);
      turns := more + 1;
    } else {
      turns := 1;
    }
  }

  /** A pass ends if and only if HaltsAt says so. */
  lemma EndsIff(p: Policy, s: Scan)
    requires p.unit > 0 && p.total > 0 && s.searched < p.budget
    ensures (exists turns: nat :: !Run(p, s, turns).Go?) <==> HaltsAt(p, s)
  {
    hide UnitOf, SegOf, Whole;
    if HaltsAt(p, s) {
      var turns := RunsOut(p, s);
    } else {
      forall turns: nat
        ensures Run(p, s, turns).Go?
      {
        RunsOn(p, s, turns);
      }
    }
  }

  /** Without completion targets, or with bounds at whole units, every pass ends. */
  lemma UsuallyEnds(p: Policy, s: Scan)
    requires p.unit > 0 && (!p.target || (Whole(p, s.last) && Whole(p, s.lv)))
    ensures HaltsAt(p, s)
  {
  }

  /**
    A target pass over sections of two segments, one of them dirty, that is to
    end at segment 3 (a position that a search by single segments has left
    behind) and matches nothing never ends.
  */
  lemma TargetPassSticks(turns: nat)
    ensures var p := Policy(2, 8, {3}, 1, true, false, c => true, c => false, c => 0, 16, 3);
            Run(p, Scan(3, 8, 3, 0, NullSeg, 16, []), turns).Go?
  {
    var p := Policy(2, 8, {3}, 1, true, false, c => true, c => false, c => 0, 16, 3);
    var s := Scan(3, 8, 3, 0, NullSeg, 16, []);
    assert p.unit == 2 && p.target && forall c: nat :: !p.matches(c);
    NothingCharged(p, 1, 4);
    NothingCharged(p, 0, 1);
    assert !Charged(p, 2);
    RunsOn(p, s, turns);
  }

  lemma {:induction false} NothingCharged(p: Policy, from: nat, size: nat)
    requires p.target && forall c: nat :: !p.matches(c)
    ensures Count(p, from, size) == 0
    decreases size - from
  {
    if from < size { NothingCharged(p, from + 1, size); }
  }

  // --------------------------------------------------------------- what a pass finds

  /** `best` has the least cost of the candidates seen, if one is cheap enough. */
  ghost predicate BestOf(p: Policy, s: Scan) {
    && (forall c :: c in s.seen && Candidate(p, c) && !p.byAge ==> s.bestCost <= p.cost(c))
    && match s.best
       case NullSeg => s.bestCost == p.maxCost
       case Seg(m) => m in s.seen && Candidate(p, m) && p.cost(m) == s.bestCost < p.maxCost && !p.byAge
  }

  function ChargedIn(p: Policy, seen: seq<nat>): nat {
    if seen == [] then 0
    else ChargedIn(p, seen[..|seen| - 1]) + if Charged(p, seen[|seen| - 1]) then 1 else 0
  }

  /** The dirty units in [from, to) have been looked at. */
  ghost predicate Swept(p: Policy, seen: seq<nat>, from: nat, to: nat) {
    forall x :: x in p.dirty && from <= x < to ==> SegOf(p, x) in seen
  }

  /** A dirty unit, or the one that straddles a bound of the pass. */
  ghost predicate Found(p: Policy, b: Scan, c: nat)
    requires p.unit > 0
  {
    || (exists x :: x in p.dirty && c == SegOf(p, x))
    || (!Whole(p, b.last) && c == SegOf(p, UnitOf(p, b.last)))
    || (!Whole(p, b.lv) && c == SegOf(p, UnitOf(p, b.lv)))
  }

  function Min(a: nat, b: nat): nat { if a < b then a else b }

  /** First leg: from the start to the bound.  Second leg: from 0 to the last victim. */
  ghost predicate Legs(p: Policy, b: Scan, s: Scan)
    requires p.unit > 0
  {
    || (s.last == b.last && s.lv == b.lv
        && Swept(p, s.seen, UnitOf(p, b.offset), Min(UnitOf(p, s.offset), UnitOf(p, s.last))))
    || (&& b.lv != 0 && s.last == b.lv && s.lv == 0
        && Swept(p, s.seen, UnitOf(p, b.offset), UnitOf(p, b.last))
        && Swept(p, s.seen, 0, Min(UnitOf(p, s.offset), UnitOf(p, s.last))))
  }

  ghost predicate PassInv(p: Policy, b: Scan, s: Scan)
    requires p.unit > 0
  {
    && BestOf(p, s) && s.searched == ChargedIn(p, s.seen) && Legs(p, b, s)
    && (forall c :: c in s.seen ==> Found(p, b, c))
  }

  lemma LookInv(p: Policy, b: Scan, s: Scan, x: nat)
    requires p.unit > 0 && PassInv(p, b, s)
    requires var size := UnitOf(p, s.last);
             && x == NextUnit(p.dirty, size, UnitOf(p, s.offset))
             && (x == size ==> !Whole(p, s.last))
    requires UnitOf(p, SegOf(p, x) + p.unit) == x + 1
    ensures PassInv(p, b, Look(p, s, SegOf(p, x)))
  {
    hide UnitOf, SegOf, Whole;
    var t := Look(p, s, SegOf(p, x));
    LookBest(p, s, SegOf(p, x));
    LookLegs(p, b, s, x);
    assert t.seen[..|t.seen| - 1] == s.seen;
    forall c | c in t.seen
      ensures Found(p, b, c)
    {
      if c == SegOf(p, x) && x < UnitOf(p, s.last) { assert x in p.dirty; }
    }
  }

  lemma LookBest(p: Policy, s: Scan, c: nat)
    requires BestOf(p, s)
    ensures BestOf(p, Look(p, s, c))
  {
  }

  lemma LookLegs(p: Policy, b: Scan, s: Scan, x: nat)
    requires p.unit > 0 && Legs(p, b, s)
    requires x == NextUnit(p.dirty, UnitOf(p, s.last), UnitOf(p, s.offset))
    requires UnitOf(p, SegOf(p, x) + p.unit) == x + 1
    ensures Legs(p, b, Look(p, s, SegOf(p, x)))
  {
    hide UnitOf, SegOf, Whole;
    var t := Look(p, s, SegOf(p, x));
    assert UnitOf(p, t.offset) == x + 1 && t.seen == s.seen + [SegOf(p, x)];
  }

  lemma WrapInv(p: Policy, b: Scan, s: Scan)
    requires p.unit > 0 && PassInv(p, b, s) && s.lv != 0
    requires NextUnit(p.dirty, UnitOf(p, s.last), UnitOf(p, s.offset)) == UnitOf(p, s.last)
    ensures PassInv(p, b, s.(last := s.lv, lv := 0, offset := 0))
  {
    hide UnitOf, SegOf, Whole;
    UnitOfZero(p);
  }

  /** Everything dirty within the bounds that the pass used. */
  ghost predicate Covered(p: Policy, b: Scan, seen: seq<nat>)
    requires p.unit > 0
  {
    Swept(p, seen, UnitOf(p, b.offset), UnitOf(p, b.last)) && (b.lv != 0 ==> Swept(p, seen, 0, UnitOf(p, b.lv)))
  }

  /** The state in which a pass that ends leaves the scan. */
  function Final(p: Policy, s: Scan): Scan
    requires p.unit > 0 && p.total > 0 && s.searched < p.budget && HaltsAt(p, s)
    decreases if s.lv != 0 then 1 else 0, Rest(p, s), p.budget - s.searched
  {
    StepHalts(p, s);
    if Step(p, s).Go? then Final(p, Step(p, s).s) else Step(p, s).s
  }

  lemma FinalStep(p: Policy, s: Scan)
    requires p.unit > 0 && p.total > 0 && s.searched < p.budget && HaltsAt(p, s)
    ensures var o := Step(p, s);
            if o.Go? then o.s.searched < p.budget && HaltsAt(p, o.s) && Final(p, s) == Final(p, o.s)
            else Final(p, s) == o.s
  {
    StepHalts(p, s);
  }

  /** The scan loop of get_victim_by_default, from the start state `b`. */
  method Pass(p: Policy, b: Scan) returns (s: Scan, spent: bool)
    requires p.unit > 0 && p.total > 0 && p.budget > 0 && HaltsAt(p, b)
    requires b.searched == 0 && b.seen == [] && b.best == NullSeg && b.bestCost == p.maxCost
    ensures BestOf(p, s) && (forall c :: c in s.seen ==> Found(p, b, c))
    ensures s.searched == ChargedIn(p, s.seen) && (spent <==> s.searched == p.budget) && s.searched <= p.budget
    ensures !spent ==> Covered(p, b, s.seen) && s.lv == 0
    ensures s.last == b.last || (b.lv != 0 && s.last == b.lv)
    ensures spent ==> s.lv < p.total && Resumes(p, b, s)
    ensures Whole(p, p.total) && Whole(p, p.lastVictim) ==> Whole(p, s.lv)
    ensures s == Final(p, b)
  {
    hide PassInv, BestOf, Found, HaltsAt, Step, Rest, ChargedIn, Covered, UnitOf, SegOf, Whole, Final;
    s := b;
    Begins(p, b);
    while true
      invariant s.searched < p.budget && HaltsAt(p, s) && PassInv(p, b, s) && Final(p, s) == Final(p, b)
      decreases if s.lv != 0 then 1 else 0, Rest(p, s), p.budget - s.searched
    {
      StepHalts(p, s);
      FinalStep(p, s);
      StepInv(p, b, s);
      UnitOfZero(p);
      match Step(p, s)
      case Go(t) => s := t;
      case Exhausted(t) => return t, false;
      case Spent(t) => return t, true;
    }
  }

  /**
    The next search starts behind the unit looked at last; behind the last victim if
    the pass was on its last leg and came no further than there.
  */
  ghost predicate Resumes(p: Policy, b: Scan, s: Scan)
    requires p.total > 0
  {
    && s.seen != []
    && var c := s.seen[|s.seen| - 1];
       || ((b.lv == 0 || s.last == b.lv) && s.lv == Behind(p, c, true))
       || (b.lv != 0 && s.last == b.last && s.lv == Behind(p, c, false))
  }

  function Behind(p: Policy, c: nat, lastLeg: bool): nat
    requires p.total > 0
  {
    (if lastLeg && c < p.lastVictim then p.lastVictim + p.unit else c + p.unit) % p.total
  }

  /** What the invariant says when a pass is over. */
  ghost predicate PassEnd(p: Policy, b: Scan, s: Scan)
    requires p.unit > 0
  {
    && BestOf(p, s) && (forall c :: c in s.seen ==> Found(p, b, c)) && s.searched == ChargedIn(p, s.seen)
    && (s.last == b.last || (b.lv != 0 && s.last == b.lv))
  }

  lemma StepInv(p: Policy, b: Scan, s: Scan)
    requires p.unit > 0 && p.total > 0 && s.searched < p.budget && PassInv(p, b, s)
    ensures match Step(p, s)
            case Go(t) => PassInv(p, b, t)
            case Exhausted(t) => PassEnd(p, b, t) && Covered(p, b, t.seen) && t.lv == 0 && t.searched < p.budget
            case Spent(t) =>
              && PassEnd(p, b, t) && t.searched == p.budget && t.lv < p.total && Resumes(p, b, t)
              && (Whole(p, p.total) && Whole(p, p.lastVictim) ==> Whole(p, t.lv))
  {
    StepCases(p, s);
    var unit := NextUnit(p.dirty, UnitOf(p, s.last), UnitOf(p, s.offset));
    hide BestOf, Found, Swept, ChargedIn, Count, Covered, UnitOf, SegOf, Whole;
    if SegOf(p, unit) >= s.last {
      if s.lv != 0 { WrapInv(p, b, s); } else { Ends(p, b, s); }
    } else {
      LookInv(p, b, s, unit);
      var t := Look(p, s, SegOf(p, unit));
      if t.searched >= p.budget {
        Wherever(p, s, unit);
        Stopped(p, b, t, Remembered(p, s, SegOf(p, unit)));
        ResumesBehind(p, b, s, SegOf(p, unit));
      }
    }
  }

  lemma ResumesBehind(p: Policy, b: Scan, s: Scan, c: nat)
    requires p.unit > 0 && p.total > 0 && Legs(p, b, s)
    ensures Resumes(p, b, Look(p, s, c).(lv := Remembered(p, s, c)))
  {
    hide UnitOf, Swept;
    assert Remembered(p, s, c) == Behind(p, c, s.lv == 0);
  }

  lemma Stopped(p: Policy, b: Scan, t: Scan, lv: nat)
    requires p.unit > 0 && PassInv(p, b, t)
    ensures PassEnd(p, b, t.(lv := lv))
  {
    hide UnitOf, SegOf, Whole;
  }

  lemma Begins(p: Policy, b: Scan)
    requires p.unit > 0 && b.searched == 0 && b.seen == [] && b.best == NullSeg && b.bestCost == p.maxCost
    ensures PassInv(p, b, b)
  {
    hide UnitOf, SegOf, Whole;
  }

  lemma Ends(p: Policy, b: Scan, s: Scan)
    requires p.unit > 0 && PassInv(p, b, s) && s.lv == 0
    requires NextUnit(p.dirty, UnitOf(p, s.last), UnitOf(p, s.offset)) == UnitOf(p, s.last)
    ensures Covered(p, b, s.seen)
  {
    hide UnitOf, SegOf, Whole;
  }

  lemma Wherever(p: Policy, s: Scan, x: nat)
    requires p.unit > 0 && p.total > 0
    ensures Remembered(p, s, SegOf(p, x)) < p.total
    ensures Whole(p, p.total) && Whole(p, p.lastVictim) ==> Whole(p, Remembered(p, s, SegOf(p, x)))
  {
    if Whole(p, p.total) && Whole(p, p.lastVictim) {
      Arith.DivMod(x, p.unit, 0);
      Arith.AddMod(p.lastVictim, p.unit);
      Arith.AddMod(SegOf(p, x), p.unit);
      Arith.ModMod(p.lastVictim + p.unit, p.total, p.unit);
      Arith.ModMod(SegOf(p, x) + p.unit, p.total, p.unit);
    }
  }

  // ------------------------------------------------ a pass that may look at everything

  lemma {:induction false} CountSplit(p: Policy, a: nat, b: nat, c: nat)
    requires a <= b <= c
    ensures Count(p, a, c) == Count(p, a, b) + Count(p, b, c)
    decreases b - a
  {
    if a < b { CountSplit(p, a + 1, b, c); }
  }

  lemma {:induction false} CountNone(p: Policy, from: nat, size: nat, x: nat)
    requires !p.target && Count(p, from, size) == 0 && from <= x < size
    ensures x !in p.dirty
    decreases size - from
  {
    if from < x { CountNone(p, from + 1, size, x); }
  }

  /** Without targets every dirty unit is charged. */
  lemma {:induction false} CountDirty(p: Policy, within: set<nat>, from: nat, size: nat)
    requires !p.target && forall x :: x in within <==> x in p.dirty && from <= x < size
    ensures Count(p, from, size) == |within|
    decreases size - from
  {
    if from >= size {
      assert within == {};
    } else {
      CountDirty(p, within - {from}, from + 1, size);
      assert from in within ==> within == (within - {from}) + {from};
      assert from !in within ==> within - {from} == within;
    }
  }

  /** A pass without targets over whole units, from the last victim or from 0, with budget for all that is dirty. */
  ghost predicate Ample(p: Policy, b: Scan)
    requires p.unit > 0
  {
    && !p.target && p.budget == |p.dirty| && Whole(p, b.last) && Whole(p, b.lv)
    && (b.offset == 0 || b.offset == b.lv) && b.lv <= b.last && (forall x :: x in p.dirty ==> x < UnitOf(p, b.last))
  }

  /** What the scan has yet to charge when both bounds are reached. */
  function Ahead(p: Policy, s: Scan): nat
    requires p.unit > 0
  {
    Count(p, UnitOf(p, s.offset), UnitOf(p, s.last)) + if s.lv != 0 then Count(p, 0, UnitOf(p, s.lv)) else 0
  }

  ghost predicate AllSeen(p: Policy, seen: seq<nat>) { forall x :: x in p.dirty ==> SegOf(p, x) in seen }

  lemma AmpleAhead(p: Policy, b: Scan)
    requires p.unit > 0 && Ample(p, b)
    ensures UnitOf(p, b.lv) <= UnitOf(p, b.last)
    ensures Ahead(p, b) == p.budget + if b.offset == 0 && b.lv != 0 then Count(p, 0, UnitOf(p, b.lv)) else 0
  {
    hide UnitOf, Whole, Count;
    UnitOfZero(p);
    UnitOfLe(p, b.lv, b.last);
    var n := UnitOf(p, b.last);
    CountDirty(p, p.dirty, 0, n);
    CountSplit(p, 0, UnitOf(p, b.lv), n);
  }

  /** When the whole budget is spent, nothing dirty is ahead on the leg. */
  lemma SpentAll(p: Policy, b: Scan, s: Scan)
    requires p.unit > 0 && Ample(p, b) && Legs(p, b, s) && s.searched >= p.budget
    requires s.searched + Ahead(p, s) == Ahead(p, b) && (b.offset == 0 ==> s.lv == b.lv)
    ensures AllSeen(p, s.seen)
  {
    hide SegOf, Whole, Count, UnitOf;
    AmpleAhead(p, b);
    UnitOfZero(p);
    forall x | x in p.dirty
      ensures SegOf(p, x) in s.seen
    {
      if UnitOf(p, s.offset) <= x < UnitOf(p, s.last) { CountNone(p, UnitOf(p, s.offset), UnitOf(p, s.last), x); }
      if s.lv != 0 && b.offset != 0 && x < UnitOf(p, s.lv) { CountNone(p, 0, UnitOf(p, s.lv), x); }
    }
  }

  /** So does the end of both legs. */
  lemma CoveredAll(p: Policy, b: Scan, seen: seq<nat>)
    requires p.unit > 0 && Ample(p, b) && Covered(p, b, seen)
    ensures AllSeen(p, seen)
  {
    UnitOfZero(p);
  }

  lemma AheadStep(p: Policy, b: Scan, s: Scan)
    requires p.unit > 0 && p.total > 0 && Ample(p, b) && Legs(p, b, s) && s.searched < p.budget
    requires s.searched + Ahead(p, s) == Ahead(p, b) && (b.offset == 0 ==> s.lv == b.lv)
    ensures match Step(p, s)
            case Go(t) => t.searched + Ahead(p, t) == Ahead(p, b) && (b.offset == 0 ==> t.lv == b.lv)
            case Exhausted(t) => true
            case Spent(t) =>
              var u := t.(lv := s.lv); u.searched + Ahead(p, u) == Ahead(p, b) && (b.offset == 0 ==> u.lv == b.lv)
  {
    hide SegOf, Whole, UnitOf, Ample;
    StepCases(p, s);
    AmpleAhead(p, b);
    AmpleWhole(p, b);
    UnitOfZero(p);
    CountSkip(p, UnitOf(p, s.offset), UnitOf(p, s.last));
    hide Count;
  }

  lemma AmpleWhole(p: Policy, b: Scan)
    requires p.unit > 0 && Ample(p, b)
    ensures Whole(p, b.last) && Whole(p, b.lv) && !p.target && (b.offset == 0 || b.offset == b.lv)
  {
  }

  lemma {:induction false} FinalSeesAll(p: Policy, b: Scan, s: Scan)
    requires p.unit > 0 && p.total > 0 && Ample(p, b) && PassInv(p, b, s) && s.searched < p.budget && HaltsAt(p, s)
    requires s.searched + Ahead(p, s) == Ahead(p, b) && (b.offset == 0 ==> s.lv == b.lv)
    ensures AllSeen(p, Final(p, s).seen)
    decreases if s.lv != 0 then 1 else 0, Rest(p, s), p.budget - s.searched
  {
    hide UnitOf, SegOf, Whole, HaltsAt, Rest, Ample, Ahead, BestOf, Found, Legs, AllSeen, Covered;
    StepHalts(p, s);
    FinalStep(p, s);
    StepInv(p, b, s);
    AheadStep(p, b, s);
    match Step(p, s)
    case Go(t) => FinalSeesAll(p, b, t);
    case Exhausted(t) => CoveredAll(p, b, t.seen);
    case Spent(t) =>
      SpentLegs(p, b, s);
      SpentAll(p, b, t.(lv := s.lv));
  }

  lemma SpentLegs(p: Policy, b: Scan, s: Scan)
    requires p.unit > 0 && p.total > 0 && PassInv(p, b, s) && Step(p, s).Spent?
    ensures Legs(p, b, Step(p, s).s.(lv := s.lv))
  {
    hide UnitOf, SegOf, Whole, Legs;
    StepCases(p, s);
    LookLegs(p, b, s, NextUnit(p.dirty, UnitOf(p, s.last), UnitOf(p, s.offset)));
  }

  /** Such a pass looks at every dirty unit. */
  lemma SeesAll(p: Policy, b: Scan)
    requires p.unit > 0 && p.total > 0 && p.budget > 0 && Ample(p, b)
    requires b.searched == 0 && b.seen == [] && b.best == NullSeg && b.bestCost == p.maxCost
    ensures HaltsAt(p, b) && AllSeen(p, Final(p, b).seen)
  {
    UsuallyEnds(p, b);
    Begins(p, b);
    FinalSeesAll(p, b, b);
  }

  // ------------------------------------------------------------------ the selection

  datatype GcType = BG | FG
  datatype Alloc = LFS | SSR | AtSSR
  datatype Mode = Greedy | CostBenefit | AgeThreshold

  const UINT_MAX: nat := 0xFFFF_FFFF

  /** Sections of the main area, segments per section, blocks per segment, and max_victim_search. */
  datatype Geometry = Geometry(mainSecs: nat, segsPerSec: nat, blocksPerSeg: nat, maxSearch: nat)

  predicate Sane(g: Geometry) { g.mainSecs > 0 && g.segsPerSec > 0 }

  function Total(g: Geometry): (t: nat)
    requires Sane(g)
    ensures t > 0
  {
    Arith.Times(g.mainSecs, g.segsPerSec);
    g.mainSecs * g.segsPerSec
  }

  /** GET_SEC_FROM_SEG. */
  function SecOf(g: Geometry, segno: nat): nat
    requires g.segsPerSec > 0
  {
    Arith.DivNat(segno, g.segsPerSec);
    segno / g.segsPerSec
  }

  /** The tree of candidates by age, in the order they were met, with dirty_min_mtime and dirty_max_mtime. */
  datatype Ages = Ages(tree: seq<nat>, min: nat, max: nat)

  const ULLONG_MAX: nat := 0xFFFF_FFFF_FFFF_FFFF

  /**
    What the selection reads: the dirty maps, the sections under current
    segments, the checks of the scan that depend on nothing it changes, the
    completion targets, the valid blocks of a segment in the last checkpoint and
    of its section now, the answer of get_cb_cost, the mean mtime of the section
    of a segment, which segments never enter the tree of ages, the choice among
    those that do, and the settings.
  */
  datatype View = View(
    dirtySegs: set<nat>, dirtySecs: set<nat>, currentSecs: set<nat>, sound: nat -> bool, emptySeg: nat -> bool,
    hasTarget: bool, matches: nat -> bool, ckptValid: nat -> nat, secValid: nat -> nat, cbCost: nat -> nat,
    mtime: nat -> nat, barred: nat -> bool, pick: Ages -> Seg,
    mode: Mode, urgent: bool, fromStart: bool, elapsed: nat, ageThreshold: nat)

  /** The request: who asks, and for what. */
  datatype Request = Request(gc: GcType, alloc: Alloc, v: View)

  /** How a victim was found; a scan has its age threshold, and the dirty_max_mtime it started from. */
  datatype How = Asked | Queued | Background | Scanned(p: Policy, b: Scan, s: Scan, threshold: nat, max: nat)

  function Unit(g: Geometry, q: Request): nat { if q.alloc == LFS then g.segsPerSec else 1 }

  function GcMode(q: Request): Mode { if q.alloc == LFS then q.v.mode else Greedy }

  predicate ByAge(q: Request) { GcMode(q) == AgeThreshold || q.alloc == AtSSR }

  /** get_max_cost. */
  function MaxCost(g: Geometry, q: Request): nat {
    match q.alloc
    case SSR => g.blocksPerSeg
    case AtSSR => UINT_MAX
    case LFS => if q.v.mode == Greedy then 2 * g.blocksPerSeg * g.segsPerSec else UINT_MAX
  }

  /** get_gc_cost; a search by age does not ask for it. */
  function GcCost(q: Request, c: nat): nat {
    if q.alloc == SSR then q.v.ckptValid(c)
    else match GcMode(q)
      case Greedy => q.v.secValid(c)
      case CostBenefit => q.v.cbCost(c)
      case AgeThreshold => 0
  }

  /**
    A candidate that a search not by age passes over: a segment without a free block
    for SSR, a section with twice the blocks it has for greedy cleaning, one that
    cost-benefit gives no benefit.
  */
  ghost predicate Dear(g: Geometry, q: Request, c: nat) {
    if q.alloc == SSR then q.v.ckptValid(c) >= g.blocksPerSeg
    else if q.v.mode == Greedy then q.v.secValid(c) >= 2 * g.blocksPerSeg * g.segsPerSec
    else q.v.cbCost(c) >= 0xFFFF_FFFF
  }

  lemma DearIff(g: Geometry, q: Request, c: nat)
    requires !ByAge(q)
    ensures Dear(g, q, c) <==> GcCost(q, c) >= MaxCost(g, q)
  {
  }

  /** Nothing that cleaning would gain from is dear: fewer blocks are valid than the unit has. */
  lemma GainIsNotDear(g: Geometry, q: Request, c: nat)
    requires q.alloc == SSR || (q.alloc == LFS && q.v.mode == Greedy)
    requires if q.alloc == SSR then q.v.ckptValid(c) < g.blocksPerSeg
             else q.v.secValid(c) < g.blocksPerSeg * g.segsPerSec
    ensures !Dear(g, q, c)
  {
    if q.alloc != SSR {
      Arith.Associate(2, g.blocksPerSeg, g.segsPerSec);
      Arith.NonNeg(g.blocksPerSeg, g.segsPerSec);
    }
  }

  /** select_policy: the dirty map, and the budget. */
  function Dirty(g: Geometry, q: Request): set<nat> {
    if q.alloc == LFS && g.segsPerSec > 1 then q.v.dirtySecs else q.v.dirtySegs
  }

  function Budget(g: Geometry, q: Request): nat {
    var n := |Dirty(g, q)|;
    if q.gc != FG && !q.v.urgent && !ByAge(q) && n > g.maxSearch then g.maxSearch else n
  }

  predicate TargetFirst(q: Request) { q.alloc == LFS && q.v.hasTarget }

  /**
    What the selection changes: last_victim of the mode, the marked sections, the
    queued segments, and dirty_max_mtime.
  */
  datatype Memory = Memory(lv: nat, victims: set<nat>, current: Seg, nextBG: Seg, nextFG: Seg, max: nat)

  /** sec_usage_check. */
  predicate InUse(v: View, current: Seg, sec: nat) { sec in v.currentSecs || current == Seg(sec) }

  predicate LegalSeg(g: Geometry, q: Request, current: Seg, victims: set<nat>, c: nat)
    requires g.segsPerSec > 0
  {
    var sec := SecOf(g, c);
    q.v.sound(c) && !InUse(q.v, current, sec) && !(q.gc == BG && sec in victims)
  }

  function PolicyFor(g: Geometry, q: Request, m: Memory, target: bool): Policy
    requires Sane(g)
  {
    Policy(Unit(g, q), Total(g), Dirty(g, q), Budget(g, q), target, ByAge(q),
           (c: nat) => LegalSeg(g, q, m.current, m.victims, c), q.v.matches, (c: nat) => GcCost(q, c),
           MaxCost(g, q), m.lv)
  }

  function ScanFor(g: Geometry, q: Request, m: Memory, last: nat): Scan {
    Scan(if q.v.fromStart then 0 else m.lv, last, m.lv, 0, NullSeg, MaxCost(g, q), [])
  }

  /** add_victim_entry on each candidate in turn: one that is too young when it is met stays out of the tree. */
  function Gathered(p: Policy, v: View, seen: seq<nat>, threshold: nat, max: nat): Ages {
    if seen == [] then Ages([], ULLONG_MAX, max)
    else
      var c := seen[|seen| - 1];
      var a := Gathered(p, v, seen[..|seen| - 1], threshold, max);
      if !Candidate(p, c) || v.barred(c) then a
      else
        var min', max' := Min(a.min, v.mtime(c)), if v.mtime(c) > a.max then v.mtime(c) else a.max;
        Ages(if max' - v.mtime(c) < threshold then a.tree else a.tree + [c], min', max')
  }

  /** The victim of a pass: the cheapest candidate, or the choice among those gathered by age. */
  function Chosen(p: Policy, s: Scan, v: View, threshold: nat, max: nat): Seg {
    if p.byAge then v.pick(Gathered(p, v, s.seen, threshold, max)) else s.best
  }

  /** dirty_max_mtime after a pass. */
  function MaxAfter(p: Policy, s: Scan, v: View, threshold: nat, max: nat): nat {
    if p.byAge then Gathered(p, v, s.seen, threshold, max).max else max
  }

  /** The choice is one of those in the tree. */
  ghost predicate PicksFromTree(v: View) { forall a: Ages :: v.pick(a).Seg? ==> v.pick(a).no in a.tree }

  lemma {:induction false} GatheredSeen(p: Policy, v: View, seen: seq<nat>, threshold: nat, max: nat)
    ensures var a := Gathered(p, v, seen, threshold, max);
            && a.max >= max && forall c :: c in a.tree ==> c in seen && Candidate(p, c) && !v.barred(c)
  {
    if seen != [] {
      GatheredSeen(p, v, seen[..|seen| - 1], threshold, max);
      assert seen == seen[..|seen| - 1] + [seen[|seen| - 1]];
    }
  }

  /** The latest time of those gathered, whether or not they came into the tree, and of those before. */
  ghost predicate Latest(p: Policy, v: View, seen: seq<nat>, was: nat, max: nat) {
    && was <= max && (forall c :: c in seen && Candidate(p, c) && !v.barred(c) ==> v.mtime(c) <= max)
    && (max == was || exists c :: c in seen && Candidate(p, c) && !v.barred(c) && v.mtime(c) == max)
  }

  lemma {:induction false} GatheredLatest(p: Policy, v: View, seen: seq<nat>, threshold: nat, max: nat)
    ensures Latest(p, v, seen, max, Gathered(p, v, seen, threshold, max).max)
  {
    if seen != [] {
      GatheredLatest(p, v, seen[..|seen| - 1], threshold, max);
      assert seen == seen[..|seen| - 1] + [seen[|seen| - 1]];
    }
  }

  /** Without an age limit exactly the candidates that are not barred are in the tree. */
  lemma {:induction false} GatheredAll(p: Policy, v: View, seen: seq<nat>, max: nat, c: nat)
    ensures c in Gathered(p, v, seen, 0, max).tree <==> c in seen && Candidate(p, c) && !v.barred(c)
  {
    if seen != [] {
      assert seen == seen[..|seen| - 1] + [seen[|seen| - 1]];
      GatheredAll(p, v, seen[..|seen| - 1], max, c);
    }
  }

  /** A young section is passed over at first, and taken from the same candidates by the retry without age limit. */
  lemma RetryTakesYoung(p: Policy, v: View, s: Scan)
    requires p.byAge && s.seen == [4, 6] && Candidate(p, 4) && Candidate(p, 6) && !v.barred(4) && !v.barred(6)
    requires v.mtime(4) == 90 && v.mtime(6) == 95
    requires forall a: Ages :: v.pick(a) == if a.tree == [] then NullSeg else Seg(a.tree[0])
    ensures Chosen(p, s, v, 10, 95) == NullSeg && Chosen(p, s, v, 0, 95) == Seg(4)
  {
    assert s.seen[..1] == [4] && [4][..0] == [];
    assert Gathered(p, v, [4], 10, 95) == Ages([], 90, 95) && Gathered(p, v, [4], 0, 95) == Ages([4], 90, 95);
  }

  /** Whether a queued segment is taken. */
  predicate Takes(g: Geometry, q: Request, target: bool, next: Seg) {
    g.segsPerSec > 1 && q.alloc == LFS && next.Seg? && (!target || q.v.matches(next.no))
  }

  /** check_bg_victims: the first marked section from `sec` on that is not in use. */
  function FirstMarked(g: Geometry, v: View, m: Memory, sec: nat): Seg
    decreases g.mainSecs - sec
  {
    if sec >= g.mainSecs then NullSeg
    else if sec in m.victims && !InUse(v, m.current, sec) then Seg(sec)
    else FirstMarked(g, v, m, sec + 1)
  }

  lemma {:induction false} FirstMarkedIs(g: Geometry, v: View, m: Memory, sec: nat)
    ensures var r := FirstMarked(g, v, m, sec);
            && (r.Seg? ==> sec <= r.no < g.mainSecs && r.no in m.victims && !InUse(v, m.current, r.no))
            && (forall t: nat :: sec <= t < g.mainSecs && t in m.victims && (r.Seg? ==> t < r.no) ==>
                  InUse(v, m.current, t))
    decreases g.mainSecs - sec
  {
    if sec < g.mainSecs { FirstMarkedIs(g, v, m, sec + 1); }
  }

  /** The victim found without a scan, and what is remembered then. */
  function Quick(g: Geometry, q: Request, m: Memory, target: bool): (Seg, Memory) {
    if Takes(g, q, target, m.nextBG) then (m.nextBG, m.(nextBG := NullSeg))
    else if q.gc == FG && Takes(g, q, target, m.nextFG) then (m.nextFG, m.(nextFG := NullSeg))
    else if q.alloc == LFS && q.gc == FG && FirstMarked(g, q.v, m, 0).Seg? then
      var sec := FirstMarked(g, q.v, m, 0).no;
      Arith.NonNeg(sec, g.segsPerSec);
      var segno: nat := sec * g.segsPerSec;
      (if !target || q.v.matches(segno) then Seg(segno) else NullSeg, m.(victims := m.victims - {sec}))
    else (NullSeg, m)
  }

  ghost predicate PassEnds(g: Geometry, q: Request, m: Memory, target: bool, last: nat)
    requires Sane(g)
  {
    Budget(g, q) > 0 && HaltsAt(PolicyFor(g, q, m, target), ScanFor(g, q, m, last))
  }

  /** A pass from what is remembered. */
  ghost function PassFrom(g: Geometry, q: Request, m: Memory, target: bool, last: nat, threshold: nat): How
    requires Sane(g) && PassEnds(g, q, m, target, last)
  {
    var p, b := PolicyFor(g, q, m, target), ScanFor(g, q, m, last);
    Scanned(p, b, Final(p, b), threshold, m.max)
  }

  /** What it chooses, and what is remembered after it. */
  function PassPicks(how: How, v: View): Seg
    requires how.Scanned?
  {
    Chosen(how.p, how.s, v, how.threshold, how.max)
  }

  function PassLeaves(how: How, v: View, m: Memory): Memory
    requires how.Scanned?
  {
    m.(lv := how.s.lv, max := MaxAfter(how.p, how.s, v, how.threshold, how.max))
  }

  /**
    A search for targets ends: it needs no scan, or its scan ends and, if that is
    followed by another without age limit, so does that one.  Searches without
    targets always end.
  */
  ghost predicate SearchEnds(g: Geometry, q: Request, m: Memory, last: nat, threshold: nat)
    requires Sane(g) && Budget(g, q) > 0
    decreases threshold
  {
    var (victim, m') := Quick(g, q, m, true);
    if victim.Seg? then true
    else if !PassEnds(g, q, m', true, last) then false
    else
      var how := PassFrom(g, q, m', true, last, threshold);
      ByAge(q) && PassPicks(how, q.v) == NullSeg && q.v.elapsed < threshold ==>
        SearchEnds(g, q, PassLeaves(how, q.v, m'), how.s.last, 0)
  }

  /** What a pass says about its outcome. */
  ghost predicate ScanFound(how: How, q: Request, target: bool, victim: Seg)
    requires how.Scanned?
  {
    var p, s := how.p, how.s;
    && p.unit > 0 && p.matches == q.v.matches && p.target == target
    && BestOf(p, s) && (forall c :: c in s.seen ==> Found(p, how.b, c))
    && (s.searched < p.budget ==> Covered(p, how.b, s.seen))
    && (victim.Seg? ==> victim.no in s.seen && Candidate(p, victim.no))
    && victim == if ByAge(q) then q.v.pick(Gathered(p, q.v, s.seen, how.threshold, how.max)) else s.best
  }

  lemma ScanBest(p: Policy, s: Scan)
    requires BestOf(p, s)
    ensures s.best.Seg? ==> s.best.no in s.seen && Candidate(p, s.best.no)
  {
  }

  /** A search, with at most one retry without age limit and one without completion targets. */
  class Selector {
    const g: Geometry
    var lastVictim: map<Mode, nat>
    var victimSecs: set<nat>       // victim_secmap
    var curVictimSec: Seg          // the section being collected
    var nextBG: Seg                // next_victim_seg
    var nextFG: Seg
    var dirtyMax: nat              // dirty_max_mtime

    constructor (g: Geometry)
      requires Sane(g)
      ensures Valid() && this.g == g && victimSecs == {} && curVictimSec == nextBG == nextFG == NullSeg
    {
      this.g := g;
      lastVictim := map[Greedy := 0, CostBenefit := 0, AgeThreshold := 0];
      victimSecs, curVictimSec, nextBG, nextFG, dirtyMax := {}, NullSeg, NullSeg, NullSeg, 0;
      new;
      forall m: Mode
        ensures m in lastVictim
      {
        match m case Greedy => case CostBenefit => case AgeThreshold =>
      }
    }

    ghost predicate Valid()
      reads this
    {
      Sane(g) && forall m: Mode :: m in lastVictim
    }

    /** What is remembered for a request. */
    ghost function Mem(q: Request): Memory
      requires Valid()
      reads this
    {
      Memory(lastVictim[GcMode(q)], victimSecs, curVictimSec, nextBG, nextFG, dirtyMax)
    }

    /** check_bg_victims. */
    method CheckBgVictims(q: Request) returns (r: Seg)
      requires Valid()
      modifies this`victimSecs
      ensures var first := FirstMarked(g, q.v, old(Mem(q)), 0);
              match first
              case NullSeg => r == NullSeg && victimSecs == old(victimSecs)
              case Seg(sec) => r.Seg? && r.no == sec * g.segsPerSec && victimSecs == old(victimSecs) - {sec}
    {
      var sec: nat := 0;
      while sec < g.mainSecs
        invariant FirstMarked(g, q.v, Mem(q), 0) == FirstMarked(g, q.v, Mem(q), sec)
      {
        if sec in victimSecs && !InUse(q.v, curVictimSec, sec) {
          victimSecs := victimSecs - {sec};
          Arith.NonNeg(sec, g.segsPerSec);
          return Seg(sec * g.segsPerSec);
        }
        sec := sec + 1;
      }
      r := NullSeg;
    }

    /** Victims that need no scan: queued segments of a large section, and those background GC has marked. */
    method Shortcut(q: Request, target: bool) returns (r: Seg, queued: bool)
      requires Valid()
      modifies this`nextBG, this`nextFG, this`victimSecs
      ensures r == Quick(g, q, old(Mem(q)), target).0 && Mem(q) == Quick(g, q, old(Mem(q)), target).1
      ensures r.Seg? && target ==> q.v.matches(r.no)
      ensures Takes(g, q, target, old(nextBG)) ==> queued
      ensures r.Seg? && queued ==> r == old(nextBG) || (q.gc == FG && r == old(nextFG))
      ensures r.Seg? && !queued ==>
                SecOf(g, r.no) in old(victimSecs) && !InUse(q.v, curVictimSec, SecOf(g, r.no))
    {
      r, queued := NullSeg, false;
      if g.segsPerSec > 1 && q.alloc == LFS {
        if nextBG.Seg? && (!target || q.v.matches(nextBG.no)) {
          r, nextBG, queued := nextBG, NullSeg, true;
          return;
        }
        if q.gc == FG && nextFG.Seg? && (!target || q.v.matches(nextFG.no)) {
          r, nextFG, queued := nextFG, NullSeg, true;
          return;
        }
      }
      if q.alloc == LFS && q.gc == FG {
        FirstMarkedIs(g, q.v, Mem(q), 0);
        r := CheckBgVictims(q);
        if r.Seg? {
          Arith.DivMod(FirstMarked(g, q.v, old(Mem(q)), 0).no, g.segsPerSec, 0);
        }
        if r.Seg? && target && !q.v.matches(r.no) {
          r := NullSeg;
        }
      }
    }

    /** One pass: the policy is set up and the scan is run.  `last` may have shrunk in a pass before. */
    method RunPass(q: Request, target: bool, last: nat, threshold: nat)
      returns (best: Seg, last': nat, ghost how: How)
      requires Valid() && PassEnds(g, q, Mem(q), target, last) && PicksFromTree(q.v)
      modifies this`lastVictim, this`dirtyMax
      ensures Valid() && how == PassFrom(g, q, old(Mem(q)), target, last, threshold)
      ensures ScanFound(how, q, target, best) && best == PassPicks(how, q.v)
      ensures how.b.offset == (if q.v.fromStart then 0 else how.b.lv)
      ensures how.b.lv == old(lastVictim[GcMode(q)]) && how.b.last == last
      ensures last' == how.s.last && Mem(q) == PassLeaves(how, q.v, old(Mem(q)))
      ensures best.Seg? ==> !InUse(q.v, curVictimSec, SecOf(g, best.no)) && (target ==> q.v.matches(best.no))
      ensures if ByAge(q) then Latest(how.p, q.v, how.s.seen, old(dirtyMax), dirtyMax) else dirtyMax == old(dirtyMax)
    {
      hide BestOf, Found, Covered, HaltsAt, ChargedIn, UnitOf, SegOf, Final, Gathered, Latest;
      var mode := GcMode(q);
      var m := Memory(lastVictim[mode], victimSecs, curVictimSec, nextBG, nextFG, dirtyMax);
      var p, b := PolicyFor(g, q, m, target), ScanFor(g, q, m, last);
      var s, spent := Pass(p, b);
      lastVictim := lastVictim[mode := s.lv];
      best := Chosen(p, s, q.v, threshold, m.max);
      dirtyMax := MaxAfter(p, s, q.v, threshold, m.max);
      ScanBest(p, s);
      GatheredSeen(p, q.v, s.seen, threshold, m.max);
      GatheredLatest(p, q.v, s.seen, threshold, m.max);
      last' := s.last;
      how := Scanned(p, b, s, threshold, m.max);
    }

    /** Passes, with at most one retry without age limit and one without completion targets. */
    method Search(q: Request) returns (victim: Seg, ghost how: How, target: bool, ghost passes: nat)
      requires Valid()
      requires TargetFirst(q) && Budget(g, q) > 0 ==> SearchEnds(g, q, Mem(q), Total(g), q.v.ageThreshold)
      requires PicksFromTree(q.v)
      modifies this`lastVictim, this`dirtyMax, this`nextBG, this`nextFG, this`victimSecs
      ensures Valid() && passes <= 3 && (target ==> TargetFirst(q))
      ensures victim.Seg? && how.Queued? ==> victim == old(nextBG) || (q.gc == FG && victim == old(nextFG))
      ensures victim.Seg? && !how.Queued? ==> !InUse(q.v, curVictimSec, SecOf(g, victim.no))
      ensures victim.Seg? && target ==> q.v.matches(victim.no)
      ensures victim.Seg? ==> !how.Asked?
      ensures how.Scanned? ==> ScanFound(how, q, target, victim) && UnderPolicy(g, q, how.p, curVictimSec, victimSecs)
      ensures Budget(g, q) > 0 && Takes(g, q, q.v.hasTarget, old(nextBG)) ==> victim == old(nextBG) && how.Queued?
      ensures victim == NullSeg ==> if Budget(g, q) == 0 then how.Asked? && passes == 0 else how.Scanned? && !target
      ensures victim == NullSeg && Budget(g, q) > 0 && ByAge(q) ==> how.threshold == 0 || q.v.elapsed >= how.threshold
      ensures !(q.alloc == LFS && q.gc == FG) ==> victimSecs == old(victimSecs)
      // A search without targets and not by age looks at everything dirty before it gives up.
      ensures victim == NullSeg && Budget(g, q) > 0 && !TargetFirst(q) && !ByAge(q)
              && Regular(g, q, old(lastVictim[GcMode(q)])) ==>
                how.Scanned? && AllSeen(how.p, how.s.seen)
    {
      hide ScanFound, BestOf, Found, Covered, HaltsAt, Final, FirstMarked, PassPicks, MaxAfter, AllSeen, Regular,
        UnderPolicy;
      target := TargetFirst(q);
      passes, victim := 0, NullSeg;
      var threshold := q.v.ageThreshold;
      var last := Total(g);
      how := Asked;
      if Budget(g, q) == 0 {
        return;
      }
      while true
        invariant Valid() && nextBG == old(nextBG) && nextFG == old(nextFG) && curVictimSec == old(curVictimSec)
        invariant target ==> TargetFirst(q) && SearchEnds(g, q, Mem(q), last, threshold)
        invariant passes <= (if target || !TargetFirst(q) then 0 else 1) + (if threshold == 0 then 1 else 0)
        invariant !(q.alloc == LFS && q.gc == FG) ==> victimSecs == old(victimSecs)
        invariant passes > 0 ==> !Takes(g, q, q.v.hasTarget, nextBG)
        invariant passes == 0 ==> target == TargetFirst(q)
        invariant passes == 0 ==> last == Total(g) && lastVictim == old(lastVictim)
        invariant !TargetFirst(q) && !ByAge(q) ==> passes == 0
        decreases target, threshold
      {
        var queued;
        victim, queued := Shortcut(q, target);
        if victim.Seg? {
          how := if queued then Queued else Background;
          return;
        }
        passes := passes + 1;
        if !target { UsuallyEnds(PolicyFor(g, q, Mem(q), target), ScanFor(g, q, Mem(q), last)); }
        ghost var m, before := Mem(q), last;
        victim, last, how := RunPass(q, target, last, threshold);
        PolicyIs(g, q, m, target);
        if !TargetFirst(q) && !ByAge(q) && Regular(g, q, m.lv) { CleanSweep(g, q, m, before, threshold); }
        if ByAge(q) && victim == NullSeg && q.v.elapsed < threshold {
          threshold := 0;
        } else if victim == NullSeg && target {
          target := false;
        } else {
          return;
        }
      }
    }

    /**
      get_victim_by_default.  `want` is the segment the caller insists on, if any.
      `how` tells where the victim comes from, `target` whether the search was
      still for completion targets, and `passes` counts the scans.
    */
    method GetVictim(want: Seg, q: Request)
      returns (err: int, victim: Seg, ghost how: How, target: bool, ghost passes: nat)
      requires Valid()
      requires want == NullSeg && TargetFirst(q) && Budget(g, q) > 0 ==>
                 SearchEnds(g, q, Mem(q), Total(g), q.v.ageThreshold)
      requires PicksFromTree(q.v)
      modifies this
      ensures Valid() && passes <= 3 && (err == 0 <==> victim.Seg?)
      ensures want.Seg? ==>
                if q.v.emptySeg(want.no) then err == ENODATA
                else if old(InUse(q.v, curVictimSec, SecOf(g, want.no))) then err == EBUSY
                else victim == want
      ensures err == 0 && how.Queued? ==> victim == old(nextBG) || (q.gc == FG && victim == old(nextFG))
      // A victim that was not queued is never in a current section or the one being collected.
      ensures err == 0 && !how.Queued? ==> !old(InUse(q.v, curVictimSec, SecOf(g, victim.no)))
      // As long as the search is for completion targets, whatever is picked matches one.
      ensures err == 0 && target && want == NullSeg ==> q.v.matches(victim.no)
      // A victim of a scan is a candidate seen, at least cost, under the policy that the request calls for.
      ensures how.Scanned? ==> ScanFound(how, q, target, victim)
      ensures how.Scanned? ==> UnderPolicy(g, q, how.p, old(curVictimSec), old(victimSecs))
      // A queued segment that is wanted goes before any scan.
      ensures want == NullSeg && Budget(g, q) > 0 && Takes(g, q, q.v.hasTarget, old(nextBG)) ==> victim == old(nextBG)
      // No victim: nothing is dirty, or the last pass had no targets and found nothing cheap enough.
      ensures err != 0 && want == NullSeg ==>
                err == ENODATA &&
                if Dirty(g, q) == {} || (g.maxSearch == 0 && !Unlimited(q)) then how.Asked? else how.Scanned? && !target
      // Not by age, only what is too dear is passed over, and a victim never is.
      ensures want == NullSeg && how.Scanned? && !ByAge(q) ==>
                if victim.Seg? then !Dear(g, q, victim.no)
                else forall c :: c in how.s.seen && how.p.legal(c) ==> Dear(g, q, c)
      // Without targets nothing dirty is missed: all that could be cleaned is too dear.
      ensures err != 0 && want == NullSeg && !ByAge(q) && !TargetFirst(q)
              && Regular(g, q, old(lastVictim[GcMode(q)])) && (Unlimited(q) || g.maxSearch > 0) ==>
                forall x :: x in Dirty(g, q) && LegalSeg(g, q, old(curVictimSec), old(victimSecs), First(g, q, x)) ==>
                  Dear(g, q, First(g, q, x))
      // By age, and then with no age limit left that the time since mounting could lift.
      ensures err != 0 && want == NullSeg && Budget(g, q) > 0 && ByAge(q) ==>
                how.threshold == 0 || q.v.elapsed >= how.threshold
      // The section picked is marked.
      ensures err == 0 && want == NullSeg && q.alloc == LFS ==>
                var sec := SecOf(g, victim.no);
                if q.gc == FG then curVictimSec == Seg(sec) else sec in victimSecs
      ensures q.alloc != LFS ==> victimSecs == old(victimSecs) && curVictimSec == old(curVictimSec)
    {
      hide ScanFound, BestOf, Found, Covered, SearchEnds, Regular, AllSeen, UnderPolicy, Dear, LegalSeg;
      if want.Seg? {
        target := TargetFirst(q);
        if q.v.emptySeg(want.no) {
          return ENODATA, NullSeg, Asked, target, 0;
        }
        if InUse(q.v, curVictimSec, SecOf(g, want.no)) {
          return EBUSY, NullSeg, Asked, target, 0;
        }
        return 0, want, Asked, target, 0;
      }
      victim, how, target, passes := Search(q);
      SomeBudget(g, q);
      if how.Scanned? {
        SamePolicy(g, q, how.p, curVictimSec, victimSecs, old(victimSecs));
        if !ByAge(q) {
          PassedOver(g, q, how, target, victim, curVictimSec, victimSecs);
          if victim == NullSeg && AllSeen(how.p, how.s.seen) {
            NothingMissed(g, q, how, curVictimSec, old(victimSecs));
          }
        }
      }
      if victim == NullSeg {
        err := ENODATA;
        return;
      }
      err := 0;
      if q.alloc == LFS {
        if q.gc == FG {
          curVictimSec := Seg(SecOf(g, victim.no));
        } else {
          victimSecs := victimSecs + {SecOf(g, victim.no)};
        }
      }
    }
  }

  /** The first segment of a unit searched. */
  function First(g: Geometry, q: Request, x: nat): nat {
    Arith.NonNeg(x, Unit(g, q));
    x * Unit(g, q)
  }

  /** The last victim is at a whole unit, all that is dirty is in the main area, and the budget is enough for it. */
  ghost predicate Regular(g: Geometry, q: Request, lv: nat)
    requires Sane(g)
  {
    && lv % Unit(g, q) == 0 && lv <= Total(g) && (Unlimited(q) || |Dirty(g, q)| <= g.maxSearch)
    && forall x :: x in Dirty(g, q) ==> x < if q.alloc == LFS then g.mainSecs else Total(g)
  }

  lemma SomeBudget(g: Geometry, q: Request)
    ensures Budget(g, q) == 0 <==> Dirty(g, q) == {} || (g.maxSearch == 0 && !Unlimited(q))
  {
    assert |Dirty(g, q)| == 0 <==> Dirty(g, q) == {};
  }

  lemma PolicyIs(g: Geometry, q: Request, m: Memory, target: bool)
    requires Sane(g)
    ensures UnderPolicy(g, q, PolicyFor(g, q, m, target), m.current, m.victims)
  {
    forall c: nat | !ByAge(q)
      ensures Dear(g, q, c) <==> GcCost(q, c) >= MaxCost(g, q)
    {
      DearIff(g, q, c);
    }
  }

  /** Only background GC minds the marked sections. */
  lemma SamePolicy(g: Geometry, q: Request, p: Policy, current: Seg, victims: set<nat>, victims': set<nat>)
    requires Sane(g) && UnderPolicy(g, q, p, current, victims) && (q.gc == FG || victims == victims')
    ensures UnderPolicy(g, q, p, current, victims')
  {
  }

  lemma PassedOver(g: Geometry, q: Request, how: How, target: bool, victim: Seg, current: Seg, victims: set<nat>)
    requires Sane(g) && how.Scanned? && ScanFound(how, q, target, victim) && !ByAge(q)
    requires UnderPolicy(g, q, how.p, current, victims)
    ensures if victim.Seg? then !Dear(g, q, victim.no)
            else !target ==> forall c :: c in how.s.seen && how.p.legal(c) ==> Dear(g, q, c)
  {
    hide LegalSeg, Dear, Found, Covered;
  }

  lemma NothingMissed(g: Geometry, q: Request, how: How, current: Seg, victims: set<nat>)
    requires Sane(g) && how.Scanned? && UnderPolicy(g, q, how.p, current, victims) && AllSeen(how.p, how.s.seen)
    requires forall c :: c in how.s.seen && how.p.legal(c) ==> Dear(g, q, c)
    ensures forall x :: x in Dirty(g, q) && LegalSeg(g, q, current, victims, First(g, q, x)) ==>
              Dear(g, q, First(g, q, x))
  {
    hide Dear;
    forall x | x in Dirty(g, q)
      ensures First(g, q, x) in how.s.seen
    {
    }
  }

  lemma RegularAmple(g: Geometry, q: Request, m: Memory)
    requires Sane(g) && Regular(g, q, m.lv)
    ensures Ample(PolicyFor(g, q, m, false), ScanFor(g, q, m, Total(g)))
  {
    Arith.DivMod(g.mainSecs, g.segsPerSec, 0);
    Arith.DivMod(Total(g), 1, 0);
  }

  /** The first pass without targets and with budget for all that is dirty looks at all of it. */
  lemma CleanSweep(g: Geometry, q: Request, m: Memory, last: nat, threshold: nat)
    requires Sane(g) && Regular(g, q, m.lv) && Budget(g, q) > 0 && last == Total(g)
    ensures PassEnds(g, q, m, false, last)
    ensures AllSeen(PolicyFor(g, q, m, false), PassFrom(g, q, m, false, last, threshold).s.seen)
  {
    RegularAmple(g, q, m);
    SeesAll(PolicyFor(g, q, m, false), ScanFor(g, q, m, last));
  }

  // ------------------------------------------------ the search after one for targets

  /** A search for targets that finds none leaves the bound of its second leg behind. */
  lemma {:induction false} FinalUncharged(p: Policy, s: Scan)
    requires p.unit > 0 && p.total > 0 && p.target && (forall c: nat :: !p.matches(c)) && s.searched == 0 < p.budget
    requires HaltsAt(p, s) && Whole(p, s.last) && Whole(p, s.lv) && s.best == NullSeg
    ensures var f := Final(p, s);
            f.best == NullSeg && f.lv == 0 && f.last == if s.lv != 0 then s.lv else s.last
    decreases if s.lv != 0 then 1 else 0, Rest(p, s), p.budget - s.searched
  {
    hide UnitOf, SegOf, Whole, HaltsAt, Rest;
    StepHalts(p, s);
    FinalStep(p, s);
    StepCases(p, s);
    UnitOfZero(p);
    match Step(p, s)
    case Go(t) => FinalUncharged(p, t);
    case Exhausted(t) =>
    case Spent(t) =>
  }

  /** With one leg left, nothing past the bound is looked at. */
  lemma {:induction false} FinalBelow(p: Policy, s: Scan)
    requires p.unit > 0 && p.total > 0 && s.searched < p.budget && HaltsAt(p, s) && s.lv == 0
    requires forall c :: c in s.seen ==> c < s.last
    ensures forall c :: c in Final(p, s).seen ==> c < s.last
    decreases Rest(p, s), p.budget - s.searched
  {
    hide UnitOf, SegOf, Whole, HaltsAt, Rest;
    StepHalts(p, s);
    FinalStep(p, s);
    if Step(p, s).Go? { FinalBelow(p, Step(p, s).s); }
  }

  /**
    The fallback to a search without targets keeps the bound that the search for
    targets has shrunk: it looks at everything dirty if and only if the last victim
    was at the start, or everything dirty lies before it.
  */
  lemma FallbackSeesAllIff(g: Geometry, q: Request, m: Memory, threshold: nat)
    requires Sane(g) && TargetFirst(q) && !ByAge(q) && Budget(g, q) > 0 && Regular(g, q, m.lv)
    requires forall c: nat :: !q.v.matches(c)
    ensures PassEnds(g, q, m, true, Total(g))
    ensures var how := PassFrom(g, q, m, true, Total(g), threshold);
            var m' := PassLeaves(how, q.v, m);
            && PassPicks(how, q.v) == NullSeg && PassEnds(g, q, m', false, how.s.last)
            && (AllSeen(PolicyFor(g, q, m', false), PassFrom(g, q, m', false, how.s.last, threshold).s.seen)
                <==> m.lv == 0 || forall x :: x in Dirty(g, q) ==> First(g, q, x) < m.lv)
  {
    hide UnitOf, SegOf, Whole, HaltsAt, Final, Regular, LegalSeg, AllSeen;
    TargetPassBegins(g, q, m);
    var p, b := PolicyFor(g, q, m, true), ScanFor(g, q, m, Total(g));
    FinalUncharged(p, b);
    var how := PassFrom(g, q, m, true, Total(g), threshold);
    FallbackSees(g, q, m, PassLeaves(how, q.v, m), how.s.last);
  }

  lemma TargetPassBegins(g: Geometry, q: Request, m: Memory)
    requires Sane(g) && q.alloc == LFS && Regular(g, q, m.lv)
    ensures var p, b := PolicyFor(g, q, m, true), ScanFor(g, q, m, Total(g));
            Whole(p, b.last) && Whole(p, b.lv) && HaltsAt(p, b)
  {
    Arith.DivMod(g.mainSecs, g.segsPerSec, 0);
    UsuallyEnds(PolicyFor(g, q, m, true), ScanFor(g, q, m, Total(g)));
  }

  lemma FallbackSees(g: Geometry, q: Request, m: Memory, m': Memory, last: nat)
    requires Sane(g) && q.alloc == LFS && !ByAge(q) && Budget(g, q) > 0 && Regular(g, q, m.lv)
    requires m'.lv == 0 && last == if m.lv != 0 then m.lv else Total(g)
    ensures var p, b := PolicyFor(g, q, m', false), ScanFor(g, q, m', last);
            && HaltsAt(p, b)
            && (AllSeen(p, Final(p, b).seen)
                <==> m.lv == 0 || forall x :: x in Dirty(g, q) ==> First(g, q, x) < m.lv)
  {
    var p, b := PolicyFor(g, q, m', false), ScanFor(g, q, m', last);
    UsuallyEnds(p, b);
    FinalBelow(p, b);
    hide UnitOf, Whole, HaltsAt, Final, Regular, LegalSeg, Ample;
    if m.lv == 0 || forall x :: x in Dirty(g, q) ==> First(g, q, x) < m.lv {
      FallbackAmple(g, q, m, m', last);
      SeesAll(p, b);
    } else {
      var x :| x in Dirty(g, q) && First(g, q, x) >= m.lv;
      assert SegOf(p, x) == First(g, q, x);
    }
  }

  lemma {:induction false} FinalEnd(p: Policy, b: Scan, s: Scan)
    requires p.unit > 0 && p.total > 0 && PassInv(p, b, s) && s.searched < p.budget && HaltsAt(p, s)
    ensures PassEnd(p, b, Final(p, s))
    decreases if s.lv != 0 then 1 else 0, Rest(p, s), p.budget - s.searched
  {
    hide UnitOf, SegOf, Whole, HaltsAt, Rest, PassInv, PassEnd;
    StepHalts(p, s);
    FinalStep(p, s);
    StepInv(p, b, s);
    if Step(p, s).Go? { FinalEnd(p, b, Step(p, s).s); }
  }

  /**
    A foreground search for targets that nothing matches, from section 4 of 8, then
    finds no victim at all, although section 6 could be cleaned at a cost of 10.
  */
  lemma FallbackMisses(g: Geometry, q: Request, m: Memory, threshold: nat)
    requires g == Geometry(8, 1, 512, 4096) && TargetFirst(q) && q.gc == FG && q.v.mode == Greedy
    requires q.v.dirtySegs == {6} && m.lv == 4 && (forall c: nat :: !q.v.matches(c))
    requires LegalSeg(g, q, m.current, m.victims, 6) && q.v.secValid(6) == 10
    ensures PassEnds(g, q, m, true, 8) && !Dear(g, q, 6)
    ensures var how := PassFrom(g, q, m, true, 8, threshold);
            var m' := PassLeaves(how, q.v, m);
            && PassPicks(how, q.v) == NullSeg && PassEnds(g, q, m', false, how.s.last)
            && PassPicks(PassFrom(g, q, m', false, how.s.last, threshold), q.v) == NullSeg
  {
    hide LegalSeg, HaltsAt, Final, UnitOf, AllSeen;
    assert Regular(g, q, m.lv);
    FallbackSeesAllIff(g, q, m, threshold);
    TargetPassBegins(g, q, m);
    FinalUncharged(PolicyFor(g, q, m, true), ScanFor(g, q, m, 8));
    var how := PassFrom(g, q, m, true, 8, threshold);
    var m' := PassLeaves(how, q.v, m);
    assert how.s.last == 4 && m'.lv == 0;
    FallbackFindsNone(PolicyFor(g, q, m', false), ScanFor(g, q, m', 4));
  }

  /** A pass over a bound before all that is dirty finds nothing. */
  lemma FallbackFindsNone(p: Policy, b: Scan)
    requires p.unit > 0 && p.total > 0 && p.budget > 0 && HaltsAt(p, b) && b.lv == 0 && Whole(p, b.last)
    requires b.searched == 0 && b.seen == [] && b.best == NullSeg && b.bestCost == p.maxCost
    requires forall x :: x in p.dirty ==> SegOf(p, x) >= b.last
    ensures Final(p, b).best == NullSeg
  {
    UnitOfZero(p);
    hide UnitOf, SegOf, Whole, HaltsAt;
    Begins(p, b);
    FinalEnd(p, b, b);
    FinalBelow(p, b);
  }

  lemma FallbackAmple(g: Geometry, q: Request, m: Memory, m': Memory, last: nat)
    requires Sane(g) && q.alloc == LFS && Regular(g, q, m.lv)
    requires m'.lv == 0 && last == if m.lv != 0 then m.lv else Total(g)
    requires m.lv == 0 || forall x :: x in Dirty(g, q) ==> First(g, q, x) < m.lv
    ensures Ample(PolicyFor(g, q, m', false), ScanFor(g, q, m', last))
  {
    Arith.DivMod(g.mainSecs, g.segsPerSec, 0);
    forall x | x in Dirty(g, q)
      ensures x < last / g.segsPerSec
    {
      if m.lv != 0 {
        Arith.Division(m.lv, g.segsPerSec);
        Arith.Quotient(x, m.lv / g.segsPerSec, g.segsPerSec, First(g, q, x));
      }
    }
  }

  /** The policy of a pass is the one that the request and the state call for. */
  ghost predicate UnderPolicy(g: Geometry, q: Request, p: Policy, current: Seg, victims: set<nat>)
    requires Sane(g)
  {
    && p.unit == (if q.alloc == LFS then g.segsPerSec else 1) && p.total == Total(g)
    && p.dirty == (if q.alloc == LFS && g.segsPerSec > 1 then q.v.dirtySecs else q.v.dirtySegs)
    && p.budget == (if Unlimited(q) || |p.dirty| <= g.maxSearch then |p.dirty| else g.maxSearch)
    && p.byAge == (q.alloc == AtSSR || (q.alloc == LFS && q.v.mode == AgeThreshold))
    && (forall c: nat :: p.legal(c) <==>
          && q.v.sound(c) && SecOf(g, c) !in q.v.currentSecs && current != Seg(SecOf(g, c))
          && (q.gc == BG ==> SecOf(g, c) !in victims))
    && (forall c: nat :: !p.byAge ==> (p.cost(c) >= p.maxCost <==> Dear(g, q, c)))
    && (q.alloc == SSR ==> forall c: nat :: p.cost(c) == q.v.ckptValid(c))
    && (q.alloc == LFS && q.v.mode == Greedy ==> forall c: nat :: p.cost(c) == q.v.secValid(c))
    && (q.alloc == LFS && q.v.mode == CostBenefit ==> forall c: nat :: p.cost(c) == q.v.cbCost(c))
  }

  /** All dirty units may be looked at, however many. */
  predicate Unlimited(q: Request) {
    q.gc == FG || q.v.urgent || q.alloc == AtSSR || (q.alloc == LFS && q.v.mode == AgeThreshold)
  }

  lemma {:induction false} FinalWhole(p: Policy, s: Scan)
    requires p.unit > 0 && p.total > 0 && s.searched < p.budget && HaltsAt(p, s)
    requires Whole(p, p.total) && Whole(p, p.lastVictim) && Whole(p, s.last) && Whole(p, s.lv)
    ensures Whole(p, Final(p, s).last) && Whole(p, Final(p, s).lv)
    decreases if s.lv != 0 then 1 else 0, Rest(p, s), p.budget - s.searched
  {
    hide UnitOf, SegOf, Whole, HaltsAt, Rest;
    StepHalts(p, s);
    UnitOfZero(p);
    Wherever(p, s, NextUnit(p.dirty, UnitOf(p, s.last), UnitOf(p, s.offset)));
    if Step(p, s).Go? { FinalWhole(p, Step(p, s).s); }
  }

  predicate AtSection(g: Geometry, x: nat)
    requires g.segsPerSec > 0
  {
    x % g.segsPerSec == 0
  }

  lemma AlignedPass(g: Geometry, q: Request, m: Memory, last: nat)
    requires Sane(g) && Budget(g, q) > 0 && q.alloc == LFS && AtSection(g, m.lv) && AtSection(g, last)
    ensures var p, b := PolicyFor(g, q, m, true), ScanFor(g, q, m, last);
            HaltsAt(p, b) && AtSection(g, Final(p, b).lv) && AtSection(g, Final(p, b).last)
  {
    var p, b := PolicyFor(g, q, m, true), ScanFor(g, q, m, last);
    Arith.DivMod(g.mainSecs, g.segsPerSec, 0);
    UsuallyEnds(p, b);
    FinalWhole(p, b);
  }

  /** A search for targets that starts at a whole section always ends. */
  lemma {:induction false} AlignedEnds(g: Geometry, q: Request, m: Memory, last: nat, threshold: nat)
    requires Sane(g) && Budget(g, q) > 0 && q.alloc == LFS && AtSection(g, m.lv) && AtSection(g, last)
    ensures SearchEnds(g, q, m, last, threshold)
    decreases threshold
  {
    hide AtSection, HaltsAt, Final, Chosen, MaxAfter, Takes, FirstMarked, LegalSeg;
    var m' := Quick(g, q, m, true).1;
    assert m'.lv == m.lv;
    AlignedPass(g, q, m', last);
    if q.v.elapsed < threshold {
      var how := PassFrom(g, q, m', true, last, threshold);
      AlignedEnds(g, q, PassLeaves(how, q.v, m'), how.s.last, 0);
    }
  }
}
