/**
  Free segments and free sections (segment.h): two maps and two counters that
  four operations keep in step.

  A section has segsPerSec segments, of which the first `usable` of that section
  can be written (f2fs_usable_segs_in_sec).
*/
module FreeSegmap {

  import Arith

  /** GET_SEC_FROM_SEG. */
  function SecOf(segsPerSec: nat, segno: nat): nat
    requires segsPerSec > 0
  {
    segno / segsPerSec
  }

  predicate Writable(segsPerSec: nat, usable: nat -> nat, segno: nat)
    requires segsPerSec > 0
  {
    segno % segsPerSec < usable(SecOf(segsPerSec, segno))
  }

  lemma SectionExists(segsPerSec: nat, secs: nat, segno: nat)
    requires segsPerSec > 0 && segno < secs * segsPerSec
    ensures SecOf(segsPerSec, segno) < secs
  {
    Arith.Division(segno, segsPerSec);
    Arith.Quotient(segno / segsPerSec, secs, segsPerSec, segno);
  }

  /** The usable segments of a section lie at its front. */
  lemma Front(segsPerSec: nat, usable: nat -> nat, sec: nat, segno: nat)
    requires 0 < segsPerSec && usable(sec) <= segsPerSec
    ensures sec * segsPerSec <= segno < sec * segsPerSec + usable(sec)
            <==> SecOf(segsPerSec, segno) == sec && Writable(segsPerSec, usable, segno)
  {
    Arith.Division(segno, segsPerSec);
    Arith.NonNeg(sec, segsPerSec);
    if sec * segsPerSec <= segno < sec * segsPerSec + usable(sec) {
      Arith.DivMod(sec, segsPerSec, segno - sec * segsPerSec);
    }
  }

  class FreeMap {
    const secs: nat
    const segsPerSec: nat
    const usable: nat -> nat    // by section
    var segInUse: set<nat>      // free_segmap: a set bit means in use
    var secInUse: set<nat>      // free_secmap
    var freeSegments: int
    var freeSections: int

    constructor (secs: nat, segsPerSec: nat, usable: nat -> nat)
      requires segsPerSec > 0 && forall sec :: usable(sec) <= segsPerSec
      ensures Shaped() && Counted() && Covered() && segInUse == {} && secInUse == {}
    {
      this.secs, this.segsPerSec, this.usable := secs, segsPerSec, usable;
      segInUse, secInUse, freeSegments, freeSections := {}, {}, secs * segsPerSec, secs;
    }

    ghost predicate Shaped()
      reads this
    {
      && segsPerSec > 0 && (forall sec :: usable(sec) <= segsPerSec)
      && (forall s :: s in segInUse ==> s < secs * segsPerSec)
      && (forall s :: s in secInUse ==> s < secs)
    }

    /** The counters count the clear bits. */
    predicate Counted()
      reads this
    {
      freeSegments == secs * segsPerSec - |segInUse| && freeSections == secs - |secInUse|
    }

    /** A usable segment in use has its section in use. */
    predicate Covered()
      requires segsPerSec > 0
      reads this
    {
      forall s :: s in segInUse && Writable(segsPerSec, usable, s) ==> SecOf(segsPerSec, s) in secInUse
    }

    /** No usable segment of the section is in use. */
    predicate Idle(sec: nat)
      requires segsPerSec > 0
      reads this
    {
      forall s :: s in segInUse && Writable(segsPerSec, usable, s) ==> SecOf(segsPerSec, s) != sec
    }

    /** find_next_bit over the segments of a section. */
    method NextInUse(sec: nat) returns (next: nat)
      requires segsPerSec > 0 && usable(sec) <= segsPerSec
      ensures next >= sec * segsPerSec + usable(sec) <==> Idle(sec)
    {
      hide SecOf, Writable;
      Arith.NonNeg(sec, segsPerSec);
      next := sec * segsPerSec;
      var end := next + segsPerSec;
      while next < end && next !in segInUse
        invariant sec * segsPerSec <= next <= end
        invariant forall s: nat :: sec * segsPerSec <= s < next ==> s !in segInUse
      {
        next := next + 1;
      }
      forall s: nat
        ensures sec * segsPerSec <= s < sec * segsPerSec + usable(sec)
                <==> SecOf(segsPerSec, s) == sec && Writable(segsPerSec, usable, s)
      {
        Front(segsPerSec, usable, sec, s);
      }
    }

    /**
      __set_free.  The counters stay right exactly when the segment was in use
      and, if its section falls free with it, the section was in use too.
    */
    method SetFree(segno: nat)
      requires Shaped() && Counted() && Covered() && segno < secs * segsPerSec
      modifies this`segInUse, this`secInUse, this`freeSegments, this`freeSections
      ensures Shaped() && Covered() && segInUse == old(segInUse) - {segno}
      ensures secInUse == old(secInUse) - if Idle(SecOf(segsPerSec, segno)) then {SecOf(segsPerSec, segno)} else {}
      ensures freeSegments == old(freeSegments) + 1
      ensures Counted() <==>
              && segno in old(segInUse)
              && (Idle(SecOf(segsPerSec, segno)) ==> SecOf(segsPerSec, segno) in old(secInUse))
    {
      var sec := SecOf(segsPerSec, segno);
      hide SecOf, Writable;
      SectionExists(segsPerSec, secs, segno);
      segInUse := segInUse - {segno};
      freeSegments := freeSegments + 1;
      var next := NextInUse(sec);
      if next >= sec * segsPerSec + usable(sec) {
        secInUse := secInUse - {sec};
        freeSections := freeSections + 1;
      }
    }

    /** __set_inuse.  The counters stay right exactly when the segment was free. */
    method SetInUse(segno: nat)
      requires Shaped() && Counted() && Covered() && segno < secs * segsPerSec
      modifies this`segInUse, this`secInUse, this`freeSegments, this`freeSections
      ensures Shaped() && Covered() && segInUse == old(segInUse) + {segno}
      ensures secInUse == old(secInUse) + {SecOf(segsPerSec, segno)}
      ensures Counted() <==> segno !in old(segInUse)
    {
      var sec := SecOf(segsPerSec, segno);
      hide SecOf, Writable;
      SectionExists(segsPerSec, secs, segno);
      segInUse := segInUse + {segno};
      freeSegments := freeSegments - 1;
      if sec !in secInUse {
        secInUse := secInUse + {sec};
        freeSections := freeSections - 1;
      }
    }

    /** __set_test_and_free: the section of a current segment is kept back unless `inmem`. */
    method SetTestAndFree(segno: nat, inmem: bool, current: set<nat>)
      requires Shaped() && Counted() && Covered() && segno < secs * segsPerSec
      modifies this`segInUse, this`secInUse, this`freeSegments, this`freeSections
      ensures Shaped() && Counted() && Covered() && segInUse == old(segInUse) - {segno}
      ensures var sec := SecOf(segsPerSec, segno);
              secInUse == old(secInUse) -
                if segno in old(segInUse) && (inmem || sec !in current) && Idle(sec) then {sec} else {}
    {
      var sec := SecOf(segsPerSec, segno);
      hide SecOf, Writable;
      SectionExists(segsPerSec, secs, segno);
      if segno in segInUse {
        segInUse := segInUse - {segno};
        freeSegments := freeSegments + 1;
        if !inmem && sec in current {
          return;
        }
        var next := NextInUse(sec);
        if next >= sec * segsPerSec + usable(sec) {
          if sec in secInUse {
            secInUse := secInUse - {sec};
            freeSections := freeSections + 1;
          }
        }
      }
    }

    /** __set_test_and_inuse. */
    method SetTestAndInUse(segno: nat)
      requires Shaped() && Counted() && Covered() && segno < secs * segsPerSec
      modifies this`segInUse, this`secInUse, this`freeSegments, this`freeSections
      ensures Shaped() && Counted() && Covered() && segInUse == old(segInUse) + {segno}
      ensures secInUse == old(secInUse) + if segno in old(segInUse) then {} else {SecOf(segsPerSec, segno)}
    {
      hide SecOf, Writable;
      SectionExists(segsPerSec, secs, segno);
      if segno !in segInUse {
        segInUse := segInUse + {segno};
        freeSegments := freeSegments - 1;
        var sec := SecOf(segsPerSec, segno);
        if sec !in secInUse {
          secInUse := secInUse + {sec};
          freeSections := freeSections - 1;
        }
      }
    }
  }

  /** The free counters never leave their range while they count clear bits. */
  lemma CountersInRange(f: FreeMap)
    requires f.Shaped() && f.Counted()
    ensures 0 <= f.freeSegments <= f.secs * f.segsPerSec && 0 <= f.freeSections <= f.secs
  {
    Bounded(f.segInUse, f.secs * f.segsPerSec);
    Bounded(f.secInUse, f.secs);
  }

  lemma {:induction false} Bounded(s: set<nat>, n: nat)
    requires forall x :: x in s ==> x < n
    ensures |s| <= n
  {
    if n > 0 { Bounded(s - {n - 1}, n - 1); }
  }
}
