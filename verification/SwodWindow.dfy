/**
  The search for a discard window within a group (swod_eval_group_locked and
  swod_build_window_feat in swod.c).  The search compares coverage values that
  the source never computes: they are uninitialised there, and arbitrary here.
*/
module SwodWindow {

  import Arith
  import opened Widths

  const BP_ONE: nat := 10000

  datatype Action = Bypass | ShortHold | CompletionHold

  /** The window that an evaluation would install, [off, off + len) within the group. */
  datatype Candidate = NoCandidate | Candidate(action: Action, off: nat, len: nat, q: nat, l: nat)

  datatype Window = Window(off: nat, len: nat)

  /** swod_seg_hint by segment, the thresholds, and the values that qbp and lbp happen to have. */
  datatype Hints = Hints(
    pend: nat -> nat, cmds: nat -> nat, oldest: nat -> nat, blocksPerSeg: nat,
    minCmds: nat, maxPiece: nat, minPend: nat, lresThr: nat, wceQ: nat, wceL: nat,
    qbp: Window -> nat, lbp: Window -> nat)

  function Sum(f: nat -> nat, from: nat, n: nat): nat {
    if n == 0 then 0 else Sum(f, from, n - 1) + f(from + n - 1)
  }

  lemma SumNext(f: nat -> nat, from: nat, n: nat)
    ensures Sum(f, from, 0) == 0 && Sum(f, from, n + 1) == Sum(f, from, n) + f(from + n)
  {
  }

  lemma {:induction false} SumSplit(f: nat -> nat, from: nat, a: nat, b: nat)
    ensures Sum(f, from, a + b) == Sum(f, from, a) + Sum(f, from + a, b)
    decreases b
  {
    if b > 0 { SumSplit(f, from, a, b - 1); }
  }

  // --------------------------------------------------------- what a window is worth

  function Pending(h: Hints, first: nat, w: Window): nat { Sum(h.pend, first + w.off, w.len) }

  function Commands(h: Hints, first: nat, w: Window): nat { Sum(h.cmds, first + w.off, w.len) }

  function AtMost(x: nat, m: nat): nat { if x < m then x else m }

  /** The size of a piece as the source has it: scaled, and cut to 16 bits. */
  function PieceOf(pend: nat, cmds: nat): nat {
    if cmds == 0 then 0 else
      Arith.NonNeg(pend, BP_ONE);
      Arith.DivNat(pend * BP_ONE, cmds);
      pend * BP_ONE / cmds % U16
  }

  /** Without commands there is none; where it needs no cutting it is the scaled mean, rounded down. */
  lemma PieceIs(pend: nat, cmds: nat)
    ensures cmds == 0 ==> PieceOf(pend, cmds) == 0
    ensures cmds > 0 && pend * BP_ONE < U16 * cmds ==>
              PieceOf(pend, cmds) * cmds <= pend * BP_ONE < PieceOf(pend, cmds) * cmds + cmds
  {
    if cmds > 0 {
      var q := pend * BP_ONE / cmds;
      Arith.NonNeg(pend, BP_ONE);
      Arith.Division(pend * BP_ONE, cmds);
      if pend * BP_ONE < U16 * cmds { Arith.Quotient(q, U16, cmds, pend * BP_ONE); }
    }
  }

  function Piece(h: Hints, first: nat, w: Window): nat { PieceOf(Pending(h, first, w), Commands(h, first, w)) }

  /** The oldest command; zero stands for none. */
  function Oldest(h: Hints, first: nat, off: nat, len: nat): nat {
    if len == 0 then 0
    else
      var rest, last := Oldest(h, first, off, len - 1), h.oldest(first + off + len - 1);
      if last != 0 && (rest == 0 || last < rest) then last else rest
  }

  /** swod_score_formation of a group that holds nothing, so that nothing can have grown. */
  function Score(h: Hints, first: nat, w: Window): nat {
    if Piece(h, first, w) != 0 && Piece(h, first, w) <= h.maxPiece then 1000 else 0
  }

  predicate Fits(w: Window, n: nat, maxLen: nat) { w.off < n && 1 <= w.len <= maxLen && w.off + w.len <= n }

  /** Neither full already nor with too much left alive. */
  predicate Open(h: Hints, first: nat, w: Window) {
    Pending(h, first, w) != w.len * h.blocksPerSeg && h.lbp(w) <= h.lresThr
  }

  predicate Short(h: Hints, first: nat, w: Window) {
    && Open(h, first, w)
    && AtMost(Commands(h, first, w), U16 - 1) >= h.minCmds && 0 < Piece(h, first, w) <= h.maxPiece
    && Pending(h, first, w) >= h.minPend
  }

  predicate Complete(h: Hints, first: nat, w: Window) {
    Open(h, first, w) && h.qbp(w) >= h.wceQ && h.lbp(w) <= h.wceL
  }

  predicate ShortBetter(h: Hints, first: nat, a: Window, b: Window) {
    var x, y := Score(h, first, a), Score(h, first, b);
    x > y || (x == y && a.len < b.len) || (x == y && a.len == b.len && h.lbp(a) < h.lbp(b))
  }

  predicate Longer(h: Hints, a: Window, b: Window) { a.len > b.len || (a.len == b.len && h.lbp(a) < h.lbp(b)) }

  predicate Ties(h: Hints, a: Window, b: Window) { a.len == b.len && h.lbp(a) == h.lbp(b) }

  /** The order of the search. */
  predicate Before(a: Window, b: Window) { a.off < b.off || (a.off == b.off && a.len < b.len) }

  // ------------------------------------------------------------------ what is found

  /** The shortest short window among those before `at`, of equals the one with the least alive, of those the first. */
  ghost predicate BestShort(h: Hints, first: nat, n: nat, maxLen: nat, at: Window, found: bool, b: Window) {
    if !found then forall w :: Fits(w, n, maxLen) && Before(w, at) ==> !Short(h, first, w)
    else
      && Fits(b, n, maxLen) && Before(b, at) && Short(h, first, b)
      && forall w :: Fits(w, n, maxLen) && Before(w, at) && Short(h, first, w) ==>
           b.len < w.len || (b.len == w.len && (h.lbp(b) < h.lbp(w) || (h.lbp(b) == h.lbp(w) && !Before(w, b))))
  }

  ghost predicate Rival(h: Hints, first: nat, n: nat, maxLen: nat, at: Window, w: Window) {
    Fits(w, n, maxLen) && Before(w, at) && Complete(h, first, w)
  }

  /** Every complete window as good as `b` has commands of known age. */
  ghost predicate Dated(h: Hints, first: nat, n: nat, maxLen: nat, at: Window, b: Window) {
    forall w :: Rival(h, first, n, maxLen, at, w) && Ties(h, w, b) ==> Oldest(h, first, w.off, w.len) > 0
  }

  /** A longest complete window with the least alive among those before `at`; of dated ones, an oldest. */
  ghost predicate BestComplete(h: Hints, first: nat, n: nat, maxLen: nat, at: Window, found: bool, b: Window) {
    if !found then forall w :: !Rival(h, first, n, maxLen, at, w)
    else
      && Rival(h, first, n, maxLen, at, b)
      && (forall w :: Rival(h, first, n, maxLen, at, w) ==>
            w.len < b.len || (w.len == b.len && h.lbp(b) <= h.lbp(w)))
      && (Dated(h, first, n, maxLen, at, b) ==>
            forall w :: Rival(h, first, n, maxLen, at, w) && Ties(h, w, b) ==>
              Oldest(h, first, b.off, b.len) <= Oldest(h, first, w.off, w.len))
  }

  /** Short windows come before complete ones. */
  ghost predicate Found(h: Hints, first: nat, n: nat, maxLen: nat, c: Candidate) {
    var end := Window(n, 0);
    if c == NoCandidate then
      BestShort(h, first, n, maxLen, end, false, end) && BestComplete(h, first, n, maxLen, end, false, end)
    else
      var b := Window(c.off, c.len);
      && c.q == h.qbp(b) % U32 && c.l == h.lbp(b) % U32
      && match c.action
         case Bypass => false
         case ShortHold => BestShort(h, first, n, maxLen, end, true, b)
         case CompletionHold =>
           BestShort(h, first, n, maxLen, end, false, end) && BestComplete(h, first, n, maxLen, end, true, b)
  }

  lemma FoundFits(h: Hints, first: nat, n: nat, maxLen: nat, c: Candidate)
    requires Found(h, first, n, maxLen, c) && c.Candidate?
    ensures 0 < c.len <= maxLen && c.off + c.len <= n && c.action != Bypass
  {
  }

  lemma NothingFits(h: Hints, first: nat, maxLen: nat)
    ensures Found(h, first, 0, maxLen, NoCandidate)
  {
  }

  /** Of short windows none scores higher than another. */
  lemma ShortScore(h: Hints, first: nat, w: Window)
    requires Short(h, first, w)
    ensures Score(h, first, w) == 1000
  {
    hide Piece, Pending, Commands;
  }

  lemma ShortStep(h: Hints, first: nat, n: nat, maxLen: nat, w: Window, found: bool, b: Window)
    requires BestShort(h, first, n, maxLen, w, found, b) && Fits(w, n, maxLen)
    ensures var take := Short(h, first, w) && (!found || ShortBetter(h, first, w, b));
            BestShort(h, first, n, maxLen, Window(w.off, w.len + 1), found || take, if take then w else b)
  {
    forall u | Short(h, first, u)
      ensures Score(h, first, u) == 1000
    {
      ShortScore(h, first, u);
    }
    hide Short, Score, Fits;
    assert forall u :: Before(u, Window(w.off, w.len + 1)) <==> Before(u, w) || u == w;
  }

  lemma CompleteStep(h: Hints, first: nat, n: nat, maxLen: nat, w: Window, found: bool, b: Window)
    requires BestComplete(h, first, n, maxLen, w, found, b) && Fits(w, n, maxLen)
    ensures var since := Oldest(h, first, b.off, b.len);
            var take := Complete(h, first, w) && (!found || Longer(h, w, b) ||
                          (Ties(h, w, b) && (since == 0 || Oldest(h, first, w.off, w.len) < since)));
            BestComplete(h, first, n, maxLen, Window(w.off, w.len + 1), found || take, if take then w else b)
  {
    hide Complete, Oldest, Fits;
    var next := Window(w.off, w.len + 1);
    assert forall u :: Before(u, next) <==> Before(u, w) || u == w;
    assert forall u :: Rival(h, first, n, maxLen, next, u) <==>
                         Rival(h, first, n, maxLen, w, u) || (u == w && Complete(h, first, w));
    if found && Dated(h, first, n, maxLen, next, b) { assert Dated(h, first, n, maxLen, w, b); }
  }

  // --------------------------------------------------------------------- the search

  /** swod_build_window_feat: commands, piece size and blocks of a window. */
  method WindowFeatures(h: Hints, first: nat, w: Window) returns (cmds: nat, piece: nat, pend: nat)
    ensures cmds == AtMost(Commands(h, first, w), U16 - 1) && piece == Piece(h, first, w)
    ensures pend == Pending(h, first, w)
  {
    var all := 0;
    pend := 0;
    for i := 0 to w.len
      invariant all == Sum(h.cmds, first + w.off, i) && pend == Sum(h.pend, first + w.off, i)
    {
      var segno := first + w.off + i;
      all := all + h.cmds(segno);
      pend := pend + h.pend(segno);
    }
    cmds := AtMost(all, U16 - 1);
    piece := PieceOf(pend, all);
  }

  method Prefixes(h: Hints, first: nat, n: nat) returns (pref: seq<nat>)
    ensures |pref| == n + 1 && forall i :: 0 <= i <= n ==> pref[i] == Sum(h.pend, first, i)
  {
    hide Sum;
    pref := [0];
    SumNext(h.pend, first, 0);
    for i := 0 to n
      invariant |pref| == i + 1 && forall j :: 0 <= j <= i ==> pref[j] == Sum(h.pend, first, j)
    {
      SumNext(h.pend, first, i);
      pref := pref + [pref[i] + h.pend(first + i)];
    }
  }

  /** One window in the inner loop; answers the best short and the best complete one so far. */
  method Consider(h: Hints, first: nat, n: nat, maxLen: nat, w: Window, q: nat, oldest: nat,
                  hasShort: bool, short: Window, hasComplete: bool, complete: Window, since: nat)
    returns (hasShort': bool, short': Window, hasComplete': bool, complete': Window, since': nat)
    requires Fits(w, n, maxLen) && q == Pending(h, first, w) && oldest == Oldest(h, first, w.off, w.len)
    requires BestShort(h, first, n, maxLen, w, hasShort, short)
    requires BestComplete(h, first, n, maxLen, w, hasComplete, complete)
    requires hasComplete ==> since == Oldest(h, first, complete.off, complete.len)
    ensures BestShort(h, first, n, maxLen, Window(w.off, w.len + 1), hasShort', short')
    ensures BestComplete(h, first, n, maxLen, Window(w.off, w.len + 1), hasComplete', complete')
    ensures hasComplete' ==> since' == Oldest(h, first, complete'.off, complete'.len)
  {
    hide Oldest, PieceOf, BestShort, BestComplete, Pending, Commands, Piece;
    ShortStep(h, first, n, maxLen, w, hasShort, short);
    CompleteStep(h, first, n, maxLen, w, hasComplete, complete);
    hasShort', short', hasComplete', complete', since' := hasShort, short, hasComplete, complete, since;
    if q == w.len * h.blocksPerSeg || h.lbp(w) > h.lresThr {
      return;
    }
    var cmds, piece, pend := WindowFeatures(h, first, w);
    if cmds >= h.minCmds && piece <= h.maxPiece && pend >= h.minPend && Score(h, first, w) >= 100 {
      if !hasShort || ShortBetter(h, first, w, short) {
        hasShort', short' := true, w;
      }
    }
    if h.qbp(w) >= h.wceQ && h.lbp(w) <= h.wceL {
      if !hasComplete || Longer(h, w, complete) || (Ties(h, w, complete) && (since == 0 || oldest < since)) {
        hasComplete', complete', since' := true, w, oldest;
      }
    }
  }

  /** The two loops of swod_eval_group_locked. */
  method FindWindow(h: Hints, first: nat, n: nat, maxLen: nat) returns (c: Candidate)
    ensures Found(h, first, n, maxLen, c)
  {
    hide Sum, Oldest, Complete, Short;
    var pref := Prefixes(h, first, n);
    var hasShort, short, hasComplete, complete, since := false, Window(n, 0), false, Window(n, 0), 0;
    for off := 0 to n
      invariant BestShort(h, first, n, maxLen, Window(off, 0), hasShort, short)
      invariant BestComplete(h, first, n, maxLen, Window(off, 0), hasComplete, complete)
      invariant hasComplete ==> since == Oldest(h, first, complete.off, complete.len)
    {
      var most := AtMost(maxLen, n - off);
      NextRow(h, first, n, maxLen, off, hasShort, short, hasComplete, complete);
      hasShort, short, hasComplete, complete, since :=
        SearchRow(h, first, n, maxLen, off, most, pref, hasShort, short, hasComplete, complete, since);
      RowDone(h, first, n, maxLen, off, most, hasShort, short, hasComplete, complete);
    }
    AnyNone(h, first, n, maxLen, hasShort, short, hasComplete, complete);
    if hasShort {
      c := Candidate(ShortHold, short.off, short.len, h.qbp(short) % U32, h.lbp(short) % U32);
    } else if hasComplete {
      c := Candidate(CompletionHold, complete.off, complete.len, h.qbp(complete) % U32, h.lbp(complete) % U32);
    } else {
      c := NoCandidate;
    }
  }

  /** The windows that start at `off`. */
  method SearchRow(h: Hints, first: nat, n: nat, maxLen: nat, off: nat, most: nat, pref: seq<nat>,
                   s: bool, short0: Window, c: bool, complete0: Window, since0: nat)
    returns (hasShort: bool, short: Window, hasComplete: bool, complete: Window, since: nat)
    requires off < n && most == AtMost(maxLen, n - off)
    requires |pref| == n + 1 && forall i :: 0 <= i <= n ==> pref[i] == Sum(h.pend, first, i)
    requires BestShort(h, first, n, maxLen, Window(off, 1), s, short0)
    requires BestComplete(h, first, n, maxLen, Window(off, 1), c, complete0)
    requires c ==> since0 == Oldest(h, first, complete0.off, complete0.len)
    ensures BestShort(h, first, n, maxLen, Window(off, most + 1), hasShort, short)
    ensures BestComplete(h, first, n, maxLen, Window(off, most + 1), hasComplete, complete)
    ensures hasComplete ==> since == Oldest(h, first, complete.off, complete.len)
  {
    hide BestShort, BestComplete;
    hasShort, short, hasComplete, complete, since := s, short0, c, complete0, since0;
    var oldest := 0;
    for len := 1 to most + 1
      invariant oldest == Oldest(h, first, off, len - 1)
      invariant BestShort(h, first, n, maxLen, Window(off, len), hasShort, short)
      invariant BestComplete(h, first, n, maxLen, Window(off, len), hasComplete, complete)
      invariant hasComplete ==> since == Oldest(h, first, complete.off, complete.len)
    {
      var last := h.oldest(first + off + len - 1);
      if last != 0 && (oldest == 0 || last < oldest) {
        oldest := last;
      }
      SumSplit(h.pend, first, off, len);
      hasShort, short, hasComplete, complete, since :=
        Consider(h, first, n, maxLen, Window(off, len), pref[off + len] - pref[off], oldest,
                 hasShort, short, hasComplete, complete, since);
    }
  }

  /** Windows have at least one segment. */
  lemma NextRow(h: Hints, first: nat, n: nat, maxLen: nat, off: nat, s: bool, a: Window, c: bool, b: Window)
    requires BestShort(h, first, n, maxLen, Window(off, 0), s, a)
    requires BestComplete(h, first, n, maxLen, Window(off, 0), c, b)
    ensures BestShort(h, first, n, maxLen, Window(off, 1), s, a)
    ensures BestComplete(h, first, n, maxLen, Window(off, 1), c, b)
  {
    SameRange(h, first, n, maxLen, Window(off, 0), Window(off, 1), s, a, c, b);
  }

  lemma RowDone(h: Hints, first: nat, n: nat, maxLen: nat, off: nat, most: nat, s: bool, a: Window, c: bool, b: Window)
    requires off < n && most == AtMost(maxLen, n - off)
    requires BestShort(h, first, n, maxLen, Window(off, most + 1), s, a)
    requires BestComplete(h, first, n, maxLen, Window(off, most + 1), c, b)
    ensures BestShort(h, first, n, maxLen, Window(off + 1, 0), s, a)
    ensures BestComplete(h, first, n, maxLen, Window(off + 1, 0), c, b)
  {
    SameRange(h, first, n, maxLen, Window(off, most + 1), Window(off + 1, 0), s, a, c, b);
  }

  /** Two places of the search with the same windows before them. */
  lemma SameRange(h: Hints, first: nat, n: nat, maxLen: nat, p: Window, p': Window,
                  s: bool, a: Window, c: bool, b: Window)
    requires forall w :: Fits(w, n, maxLen) ==> (Before(w, p) <==> Before(w, p'))
    requires BestShort(h, first, n, maxLen, p, s, a) && BestComplete(h, first, n, maxLen, p, c, b)
    ensures BestShort(h, first, n, maxLen, p', s, a) && BestComplete(h, first, n, maxLen, p', c, b)
  {
    hide Short, Complete, ShortBetter, Oldest;
    assert forall w :: Rival(h, first, n, maxLen, p, w) <==> Rival(h, first, n, maxLen, p', w);
    if Dated(h, first, n, maxLen, p', b) { assert Dated(h, first, n, maxLen, p, b); }
  }

  lemma AnyNone(h: Hints, first: nat, n: nat, maxLen: nat, s: bool, a: Window, c: bool, b: Window)
    requires BestShort(h, first, n, maxLen, Window(n, 0), s, a) && BestComplete(h, first, n, maxLen, Window(n, 0), c, b)
    ensures !s ==> BestShort(h, first, n, maxLen, Window(n, 0), false, Window(n, 0))
    ensures !c ==> BestComplete(h, first, n, maxLen, Window(n, 0), false, Window(n, 0))
  {
  }
}
