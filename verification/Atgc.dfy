/**
  Age-threshold victim lookup (atgc_lookup_victim in gc.c): costs in 64-bit
  arithmetic that must neither wrap nor pass UINT_MAX, and a scan over the
  candidates in order of age.
*/
module Atgc {

  import Arith

  const U64_MAX: nat := 0xFFFF_FFFF_FFFF_FFFF
  const UINT_MAX: nat := 0xFFFF_FFFF
  const ACCURACY: nat := 10000        // DEFAULT_ACCURACY_CLASS

  datatype Candidate = Candidate(segno: nat, mtime: nat, valid: nat)

  /** Bounds of the modification times seen, blocks per section, and the weight of age in percent. */
  datatype Params = Params(min: nat, max: nat, secBlocks: nat, weight: nat)

  /** What settings and caller guarantee: a weight in percent, a time that has not reached the end of 64 bits. */
  predicate Settings(p: Params) { p.max < U64_MAX && 0 < p.secBlocks <= UINT_MAX && p.weight <= 100 }

  predicate Sane(p: Params) { Settings(p) && p.min <= p.max }

  function Total(p: Params): (t: nat)
    requires Sane(p)
    ensures 0 < t <= U64_MAX
  {
    p.max + 1 - p.min
  }

  function Accu(p: Params): nat
    requires Sane(p)
  {
    var a := U64_MAX / Total(p) / 100;
    if a < ACCURACY then a else ACCURACY
  }

  predicate Timely(p: Params, c: Candidate) { p.min <= c.mtime <= p.max }

  /** A section with some but not all blocks valid, as the source insists. */
  predicate Partial(p: Params, c: Candidate) { 0 < c.valid < p.secBlocks }

  /** accu * x / whole: what `x` is of `whole`, scaled. */
  function Share(accu: nat, x: nat, whole: nat): (r: nat)
    requires whole > 0
  {
    Arith.DivNat(accu * x, whole);
    accu * x / whole
  }

  function Age(p: Params, c: Candidate): nat
    requires Sane(p) && Timely(p, c)
  {
    Times(Share(Accu(p), p.max + 1 - c.mtime, Total(p)), p.weight)
  }

  function Free(p: Params, c: Candidate): nat
    requires Sane(p) && Partial(p, c)
  {
    Times(Share(Accu(p), p.secBlocks - c.valid, p.secBlocks), 100 - p.weight)
  }

  function Times(a: nat, b: nat): nat { a * b }

  // ----------------------------------------------------------------- no overflow

  lemma Scaled(accu: nat, x: nat, whole: nat)
    requires x <= whole && whole > 0
    ensures Share(accu, x, whole) <= accu
  {
    assert accu * (whole - x) >= 0;
    var q := accu * x / whole;
    assert q * whole <= accu * x;
    if q > accu { Arith.Multiples(accu, q, whole); }
  }

  lemma AccuBound(p: Params)
    requires Sane(p)
    ensures Accu(p) <= ACCURACY && Times(Accu(p), Total(p)) <= U64_MAX
  {
    var q := U64_MAX / Total(p);
    assert q * Total(p) <= U64_MAX;
    Arith.DivBound(q, 100);
    Product(Accu(p), Total(p), q, Total(p));
  }

  /** No product leaves 64 bits, and age and free space together stay below UINT_MAX. */
  lemma CostFits(p: Params, c: Candidate)
    requires Sane(p) && Timely(p, c) && Partial(p, c)
    ensures Times(Accu(p), p.max + 1 - c.mtime) <= U64_MAX && Times(Accu(p), p.secBlocks - c.valid) <= U64_MAX
    ensures Age(p, c) <= ACCURACY * p.weight && Free(p, c) <= ACCURACY * (100 - p.weight)
    ensures Age(p, c) + Free(p, c) <= 100 * ACCURACY < UINT_MAX
  {
    AccuBound(p);
    var aged, freed := Share(Accu(p), p.max + 1 - c.mtime, Total(p)),
                      Share(Accu(p), p.secBlocks - c.valid, p.secBlocks);
    Scaled(Accu(p), p.max + 1 - c.mtime, Total(p));
    Scaled(Accu(p), p.secBlocks - c.valid, p.secBlocks);
    Product(Accu(p), p.max + 1 - c.mtime, Accu(p), Total(p));
    Product(Accu(p), p.secBlocks - c.valid, ACCURACY, UINT_MAX);
    Product(aged, p.weight, ACCURACY, p.weight);
    Product(freed, 100 - p.weight, ACCURACY, 100 - p.weight);
    Bounds(p);
    hide Times, Share, Accu;
  }

  lemma Bounds(p: Params)
    ensures Times(ACCURACY, UINT_MAX) <= U64_MAX
    ensures p.weight <= 100 ==>
              Times(ACCURACY, p.weight) == ACCURACY * p.weight
              && Times(ACCURACY, 100 - p.weight) == ACCURACY * (100 - p.weight)
  {
  }

  lemma Product(a: nat, b: nat, c: nat, d: nat)
    requires a <= c && b <= d
    ensures Times(a, b) <= Times(c, d)
  {
    assert (c - a) * d >= 0 && a * (d - b) >= 0;
  }

  function Cost(p: Params, c: Candidate): (r: nat)
    requires Sane(p) && Timely(p, c) && Partial(p, c)
    ensures 0 < r <= UINT_MAX
  {
    CostFits(p, c);
    UINT_MAX - (Age(p, c) + Free(p, c))
  }

  lemma ShareGrows(accu: nat, x: nat, y: nat, whole: nat)
    requires whole > 0 && x <= y
    ensures Share(accu, x, whole) <= Share(accu, y, whole)
  {
    Product(accu, x, accu, y);
    Arith.DivLe(accu * x, accu * y, whole);
  }

  /** Of two candidates the one that is as old or older and has as few or fewer valid blocks never costs more. */
  lemma CostOrder(p: Params, c: Candidate, d: Candidate)
    requires Sane(p) && Timely(p, c) && Partial(p, c) && Timely(p, d) && Partial(p, d)
    requires c.mtime <= d.mtime && c.valid <= d.valid
    ensures Cost(p, c) <= Cost(p, d)
  {
    hide Accu, Times, Share;
    ShareGrows(Accu(p), p.max + 1 - d.mtime, p.max + 1 - c.mtime, Total(p));
    ShareGrows(Accu(p), p.secBlocks - d.valid, p.secBlocks - c.valid, p.secBlocks);
    Product(Share(Accu(p), p.max + 1 - d.mtime, Total(p)), p.weight,
            Share(Accu(p), p.max + 1 - c.mtime, Total(p)), p.weight);
    Product(Share(Accu(p), p.secBlocks - d.valid, p.secBlocks), 100 - p.weight,
            Share(Accu(p), p.secBlocks - c.valid, p.secBlocks), 100 - p.weight);
  }

  /** A weight of 0 leaves age out, one of 100 free space, and the oldest candidate has the whole share of age. */
  lemma CostExtremes(p: Params, c: Candidate)
    requires Sane(p) && Timely(p, c) && Partial(p, c)
    ensures p.weight == 0 ==> Age(p, c) == 0
    ensures p.weight == 100 ==> Free(p, c) == 0
    ensures c.mtime == p.min ==> Age(p, c) == Times(Accu(p), p.weight)
  {
    if c.mtime == p.min { Arith.DivMod(Accu(p), Total(p), 0); }
  }

  // ---------------------------------------------------------------------- the scan

  datatype Best = None | Best(segno: nat, cost: nat, age: nat)

  /** How many of the first `n` candidates are within the times. */
  function TimelyIn(p: Params, cs: seq<Candidate>, n: nat): nat
    requires n <= |cs|
  {
    if n == 0 then 0 else TimelyIn(p, cs, n - 1) + if Timely(p, cs[n - 1]) then 1 else 0
  }

  /** Cheapest, among equals oldest, and among those first, of the first `n` within the times. */
  ghost predicate Cheapest(p: Params, cs: seq<Candidate>, n: nat, limit: nat, b: Best)
    requires Sane(p) && n <= |cs| && forall i :: 0 <= i < |cs| ==> Partial(p, cs[i])
  {
    match b
    case None => forall i :: 0 <= i < n && p.min <= cs[i].mtime <= p.max ==>
      Cost(p, cs[i]) > limit || (Cost(p, cs[i]) == limit && Age(p, cs[i]) == 0)
    case Best(segno, cost, age) =>
      && cost <= limit
      && (exists i ::
            && 0 <= i < n && p.min <= cs[i].mtime <= p.max && cs[i].segno == segno
            && Cost(p, cs[i]) == cost && Age(p, cs[i]) == age
            && forall j :: 0 <= j < n && p.min <= cs[j].mtime <= p.max ==>
                 || Cost(p, cs[j]) > cost
                 || (Cost(p, cs[j]) == cost && (Age(p, cs[j]) < age || (Age(p, cs[j]) == age && i <= j))))
  }

  /**
    atgc_lookup_victim: `cs` are the candidates in tree order, `threshold` how
    many within the times are to be looked at, `limit` the cost to stay under.
  */
  method Lookup(p: Params, cs: seq<Candidate>, threshold: nat, limit: nat) returns (b: Best, n: nat)
    requires Settings(p) && forall i :: 0 <= i < |cs| ==> Partial(p, cs[i])
    ensures p.max < p.min ==> b == None
    ensures n <= |cs| && (Sane(p) ==> Cheapest(p, cs, n, limit, b))
    // The scan stops at the end, or with the threshold reached; the first candidate is always looked at.
    ensures Sane(p) && n < |cs| ==> TimelyIn(p, cs, n) >= threshold && n > 0
    ensures Sane(p) && n > 1 ==> TimelyIn(p, cs, n - 1) < threshold
  {
    hide Age, Cost, Free;
    b, n := None, 0;
    if p.max < p.min {
      return;
    }
    var iter := 0;
    var minCost, oldest := limit, 0;
    while n < |cs|
      invariant n <= |cs| && iter == TimelyIn(p, cs, n)
      invariant n == |cs| || n == 0 || iter < threshold
      invariant n > 1 ==> TimelyIn(p, cs, n - 1) < threshold
      invariant Cheapest(p, cs, n, limit, b)
      invariant if b.None? then minCost == limit && oldest == 0 else minCost == b.cost && oldest == b.age
    {
      var c := cs[n];
      if Timely(p, c) {
        var age, cost := Age(p, c), Cost(p, c);
        iter := iter + 1;
        if cost < minCost || (cost == minCost && age > oldest) {
          minCost, oldest := cost, age;
          b := Best(c.segno, cost, age);
        }
      }
      n := n + 1;
      if iter >= threshold {
        return;
      }
    }
  }
}
