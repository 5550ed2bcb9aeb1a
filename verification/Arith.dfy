/**
  Products, quotients and remainders, stated once so that no other proof needs
  nonlinear reasoning.  The proofs here go by repeated addition and by the
  defining equation of division alone.
*/
module Arith {

  // -------------------------------------------------------------------- products

  lemma Next(a: int, n: int)
    ensures (a + 1) * n == a * n + n
  {
  }

  lemma Sum(a: int, b: int, n: int)
    ensures (a + b) * n == a * n + b * n
  {
  }

  lemma {:induction false} NonNeg(a: nat, b: nat)
    ensures a * b >= 0
  {
    if a > 0 {
      NonNeg(a - 1, b);
      Next(a - 1, b);
    }
  }

  /** The next multiple is a whole step further. */
  lemma Multiples(b: nat, c: nat, n: nat)
    requires b < c
    ensures b * n + n <= c * n
  {
    var d: nat := c - (b + 1);
    Sum(b + 1, d, n);
    Next(b, n);
    NonNeg(d, n);
  }

  lemma Grid(k: nat, m: nat, n: nat)
    requires k <= m
    ensures k * n <= m * n && (k + 1) * n == k * n + n && (k < m ==> (k + 1) * n <= m * n)
  {
    Next(k, n);
    if k < m { Multiples(k, m, n); }
  }

  lemma Distribute(a: nat, b: nat, c: nat)
    ensures (a + b) * c == c * a + b * c
  {
    Sum(a, b, c);
  }

  /** A quotient below another. */
  lemma Quotient(b: nat, c: nat, n: nat, x: nat)
    requires b * n <= x < c * n
    ensures b < c
  {
    if c <= b { Grid(c, b, n); }
  }

  lemma Times(m: nat, n: nat)
    requires n > 0
    ensures m <= m * n
  {
    var d: nat := n - 1;
    Sum(d, 1, m);
    NonNeg(d, m);
  }

  /** Less than one step apart is not apart at all. */
  lemma Far(d: int, n: nat)
    ensures d > 0 ==> d * n >= n
    ensures d < 0 ==> d * n + n <= 0
  {
    if d > 0 {
      NonNeg(d - 1, n);
      Next(d - 1, n);
    }
    if d < 0 {
      var e: nat := -d - 1;
      NonNeg(e, n);
      Sum(d + 1, e, n);
      Next(d, n);
    }
  }

  // ------------------------------------------------------- quotients and remainders

  /** The defining equation. */
  lemma Division(x: nat, n: nat)
    requires n > 0
    ensures x == x / n * n + x % n && 0 <= x % n < n && x / n >= 0
  {
  }

  /** Division undoes multiplication. */
  lemma DivMod(k: nat, n: nat, p: nat)
    requires p < n
    ensures (k * n + p) / n == k && (k * n + p) % n == p
  {
    NonNeg(k, n);
    var x := k * n + p;
    Division(x, n);
    Sum(x / n - k, k, n);
    Far(x / n - k, n);
  }

  lemma DivNat(x: nat, d: nat)
    requires d > 0
    ensures x / d >= 0
  {
    Division(x, d);
  }

  lemma DivBound(x: nat, d: nat)
    requires d > 0
    ensures x / d <= x
  {
    Division(x, d);
    Times(x / d, d);
  }

  /** A quotient of at least one means at least one step. */
  lemma DivOne(x: nat, n: nat)
    requires n > 0
    ensures x / n >= 1 <==> x >= n
  {
    Division(x, n);
    if x / n >= 1 { Grid(1, x / n, n); }
  }

  lemma DivSmall(x: nat, n: nat)
    requires x < n
    ensures x / n == 0 && x % n == x
  {
    DivMod(0, n, x);
  }

  /** How a bound that need not be a multiple of `u` cuts the units. */
  lemma Units(x: nat, last: nat, u: nat)
    requires u > 0
    ensures x < last / u ==> x * u < last
    ensures x == last / u ==> (x * u >= last <==> last % u == 0)
    ensures (x * u + u) / u == x + 1
  {
    Division(last, u);
    if x < last / u { Multiples(x, last / u, u); }
    Next(x, u);
    DivMod(x + 1, u, 0);
  }

  lemma AddMod(x: nat, u: nat)
    requires u > 0 && x % u == 0
    ensures (x + u) % u == 0
  {
    Division(x, u);
    Next(x / u, u);
    DivMod(x / u + 1, u, 0);
  }

  /** Reducing a multiple of `u` modulo a multiple of `u` leaves a multiple of `u`. */
  lemma ModMod(x: nat, t: nat, u: nat)
    requires u > 0 && t > 0 && x % u == 0 && t % u == 0
    ensures x % t % u == 0
  {
    Division(x, u);
    Division(t, u);
    Division(x, t);
    Division(x % t, u);
    var a, b, q, r := x / u, t / u, x / t, x % t;
    Associate(q, b, u);
    Sum(a - q * b, q * b, u);
    Sum(a - q * b - r / u, r / u, u);
    Far(a - q * b - r / u, u);
  }

  lemma Associate(a: int, b: int, c: int)
    ensures a * (b * c) == a * b * c
  {
  }

  lemma DivLe(x: nat, y: nat, d: nat)
    requires 0 < d && x <= y
    ensures x / d <= y / d
  {
    Division(x, d);
    Division(y, d);
    if x / d > y / d { Multiples(y / d, x / d, d); }
  }
}
