/** Exact-arithmetic helpers shared by the calculators: whole-number powers,
    JavaScript's Math.round, geometric sums and the annuity-due future value.

    Money is modelled as `real`; the source's floating-point rounding, NaN and
    Infinity are not part of this model. */
module Numeric {

  /** x^n for a natural exponent: the model of Math.pow(x, n). */
  function Pow(x: real, n: nat): real
  {
    if n == 0 then 1.0 else x * Pow(x, n - 1)
  }

  /** JavaScript's Math.round: the nearest integer, halves rounded up. */
  function Round(x: real): (r: int)
    ensures r as real - 0.5 <= x < r as real + 0.5
  {
    (x + 0.5).Floor
  }

  /** Rounding never reverses the order of two values. */
  lemma RoundMonotone(x: real, y: real)
    requires x <= y
    ensures Round(x) <= Round(y)
  {
  }

  /** The smaller of two values: the two-argument Math.min. */
  function Min(a: real, b: real): (r: real)
    ensures r <= a && r <= b
    ensures r == a || r == b
  {
    if a <= b then a else b
  }

  /** The part of an income x that lies in the slab (lo, hi]. */
  function Band(x: real, lo: real, hi: real): (r: real)
    requires lo <= hi
    ensures 0.0 <= r <= hi - lo
  {
    if x <= lo then 0.0 else if x <= hi then x - lo else hi - lo
  }

  /** The part of an income x above lo (the open-ended top slab). */
  function Above(x: real, lo: real): (r: real)
    ensures r >= 0.0
  {
    if x <= lo then 0.0 else x - lo
  }

  /** The `v > 0 ? v : 0` clamp used for displayed values. */
  function ClampZero(v: real): (r: real)
    ensures r >= 0.0 && r >= v
    ensures r == v || r == 0.0
  {
    if v > 0.0 then v else 0.0
  }

  /** c added to itself n times: a running total of n equal amounts. */
  function Repeat(c: real, n: nat): real
  {
    if n == 0 then 0.0 else Repeat(c, n - 1) + c
  }

  lemma {:induction false} RepeatIsProduct(c: real, n: nat)
    ensures Repeat(c, n) == c * n as real
  {
    if n > 0 {
      RepeatIsProduct(c, n - 1);
      AddOne(c, n - 1);
    }
  }

  /** Geo(x, n) = x^0 + x^1 + ... + x^(n-1). */
  function Geo(x: real, n: nat): real
  {
    if n == 0 then 0.0 else Geo(x, n - 1) + Pow(x, n - 1)
  }

  /** The future value of n contributions of c, each compounded at rate i for
      one more period than its position from the end: sum_{k=1..n} c (1+i)^k. */
  function DueSum(c: real, i: real, n: nat): real
  {
    if n == 0 then 0.0 else DueSum(c, i, n - 1) + c * Pow(1.0 + i, n)
  }

  /** The closed-form annuity-due value c * ((1+i)^n - 1) / i * (1+i) that the
      SIP, NPS, RD and EPF pages evaluate. */
  function AnnuityDue(c: real, i: real, n: nat): real
    requires i != 0.0
  {
    c * ((Pow(1.0 + i, n) - 1.0) / i) * (1.0 + i)
  }

  lemma {:induction false} PowPositive(x: real, n: nat)
    requires x > 0.0
    ensures Pow(x, n) > 0.0
  {
    if n > 0 {
      PowPositive(x, n - 1);
    }
  }

  lemma {:induction false} PowAtLeastOne(x: real, n: nat)
    requires x >= 1.0
    ensures Pow(x, n) >= 1.0
  {
    if n > 0 {
      PowAtLeastOne(x, n - 1);
      assert x * Pow(x, n - 1) >= 1.0 * Pow(x, n - 1);
    }
  }

  /** For a base above one, a larger exponent gives a strictly larger power. */
  lemma {:induction false} PowStrictlyIncreasing(x: real, m: nat, n: nat)
    requires x > 1.0 && m < n
    ensures Pow(x, m) < Pow(x, n)
  {
    PowAtLeastOne(x, n - 1);
    assert Pow(x, n - 1) < x * Pow(x, n - 1);
    if m < n - 1 {
      PowStrictlyIncreasing(x, m, n - 1);
    }
  }

  /** Exponents add: x^(a + b) == x^a * x^b. */
  lemma {:induction false} PowAdd(x: real, a: nat, b: nat)
    ensures Pow(x, a + b) == Pow(x, a) * Pow(x, b)
  {
    if b > 0 {
      PowAdd(x, a, b - 1);
      assert Pow(x, a + b) == x * Pow(x, a + b - 1);
    }
  }

  lemma {:induction false} PowOne(n: nat)
    ensures Pow(1.0, n) == 1.0
  {
    if n > 0 {
      PowOne(n - 1);
    }
  }

  /** (x - 1) * (x^0 + ... + x^(n-1)) telescopes to x^n - 1. */
  lemma {:induction false} GeoClosedForm(x: real, n: nat)
    ensures (x - 1.0) * Geo(x, n) == Pow(x, n) - 1.0
  {
    if n > 0 {
      GeoClosedForm(x, n - 1);
      TelescopeStep(x, Geo(x, n - 1), Pow(x, n - 1));
    }
  }

  /** The sum of contributions is c (1+i) times a geometric sum. */
  lemma {:induction false} DueSumAsGeo(c: real, i: real, n: nat)
    ensures DueSum(c, i, n) == c * (1.0 + i) * Geo(1.0 + i, n)
  {
    if n > 0 {
      DueSumAsGeo(c, i, n - 1);
      calc {
        DueSum(c, i, n);
        c * (1.0 + i) * Geo(1.0 + i, n - 1) + c * ((1.0 + i) * Pow(1.0 + i, n - 1));
        c * (1.0 + i) * (Geo(1.0 + i, n - 1) + Pow(1.0 + i, n - 1));
      }
    }
  }

  /** The closed annuity-due formula equals the sum of the individually
      compounded contributions sum_{k=1..n} c (1+i)^k. */
  lemma AnnuityDueIsSum(c: real, i: real, n: nat)
    requires i != 0.0
    ensures AnnuityDue(c, i, n) == DueSum(c, i, n)
  {
    GeoClosedForm(1.0 + i, n);
    DueSumAsGeo(c, i, n);
    var g := Geo(1.0 + i, n);
    assert (1.0 + i) - 1.0 == i;
    CancelRate(i, g, Pow(1.0 + i, n));
    Commute(c, g, 1.0 + i);
  }

  /** At a positive rate each further contribution strictly raises the value. */
  lemma DueSumStrictlyIncreasing(c: real, i: real, m: nat, n: nat)
    requires c > 0.0 && i > 0.0 && m < n
    ensures DueSum(c, i, m) < DueSum(c, i, n)
  {
    var k := n;
    while k > m
      invariant m <= k <= n
      invariant DueSum(c, i, k) <= DueSum(c, i, n)
      invariant k < n ==> DueSum(c, i, k) < DueSum(c, i, n)
    {
      PowPositive(1.0 + i, k);
      k := k - 1;
    }
  }

  /** At a positive rate n contributions of c grow to more than c * n. */
  lemma {:induction false} DueSumExceedsContributions(c: real, i: real, n: nat)
    requires c > 0.0 && i > 0.0 && n >= 1
    ensures DueSum(c, i, n) > c * n as real
  {
    PowStrictlyIncreasing(1.0 + i, 0, n);
    assert c * Pow(1.0 + i, n) > c;
    if n > 1 {
      DueSumExceedsContributions(c, i, n - 1);
    }
  }

  /** The annuity-due value is linear in the contribution. */
  lemma AnnuityDueAdditive(a: real, b: real, i: real, n: nat)
    requires i != 0.0
    ensures AnnuityDue(a + b, i, n) == AnnuityDue(a, i, n) + AnnuityDue(b, i, n)
  {
    var q := (Pow(1.0 + i, n) - 1.0) / i;
    assert (a + b) * q * (1.0 + i) == a * q * (1.0 + i) + b * q * (1.0 + i);
  }

  // Small arithmetic steps, kept apart from the recursive definitions so that
  // the solver sees only the reals involved.

  lemma AddOne(c: real, n: nat)
    ensures c * (n + 1) as real == c * n as real + c
  {
  }

  lemma TelescopeStep(x: real, g: real, p: real)
    requires (x - 1.0) * g == p - 1.0
    ensures (x - 1.0) * (g + p) == x * p - 1.0
  {
  }

  lemma Commute(c: real, g: real, x: real)
    ensures c * g * x == c * x * g
  {
  }

  lemma CancelRate(i: real, g: real, p: real)
    requires i != 0.0 && i * g == p - 1.0
    ensures (p - 1.0) / i == g
  {
  }
}
