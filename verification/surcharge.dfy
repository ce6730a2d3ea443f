/** The income-tax surcharge tiers, written identically in both salary pages:
    none up to 50 lakh, then 10%, 15%, 25% and 37% of the slab tax for incomes
    in (50L, 1Cr], (1Cr, 2Cr], (2Cr, 5Cr] and above 5 crore. */
module Surcharge {

  /** The fraction of the slab tax added as surcharge at a given taxable income. */
  function Rate(income: real): (r: real)
    ensures 0.0 <= r <= 0.37
    ensures r == 0.0 <==> income <= 5_000_000.0
    ensures r == 0.1 <==> 5_000_000.0 < income <= 10_000_000.0
    ensures r == 0.15 <==> 10_000_000.0 < income <= 20_000_000.0
    ensures r == 0.25 <==> 20_000_000.0 < income <= 50_000_000.0
    ensures r == 0.37 <==> income > 50_000_000.0
  {
    if income > 5_000_000.0 && income <= 10_000_000.0 then 0.1
    else if income > 10_000_000.0 && income <= 20_000_000.0 then 0.15
    else if income > 20_000_000.0 && income <= 50_000_000.0 then 0.25
    else if income > 50_000_000.0 then 0.37
    else 0.0
  }

  /** A higher income never falls in a lower tier. */
  lemma RateMonotone(a: real, b: real)
    requires a <= b
    ensures Rate(a) <= Rate(b)
  {
  }

  /** The slab tax with surcharge and the 4% health and education cess, as the
      pages add them up before rounding. */
  function WithCess(tax: real, income: real): (r: real)
    ensures r == 1.04 * (1.0 + Rate(income)) * tax
  {
    var surcharge := tax * Rate(income);
    var cess := (tax + surcharge) * 0.04;
    tax + surcharge + cess
  }

  /** Adding surcharge and cess preserves the order of (non-negative) slab taxes
      across incomes. */
  lemma WithCessMonotone(ta: real, a: real, tb: real, b: real)
    requires 0.0 <= ta <= tb && a <= b
    ensures WithCess(ta, a) <= WithCess(tb, b)
  {
    RateMonotone(a, b);
    var ra, rb := Rate(a), Rate(b);
    assert (1.0 + ra) * ta <= (1.0 + ra) * tb;
    assert (1.0 + ra) * tb <= (1.0 + rb) * tb;
  }
}
