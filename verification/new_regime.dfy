/** The new-scheme (section 115BAC) salary page: slab tax with the section 87A
    rebate, surcharge and cess, and the derivation of gross pay, taxable
    income and in-hand pay with the standard deduction as the only deduction. */
module NewRegime {
  import opened Numeric
  import Surcharge

  const RebateLimit: real := 700_000.0

  /** The slab tax before rebate: nothing to 3 lakh, then 5%, 10%, 15% and 20%
      on the slabs ending at 6, 9, 12 and 15 lakh, and 30% above, with the tax
      of the lower slabs carried as the constants 15000, 45000, 90000 and 150000. */
  function SlabTax(income: real): (r: real)
    ensures r >= 0.0
    ensures r == 0.0 <==> income <= 300_000.0
    ensures income > 300_000.0 ==> r <= 0.3 * (income - 300_000.0)
  {
    if income <= 300_000.0 then 0.0
    else if income <= 600_000.0 then (income - 300_000.0) * 0.05
    else if income <= 900_000.0 then 15_000.0 + (income - 600_000.0) * 0.1
    else if income <= 1_200_000.0 then 45_000.0 + (income - 900_000.0) * 0.15
    else if income <= 1_500_000.0 then 90_000.0 + (income - 1_200_000.0) * 0.2
    else 150_000.0 + (income - 1_500_000.0) * 0.3
  }

  /** The slab tax as marginal rates applied to the part of the income in each slab. */
  function MarginalTax(income: real): real
  {
    0.05 * Band(income, 300_000.0, 600_000.0) + 0.1 * Band(income, 600_000.0, 900_000.0) +
    0.15 * Band(income, 900_000.0, 1_200_000.0) + 0.2 * Band(income, 1_200_000.0, 1_500_000.0) +
    0.3 * Above(income, 1_500_000.0)
  }

  /** calculateNewRegimeTax: the rounded tax with surcharge and 4% cess, zero
      up to the rebate limit and at least 26000 above it. */
  function Tax(taxable: real): (r: int)
    ensures r >= 0
    ensures r == 0 <==> taxable <= RebateLimit
  {
    var tax := if taxable <= RebateLimit then 0.0 else SlabTax(taxable);
    assert taxable > RebateLimit ==> tax > 25_000.0;
    assert taxable > RebateLimit ==> Surcharge.WithCess(tax, taxable) >= 26_000.0;
    Round(Surcharge.WithCess(tax, taxable))
  }

  /** The constants of the source are the accumulated tax of the lower slabs, so
      the slab tax equals the marginal-rate tax on every income. */
  lemma SlabTaxIsMarginal(income: real)
    ensures SlabTax(income) == MarginalTax(income)
  {
  }

  /** The slab tax is continuous and non-decreasing: between any two incomes it
      grows by at least nothing and by at most the top rate of 30%. */
  lemma SlabTaxLipschitz(a: real, b: real)
    requires a <= b
    ensures 0.0 <= SlabTax(b) - SlabTax(a) <= 0.3 * (b - a)
  {
  }

  /** A higher taxable income never gives a lower tax. */
  lemma TaxMonotone(a: real, b: real)
    requires a <= b
    ensures Tax(a) <= Tax(b)
  {
    var ta := if a <= RebateLimit then 0.0 else SlabTax(a);
    var tb := if b <= RebateLimit then 0.0 else SlabTax(b);
    SlabTaxLipschitz(a, b);
    Surcharge.WithCessMonotone(ta, a, tb, b);
    RoundMonotone(Surcharge.WithCess(ta, a), Surcharge.WithCess(tb, b));
  }

  /** The rebate boundary: nothing is due on 7 lakh, 26000 on one rupee more. */
  lemma RebateBoundary()
    ensures Tax(700_000.0) == 0
    ensures Tax(700_001.0) == 26_000
  {
    assert Surcharge.WithCess(SlabTax(700_001.0), 700_001.0) == 26_000.104;
  }

  /** The salary components entered on the page. */
  datatype Inputs = Inputs(basic: real, hra: real, special: real, other: real, standardDeduction: real)

  /** The figures the page derives from its inputs. */
  datatype Payslip = Payslip(
    gross: real, deductions: real, taxable: real, tax: int,
    inHandYearly: real, inHandMonthly: int)

  /** The page's derivation: the standard deduction is the only deduction,
      taxable income is gross less it, floored at zero; in-hand pay is gross
      less tax, and its monthly figure is the yearly one over 12, rounded. */
  function Compute(i: Inputs): (p: Payslip)
    ensures p.gross == i.basic + i.hra + i.special + i.other
    ensures p.deductions == i.standardDeduction
    ensures p.taxable >= 0.0 && p.taxable >= p.gross - p.deductions
    ensures p.taxable == 0.0 || p.taxable == p.gross - p.deductions
    ensures p.tax == Tax(p.taxable)
    ensures p.inHandYearly == p.gross - p.tax as real && p.inHandYearly <= p.gross
    ensures p.taxable <= RebateLimit <==> p.inHandYearly == p.gross
    ensures 12.0 * p.inHandMonthly as real - 6.0 <= p.inHandYearly < 12.0 * p.inHandMonthly as real + 6.0
  {
    var gross := i.basic + i.hra + i.special + i.other;
    var deductions := i.standardDeduction;
    var taxable := if gross - deductions > 0.0 then gross - deductions else 0.0;
    var tax := Tax(taxable);
    var yearly := gross - tax as real;
    Payslip(gross, deductions, taxable, tax, yearly, Round(yearly / 12.0))
  }

  /** A larger standard deduction never raises the tax. */
  lemma MoreDeductionNeverRaisesTax(i: Inputs, extra: real)
    requires extra >= 0.0
    ensures Compute(i.(standardDeduction := i.standardDeduction + extra)).tax <= Compute(i).tax
  {
    var j := i.(standardDeduction := i.standardDeduction + extra);
    TaxMonotone(Compute(j).taxable, Compute(i).taxable);
  }

  /** A larger special allowance never lowers the tax. */
  lemma RaiseNeverLowersTax(i: Inputs, extra: real)
    requires extra >= 0.0
    ensures Compute(i).tax <= Compute(i.(special := i.special + extra)).tax
  {
    var j := i.(special := i.special + extra);
    TaxMonotone(Compute(i).taxable, Compute(j).taxable);
  }
}
