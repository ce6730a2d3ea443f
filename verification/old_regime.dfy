/** The old-scheme salary page: slab tax with the section 87A rebate,
    surcharge and cess, the section 10(13A) HRA exemption, and the derivation
    of gross pay, deductions, taxable income and in-hand pay. */
module OldRegime {
  import opened Numeric
  import Surcharge

  const RebateLimit: real := 500_000.0

  /** The slab tax before rebate: nothing to 2.5 lakh, then 5% to 5 lakh, 20% to
      10 lakh and 30% above, with the tax of the lower slabs carried as the
      constants 12500 and 112500. */
  function SlabTax(income: real): (r: real)
    ensures r >= 0.0
    ensures r == 0.0 <==> income <= 250_000.0
    ensures income > 250_000.0 ==> r <= 0.3 * (income - 250_000.0)
  {
    if income <= 250_000.0 then 0.0
    else if income <= 500_000.0 then (income - 250_000.0) * 0.05
    else if income <= 1_000_000.0 then 12_500.0 + (income - 500_000.0) * 0.2
    else 112_500.0 + (income - 1_000_000.0) * 0.3
  }

  /** The slab tax as marginal rates applied to the part of the income in each slab. */
  function MarginalTax(income: real): real
  {
    0.05 * Band(income, 250_000.0, 500_000.0) + 0.2 * Band(income, 500_000.0, 1_000_000.0) +
    0.3 * Above(income, 1_000_000.0)
  }

  /** calculateOldRegimeTax: the rounded tax with surcharge and 4% cess, zero
      up to the rebate limit and at least 13000 above it. */
  function Tax(taxable: real): (r: int)
    ensures r >= 0
    ensures r == 0 <==> taxable <= RebateLimit
  {
    var tax := if taxable <= RebateLimit then 0.0 else SlabTax(taxable);
    assert taxable > RebateLimit ==> tax > 12_500.0;
    assert taxable > RebateLimit ==> Surcharge.WithCess(tax, taxable) >= 13_000.0;
    Round(Surcharge.WithCess(tax, taxable))
  }

  /** The constants of the source are the accumulated tax of the lower slabs, so
      the slab tax equals the marginal-rate tax on every income. */
  lemma SlabTaxIsMarginal(income: real)
    ensures SlabTax(income) == MarginalTax(income)
  {
  }

  /** The slab tax is continuous and non-decreasing: between any two incomes it
      grows by at least nothing and by at most the top rate of 30%. */
  lemma SlabTaxLipschitz(a: real, b: real)
    requires a <= b
    ensures 0.0 <= SlabTax(b) - SlabTax(a) <= 0.3 * (b - a)
  {
  }

  /** A higher taxable income never gives a lower tax. */
  lemma TaxMonotone(a: real, b: real)
    requires a <= b
    ensures Tax(a) <= Tax(b)
  {
    var ta := if a <= RebateLimit then 0.0 else SlabTax(a);
    var tb := if b <= RebateLimit then 0.0 else SlabTax(b);
    SlabTaxLipschitz(a, b);
    Surcharge.WithCessMonotone(ta, a, tb, b);
    RoundMonotone(Surcharge.WithCess(ta, a), Surcharge.WithCess(tb, b));
  }

  /** The rebate boundary: nothing is due on 5 lakh, 13000 on one rupee more. */
  lemma RebateBoundary()
    ensures Tax(500_000.0) == 0
    ensures Tax(500_001.0) == 13_000
  {
    assert Surcharge.WithCess(SlabTax(500_001.0), 500_001.0) == 13_000.208;
  }

  /** The HRA exemption: the least of the HRA received, the rent paid less 10%
      of basic, and 50% (metro) or 40% (elsewhere) of basic. It is not clamped,
      so it is negative when the rent is below 10% of basic. */
  function HraExemption(actualHra: real, rentPaid: real, basic: real, isMetro: bool): (e: real)
    ensures e <= actualHra && e <= rentPaid - basic * 0.1 && e <= basic * (if isMetro then 0.5 else 0.4)
    ensures e == actualHra || e == rentPaid - basic * 0.1 || e == basic * (if isMetro then 0.5 else 0.4)
    ensures rentPaid < basic * 0.1 ==> e < 0.0
  {
    var rate := if isMetro then 0.5 else 0.4;
    Min(Min(actualHra, rentPaid - basic * 0.1), basic * rate)
  }

  /** The salary components and declared deductions entered on the page. */
  datatype Inputs = Inputs(
    basic: real, hra: real, special: real, other: real,
    sec80c: real, sec80d: real, sec80tta: real,
    rentPaid: real, isMetro: bool, standardDeduction: real)

  /** The figures the page derives from its inputs. */
  datatype Payslip = Payslip(
    gross: real, deductions: real, taxable: real, tax: int,
    inHandYearly: real, inHandMonthly: int)

  /** Total deductions: 80C capped at 1.5 lakh, 80D at 25000, 80TTA at 10000,
      plus the uncapped standard deduction and HRA exemption. */
  function Deductions(i: Inputs): (d: real)
    ensures d <= 185_000.0 + i.standardDeduction + HraExemption(i.hra, i.rentPaid, i.basic, i.isMetro)
    ensures i.sec80c <= 150_000.0 && i.sec80d <= 25_000.0 && i.sec80tta <= 10_000.0 ==>
              d == i.sec80c + i.sec80d + i.sec80tta + i.standardDeduction + HraExemption(i.hra, i.rentPaid, i.basic, i.isMetro)
  {
    Min(i.sec80c, 150_000.0) + Min(i.sec80d, 25_000.0) + Min(i.sec80tta, 10_000.0) +
    i.standardDeduction + HraExemption(i.hra, i.rentPaid, i.basic, i.isMetro)
  }

  /** The page's derivation: taxable income is gross less deductions, floored
      at zero; in-hand pay is gross less tax, and its monthly figure is the
      yearly one over 12, rounded. */
  function Compute(i: Inputs): (p: Payslip)
    ensures p.gross == i.basic + i.hra + i.special + i.other
    ensures p.deductions == Deductions(i)
    ensures p.taxable >= 0.0 && p.taxable >= p.gross - p.deductions
    ensures p.taxable == 0.0 || p.taxable == p.gross - p.deductions
    ensures p.tax == Tax(p.taxable)
    ensures p.inHandYearly == p.gross - p.tax as real && p.inHandYearly <= p.gross
    ensures p.taxable <= RebateLimit <==> p.inHandYearly == p.gross
    ensures 12.0 * p.inHandMonthly as real - 6.0 <= p.inHandYearly < 12.0 * p.inHandMonthly as real + 6.0
  {
    var gross := i.basic + i.hra + i.special + i.other;
    var deductions := Deductions(i);
    var taxable := if gross - deductions > 0.0 then gross - deductions else 0.0;
    var tax := Tax(taxable);
    var yearly := gross - tax as real;
    Payslip(gross, deductions, taxable, tax, yearly, Round(yearly / 12.0))
  }

  /** Declaring a larger 80C investment never raises the tax. */
  lemma MoreDeductionNeverRaisesTax(i: Inputs, extra: real)
    requires extra >= 0.0
    ensures Compute(i.(sec80c := i.sec80c + extra)).tax <= Compute(i).tax
  {
    var j := i.(sec80c := i.sec80c + extra);
    assert Deductions(j) >= Deductions(i);
    TaxMonotone(Compute(j).taxable, Compute(i).taxable);
  }

  /** A larger special allowance never lowers the tax. */
  lemma RaiseNeverLowersTax(i: Inputs, extra: real)
    requires extra >= 0.0
    ensures Compute(i).tax <= Compute(i.(special := i.special + extra)).tax
  {
    var j := i.(special := i.special + extra);
    assert Deductions(j) == Deductions(i);
    TaxMonotone(Compute(i).taxable, Compute(j).taxable);
  }
}
