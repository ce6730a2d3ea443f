/** The fixed-deposit page: a principal compounded monthly, quarterly or
    annually, its maturity, and the value at the end of each year. */
module Fd {
  import opened Numeric

  /** The figures the page shows. */
  datatype Summary = Summary(maturity: real, interest: real)

  /** One chart row: the year, the principal, the interest earned so far and
      the value. */
  datatype Row = Row(year: nat, principal: real, interest: real, totalValue: real)

  const Zero := Summary(0.0, 0.0)

  /** The compounding periods per year chosen on the page: 12 for "monthly",
      4 for "quarterly", and 1 for "annually" or any other text. */
  function Frequency(choice: string): (n: nat)
    ensures n == 12 <==> choice == "monthly"
    ensures n == 4 <==> choice == "quarterly"
    ensures n == 1 <==> choice != "monthly" && choice != "quarterly"
  {
    if choice == "monthly" then 12
    else if choice == "quarterly" then 4
    else if choice == "annually" then 1
    else 1
  }

  /** P (1 + r/n)^(n * years): the value after a number of years. */
  function ValueAfter(principal: real, rate: real, frequency: nat, years: nat): real
    requires frequency >= 1
  {
    principal * Pow(1.0 + rate / frequency as real, frequency * years)
  }

  function RowAt(year: nat, principal: real, rate: real, frequency: nat): (row: Row)
    requires frequency >= 1
    ensures row.principal == principal && row.interest == row.totalValue - principal
  {
    var value := ValueAfter(principal, rate, frequency, year);
    Row(year, principal, value - principal, value)
  }

  function Rows(years: nat, principal: real, rate: real, frequency: nat): seq<Row>
    requires frequency >= 1
  {
    seq(years, k requires 0 <= k < years => RowAt(k + 1, principal, rate, frequency))
  }

  /** generateChartData: the guard, then one independently computed row per year. */
  method Chart(principal: real, rate: real, frequency: nat, years: int) returns (data: seq<Row>)
    requires frequency >= 1
    ensures principal <= 0.0 || rate <= 0.0 || years <= 0 ==> data == []
    ensures principal > 0.0 && rate > 0.0 && years > 0 ==> data == Rows(years, principal, rate, frequency)
  {
    data := [];
    if principal <= 0.0 || rate <= 0.0 || years <= 0 {
      return;
    }
    var year := 1;
    while year <= years
      invariant 1 <= year <= years + 1
      invariant data == Rows(years, principal, rate, frequency)[..year - 1]
    {
      var totalValue := principal * Pow(1.0 + rate / frequency as real, frequency * year);
      var interest := totalValue - principal;
      var row := Row(year, principal, interest, totalValue);
      assert row == RowAt(year, principal, rate, frequency);
      data := data + [row];
      year := year + 1;
    }
  }

  /** calculateFD: the guard, then the frequency from the choice, the maturity
      P (1 + r/n)^(n t) with r the rate as a fraction, and the interest above
      the principal, which is positive. */
  method Calculate(principal: real, annualRate: real, years: int, choice: string) returns (s: Summary, chart: seq<Row>)
    ensures principal <= 0.0 || annualRate <= 0.0 || years <= 0 ==> s == Zero && chart == []
    ensures principal > 0.0 && annualRate > 0.0 && years > 0 ==>
      var rate, n := annualRate / 100.0, Frequency(choice);
      && s.maturity == ValueAfter(principal, rate, n, years)
      && s.interest == s.maturity - principal
      && s.interest > 0.0
      && chart == Rows(years, principal, rate, n)
  {
    if principal <= 0.0 || annualRate <= 0.0 || years <= 0 {
      return Zero, [];
    }
    var n := Frequency(choice);
    var rate := annualRate / 100.0;
    var maturity := principal * Pow(1.0 + rate / n as real, n * years);
    GrowthAboveOne(rate, n, 0, years);
    s := Summary(maturity, maturity - principal);
    chart := Chart(principal, rate, n, years);
  }

  /** At a positive rate a longer deposit is worth strictly more. */
  lemma GrowthAboveOne(rate: real, frequency: nat, a: nat, b: nat)
    requires rate > 0.0 && frequency >= 1 && a < b
    ensures Pow(1.0 + rate / frequency as real, frequency * a) < Pow(1.0 + rate / frequency as real, frequency * b)
    ensures Pow(1.0 + rate / frequency as real, frequency * b) > 1.0
  {
    assert frequency * a < frequency * b;
    PowStrictlyIncreasing(1.0 + rate / frequency as real, frequency * a, frequency * b);
    PowStrictlyIncreasing(1.0 + rate / frequency as real, 0, frequency * b);
  }

  /** The chart's values rise strictly year on year, and the last one is the
      headline maturity. */
  lemma ChartShape(years: nat, principal: real, rate: real, frequency: nat, k: nat)
    requires principal > 0.0 && rate > 0.0 && frequency >= 1 && 1 <= k < years
    ensures var c := Rows(years, principal, rate, frequency);
      && c[k - 1].totalValue < c[k].totalValue
      && c[years - 1].totalValue == ValueAfter(principal, rate, frequency, years)
  {
    GrowthAboveOne(rate, frequency, k, k + 1);
  }
}
