/** The NPS page: a fixed monthly contribution compounded monthly, its
    maturity by the annuity-due formula, and one chart row per year. */
module Nps {
  import opened Numeric

  /** The figures the page shows. */
  datatype Summary = Summary(invested: real, interest: real, maturity: real)

  /** One chart row: the year, the amount invested so far, the value it has
      grown to and their difference (the page's `returns`). */
  datatype Row = Row(year: nat, invested: real, totalValue: real, gains: real)

  const Zero := Summary(0.0, 0.0, 0.0)

  /** The row the chart records for a year: twelve contributions a year, and
      the annuity-due value after 12 * year months. */
  function RowAt(year: nat, amount: real, rate: real): (row: Row)
    requires rate != 0.0
    ensures row.invested == 12.0 * amount * year as real
    ensures row.totalValue == DueSum(amount, rate, 12 * year)
    ensures row.gains == row.totalValue - row.invested
  {
    AnnuityDueIsSum(amount, rate, 12 * year);
    var value := AnnuityDue(amount, rate, 12 * year);
    Row(year, 12.0 * amount * year as real, value, value - 12.0 * amount * year as real)
  }

  function Rows(years: nat, amount: real, rate: real): seq<Row>
    requires rate != 0.0
  {
    seq(years, k requires 0 <= k < years => RowAt(k + 1, amount, rate))
  }

  /** generateChartData: the guard, then one row per year with a running
      invested amount. */
  method Chart(amount: real, rate: real, years: int) returns (data: seq<Row>)
    ensures amount <= 0.0 || rate <= 0.0 || years <= 0 ==> data == []
    ensures amount > 0.0 && rate > 0.0 && years > 0 ==> data == Rows(years, amount, rate)
  {
    data := [];
    if amount <= 0.0 || rate <= 0.0 || years <= 0 {
      return;
    }
    var totalInvested := 0.0;
    var totalValue := 0.0;
    var year := 1;
    while year <= years
      invariant 1 <= year <= years + 1
      invariant totalInvested == 12.0 * amount * (year - 1) as real
      invariant data == Rows(years, amount, rate)[..year - 1]
    {
      AddOne(12.0 * amount, year - 1);
      totalInvested := totalInvested + amount * 12.0;
      totalValue := amount * ((Pow(1.0 + rate, year * 12) - 1.0) / rate) * (1.0 + rate);
      var row := Row(year, totalInvested, totalValue, totalValue - totalInvested);
      assert row == RowAt(year, amount, rate);
      data := data + [row];
      year := year + 1;
    }
  }

  /** calculateNPS: the guard, then invested = amount * 12 * years and the
      maturity by the annuity-due formula, which is the sum of every
      contribution compounded to maturity and exceeds what was paid in. */
  method Calculate(amount: real, annualRate: real, years: int) returns (s: Summary, chart: seq<Row>)
    ensures amount <= 0.0 || annualRate <= 0.0 || years <= 0 ==> s == Zero && chart == []
    ensures amount > 0.0 && annualRate > 0.0 && years > 0 ==>
      var rate, n := annualRate / 100.0 / 12.0, 12 * years;
      && s.invested == amount * n as real
      && s.maturity == DueSum(amount, rate, n)
      && s.interest == s.maturity - s.invested
      && s.interest > 0.0
      && chart == Rows(years, amount, rate)
  {
    if amount <= 0.0 || annualRate <= 0.0 || years <= 0 {
      return Zero, [];
    }
    var rate := annualRate / 100.0 / 12.0;
    var totalMonths := years * 12;
    var totalInvested := amount * totalMonths as real;
    var maturity := amount * ((Pow(1.0 + rate, totalMonths) - 1.0) / rate) * (1.0 + rate);
    assert maturity == AnnuityDue(amount, rate, 12 * years);
    AnnuityDueIsSum(amount, rate, totalMonths);
    DueSumExceedsContributions(amount, rate, totalMonths);
    s := Summary(totalInvested, maturity - totalInvested, maturity);
    chart := Chart(amount, rate, years);
  }

  /** The last row is the headline: invested and maturity of the whole plan. */
  lemma LastRowIsHeadline(years: nat, amount: real, rate: real)
    requires rate != 0.0 && years >= 1
    ensures var c := Rows(years, amount, rate);
      c[years - 1].invested == amount * (12 * years) as real && c[years - 1].totalValue == DueSum(amount, rate, 12 * years)
  {
  }

  /** At a positive rate each year's value is strictly above the year before. */
  lemma ChartIncreasing(years: nat, amount: real, rate: real, k: nat)
    requires amount > 0.0 && rate > 0.0 && 1 <= k < years
    ensures Rows(years, amount, rate)[k - 1].totalValue < Rows(years, amount, rate)[k].totalValue
  {
    DueSumStrictlyIncreasing(amount, rate, 12 * k, 12 * (k + 1));
  }
}
