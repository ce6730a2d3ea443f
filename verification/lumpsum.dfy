/** The lumpsum page: a one-time investment compounded annually, and its
    value at the end of each year. */
module Lumpsum {
  import opened Numeric
  import Fd

  /** The figures the page shows; `gains` is its estimated returns. */
  datatype Summary = Summary(invested: real, gains: real, totalValue: real)

  /** One chart row: the year, the amount invested, the value and their
      difference (the page's `returns`). */
  datatype Row = Row(year: nat, invested: real, totalValue: real, gains: real)

  const Zero := Summary(0.0, 0.0, 0.0)

  function RowAt(year: nat, principal: real, rate: real): (row: Row)
    ensures row.invested == principal && row.gains == row.totalValue - principal
  {
    var value := principal * Pow(1.0 + rate, year);
    Row(year, principal, value, value - principal)
  }

  function Rows(years: nat, principal: real, rate: real): seq<Row>
  {
    seq(years, k requires 0 <= k < years => RowAt(k + 1, principal, rate))
  }

  /** generateChartData: the guard, then one independently computed row per year. */
  method Chart(principal: real, rate: real, years: int) returns (data: seq<Row>)
    ensures principal <= 0.0 || rate <= 0.0 || years <= 0 ==> data == []
    ensures principal > 0.0 && rate > 0.0 && years > 0 ==> data == Rows(years, principal, rate)
  {
    data := [];
    if principal <= 0.0 || rate <= 0.0 || years <= 0 {
      return;
    }
    var year := 1;
    while year <= years
      invariant 1 <= year <= years + 1
      invariant data == Rows(years, principal, rate)[..year - 1]
    {
      var totalValue := principal * Pow(1.0 + rate, year);
      var row := Row(year, principal, totalValue, totalValue - principal);
      assert row == RowAt(year, principal, rate);
      data := data + [row];
      year := year + 1;
    }
  }

  /** calculateLumpsum: the guard, then P (1 + r)^t with annual compounding,
      which is the fixed deposit's maturity at one compounding a year; the
      reported investment is P and the returns are positive. */
  method Calculate(amount: real, annualRate: real, years: int) returns (s: Summary, chart: seq<Row>)
    ensures amount <= 0.0 || annualRate <= 0.0 || years <= 0 ==> s == Zero && chart == []
    ensures amount > 0.0 && annualRate > 0.0 && years > 0 ==>
      var rate := annualRate / 100.0;
      && s.invested == amount
      && s.totalValue == Fd.ValueAfter(amount, rate, Fd.Frequency("annually"), years)
      && s.gains == s.totalValue - amount
      && s.gains > 0.0
      && chart == Rows(years, amount, rate)
  {
    if amount <= 0.0 || annualRate <= 0.0 || years <= 0 {
      return Zero, [];
    }
    var rate := annualRate / 100.0;
    var maturity := amount * Pow(1.0 + rate, years);
    AnnualFd(amount, rate, years);
    Fd.GrowthAboveOne(rate, 1, 0, years);
    s := Summary(amount, maturity - amount, maturity);
    chart := Chart(amount, rate, years);
  }

  /** Annual compounding is the fixed deposit's formula with one period a year. */
  lemma AnnualFd(principal: real, rate: real, years: nat)
    ensures principal * Pow(1.0 + rate, years) == Fd.ValueAfter(principal, rate, Fd.Frequency("annually"), years)
  {
    assert Fd.Frequency("annually") == 1;
    assert rate / 1 as real == rate;
    assert 1 * years == years;
  }

  /** The chart's values rise strictly year on year, and the last one is the
      headline value. */
  lemma ChartShape(years: nat, principal: real, rate: real, k: nat)
    requires principal > 0.0 && rate > 0.0 && 1 <= k < years
    ensures var c := Rows(years, principal, rate);
      && c[k - 1].totalValue < c[k].totalValue
      && c[years - 1].totalValue == principal * Pow(1.0 + rate, years)
  {
    PowStrictlyIncreasing(1.0 + rate, k, k + 1);
  }
}
