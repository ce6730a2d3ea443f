/** The RD page: a fixed monthly deposit for a tenure given in months, its
    maturity by the annuity-due formula, and one chart row per month. */
module Rd {
  import opened Numeric

  /** The figures the page shows. */
  datatype Summary = Summary(invested: real, interest: real, maturity: real)

  /** One chart row: the month, the amount deposited so far, the value it has
      grown to and their difference (the page's `returns`). */
  datatype Row = Row(month: nat, invested: real, totalValue: real, gains: real)

  const Zero := Summary(0.0, 0.0, 0.0)

  function RowAt(month: nat, deposit: real, rate: real): (row: Row)
    requires rate != 0.0
    ensures row.invested == deposit * month as real
    ensures row.totalValue == DueSum(deposit, rate, month)
    ensures row.gains == row.totalValue - row.invested
  {
    AnnuityDueIsSum(deposit, rate, month);
    var value := AnnuityDue(deposit, rate, month);
    Row(month, deposit * month as real, value, value - deposit * month as real)
  }

  function Rows(months: nat, deposit: real, rate: real): seq<Row>
    requires rate != 0.0
  {
    seq(months, k requires 0 <= k < months => RowAt(k + 1, deposit, rate))
  }

  /** generateChartData: the guard, then one row per month with a running
      deposited amount. */
  method Chart(deposit: real, rate: real, totalMonths: int) returns (data: seq<Row>)
    ensures deposit <= 0.0 || rate <= 0.0 || totalMonths <= 0 ==> data == []
    ensures deposit > 0.0 && rate > 0.0 && totalMonths > 0 ==> data == Rows(totalMonths, deposit, rate)
  {
    data := [];
    if deposit <= 0.0 || rate <= 0.0 || totalMonths <= 0 {
      return;
    }
    var totalInvested := 0.0;
    var totalValue := 0.0;
    var month := 1;
    while month <= totalMonths
      invariant 1 <= month <= totalMonths + 1
      invariant totalInvested == deposit * (month - 1) as real
      invariant data == Rows(totalMonths, deposit, rate)[..month - 1]
    {
      AddOne(deposit, month - 1);
      totalInvested := totalInvested + deposit;
      totalValue := deposit * ((Pow(1.0 + rate, month) - 1.0) / rate) * (1.0 + rate);
      var row := Row(month, totalInvested, totalValue, totalValue - totalInvested);
      assert row == RowAt(month, deposit, rate);
      data := data + [row];
      month := month + 1;
    }
  }

  /** calculateRD: the guard, then the tenure is already a number of months (no
      twelvefold), invested = deposit * months and the maturity is the
      annuity-due value, exceeding what was deposited. */
  method Calculate(deposit: real, annualRate: real, months: int) returns (s: Summary, chart: seq<Row>)
    ensures deposit <= 0.0 || annualRate <= 0.0 || months <= 0 ==> s == Zero && chart == []
    ensures deposit > 0.0 && annualRate > 0.0 && months > 0 ==>
      var rate := annualRate / 100.0 / 12.0;
      && s.invested == deposit * months as real
      && s.maturity == DueSum(deposit, rate, months)
      && s.interest == s.maturity - s.invested
      && s.interest > 0.0
      && chart == Rows(months, deposit, rate)
  {
    if deposit <= 0.0 || annualRate <= 0.0 || months <= 0 {
      return Zero, [];
    }
    var rate := annualRate / 100.0 / 12.0;
    var totalMonths := months;
    var totalInvested := deposit * totalMonths as real;
    var maturity := deposit * ((Pow(1.0 + rate, totalMonths) - 1.0) / rate) * (1.0 + rate);
    AnnuityDueIsSum(deposit, rate, totalMonths);
    DueSumExceedsContributions(deposit, rate, totalMonths);
    s := Summary(totalInvested, maturity - totalInvested, maturity);
    chart := Chart(deposit, rate, totalMonths);
  }

  /** The last row is the headline: every deposit and the maturity. */
  lemma LastRowIsHeadline(months: nat, deposit: real, rate: real)
    requires rate != 0.0 && months >= 1
    ensures var c := Rows(months, deposit, rate);
      c[months - 1].invested == deposit * months as real && c[months - 1].totalValue == DueSum(deposit, rate, months)
  {
  }

  /** At a positive rate each month's value is strictly above the month before. */
  lemma ChartIncreasing(months: nat, deposit: real, rate: real, k: nat)
    requires deposit > 0.0 && rate > 0.0 && 1 <= k < months
    ensures Rows(months, deposit, rate)[k - 1].totalValue < Rows(months, deposit, rate)[k].totalValue
  {
    DueSumStrictlyIncreasing(deposit, rate, k, k + 1);
  }
}
