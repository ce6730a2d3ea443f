/** The SIP page: a fixed monthly investment compounded monthly, its maturity
    by the annuity-due formula, and a chart with one point per year. */
module Sip {
  import opened Numeric

  /** The figures the page shows; `gains` is its estimated returns. */
  datatype Summary = Summary(invested: real, gains: real, totalValue: real)

  /** One chart point: the position in years, the amount invested so far and
      the value it has grown to, and their difference. */
  datatype Point = Point(year: real, invested: real, totalValue: real, gains: real)

  const Zero := Summary(0.0, 0.0, 0.0)

  function MonthlyRate(annualRate: real): real
  {
    annualRate / 100.0 / 12.0
  }

  /** The point the chart records after a given month. */
  function PointAt(month: nat, amount: real, rate: real): (p: Point)
    requires rate != 0.0
    ensures p.invested == amount * month as real
    ensures p.totalValue == DueSum(amount, rate, month)
    ensures p.gains == p.totalValue - p.invested
  {
    AnnuityDueIsSum(amount, rate, month);
    var value := AnnuityDue(amount, rate, month);
    Point(month as real / 12.0, amount * month as real, value, value - amount * month as real)
  }

  /** The months after which a point is emitted, among months 1..m when the
      last month is totalMonths: every twelfth month and the last one. */
  function Emitted(m: nat, totalMonths: nat): seq<nat>
  {
    if m == 0 then []
    else Emitted(m - 1, totalMonths) + (if m % 12 == 0 || m == totalMonths then [m] else [])
  }

  /** The chart points recorded after the given months. */
  function Points(months: seq<nat>, amount: real, rate: real): seq<Point>
    requires rate != 0.0
  {
    seq(|months|, i requires 0 <= i < |months| => PointAt(months[i], amount, rate))
  }

  /** generateChartData: the guard, then one pass over the months that keeps a
      running invested amount and pushes the yearly points. */
  method Chart(totalMonths: int, amount: real, rate: real) returns (data: seq<Point>)
    ensures totalMonths <= 0 || amount <= 0.0 || rate <= 0.0 ==> data == []
    ensures totalMonths > 0 && amount > 0.0 && rate > 0.0 ==> data == Points(Emitted(totalMonths, totalMonths), amount, rate)
  {
    data := [];
    if totalMonths <= 0 || amount <= 0.0 || rate <= 0.0 {
      return;
    }
    var invested := 0.0;
    var totalValue := 0.0;
    var month := 1;
    while month <= totalMonths
      invariant 1 <= month <= totalMonths + 1
      invariant invested == Repeat(amount, month - 1)
      invariant data == Points(Emitted(month - 1, totalMonths), amount, rate)
    {
      invested := invested + amount;
      totalValue := amount * ((Pow(1.0 + rate, month) - 1.0) / rate) * (1.0 + rate);
      if month % 12 == 0 || month == totalMonths {
        PointMatches(month, amount, rate, invested, totalValue);
        PointsSnoc(Emitted(month - 1, totalMonths), month, amount, rate);
        data := data + [Point(month as real / 12.0, invested, totalValue, totalValue - invested)];
      }
      month := month + 1;
    }
  }

  /** The point built from the running figures is the chart's point for the month. */
  lemma PointMatches(month: nat, amount: real, rate: real, invested: real, totalValue: real)
    requires rate != 0.0
    requires invested == Repeat(amount, month)
    requires totalValue == amount * ((Pow(1.0 + rate, month) - 1.0) / rate) * (1.0 + rate)
    ensures Point(month as real / 12.0, invested, totalValue, totalValue - invested) == PointAt(month, amount, rate)
  {
    RepeatIsProduct(amount, month);
  }

  lemma PointsSnoc(months: seq<nat>, m: nat, amount: real, rate: real)
    requires rate != 0.0
    ensures Points(months + [m], amount, rate) == Points(months, amount, rate) + [PointAt(m, amount, rate)]
  {
    assert Points(months + [m], amount, rate)[|months|] == PointAt(m, amount, rate);
  }

  /** calculateSIP: the guard, then invested = amount * 12 * years, the maturity
      by the annuity-due formula (equal to the sum of every instalment
      compounded to maturity), returns, and the chart. */
  method Calculate(amount: real, annualRate: real, years: int) returns (s: Summary, chart: seq<Point>)
    ensures amount <= 0.0 || annualRate <= 0.0 || years <= 0 ==> s == Zero && chart == []
    ensures amount > 0.0 && annualRate > 0.0 && years > 0 ==>
      var rate, n := MonthlyRate(annualRate), 12 * years;
      && s.invested == amount * n as real
      && s.totalValue == DueSum(amount, rate, n)
      && s.gains == s.totalValue - s.invested
      && s.gains > 0.0
      && chart == Points(Emitted(n, n), amount, rate)
  {
    if amount <= 0.0 || annualRate <= 0.0 || years <= 0 {
      return Zero, [];
    }
    var rate := MonthlyRate(annualRate);
    var totalMonths := years * 12;
    var totalInvested := amount * totalMonths as real;
    var maturity := amount * ((Pow(1.0 + rate, totalMonths) - 1.0) / rate) * (1.0 + rate);
    AnnuityDueIsSum(amount, rate, totalMonths);
    DueSumExceedsContributions(amount, rate, totalMonths);
    s := Summary(totalInvested, maturity - totalInvested, maturity);
    chart := Chart(totalMonths, amount, rate);
  }

  /** Months strictly inside a year, before the last month, add no point. */
  lemma {:induction false} WithinYear(y: nat, j: nat, totalMonths: nat)
    requires j < 12 && 12 * y + j < totalMonths
    ensures Emitted(12 * y + j, totalMonths) == Emitted(12 * y, totalMonths)
  {
    if j > 0 {
      WithinYear(y, j - 1, totalMonths);
      assert (12 * y + j) % 12 == j;
    }
  }

  /** Over whole years a point is emitted exactly at months 12, 24, ..., 12y. */
  lemma {:induction false} EmittedByYear(y: nat, years: nat)
    requires y <= years
    ensures Emitted(12 * y, 12 * years) == seq(y, k requires 0 <= k < y => 12 * (k + 1))
  {
    if y > 0 {
      EmittedByYear(y - 1, years);
      WithinYear(y - 1, 11, 12 * years);
      assert 12 * y == 12 * (y - 1) + 11 + 1;
      assert (12 * y) % 12 == 0;
    }
  }

  /** The chart of a y-year plan: y points labelled 1..y, invested 12 * amount
      more at each, and the last point's value is the headline maturity. */
  lemma ChartShape(years: nat, amount: real, rate: real)
    requires rate != 0.0 && years >= 1
    ensures var c := Points(Emitted(12 * years, 12 * years), amount, rate);
      && |c| == years
      && (forall k :: 0 <= k < years ==> c[k].year == (k + 1) as real && c[k].invested == amount * (12 * (k + 1)) as real)
      && c[years - 1].totalValue == DueSum(amount, rate, 12 * years)
  {
    EmittedByYear(years, years);
  }

  /** At a positive rate every point is worth strictly more than the one before. */
  lemma ChartIncreasing(years: nat, amount: real, rate: real, k: nat)
    requires amount > 0.0 && rate > 0.0 && 1 <= k < years
    ensures var c := Points(Emitted(12 * years, 12 * years), amount, rate);
      |c| == years && c[k - 1].totalValue < c[k].totalValue
  {
    EmittedByYear(years, years);
    DueSumStrictlyIncreasing(amount, rate, 12 * k, 12 * (k + 1));
  }
}
