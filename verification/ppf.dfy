/** The PPF page: one contribution at the start of every year, each
    compounded annually to maturity including its own year, and a chart that
    recomputes the value at the end of each year from scratch. */
module Ppf {
  import opened Numeric

  /** The figures the page shows. */
  datatype Summary = Summary(invested: real, interest: real, maturity: real)

  /** One chart row: the year, the amount contributed so far, the value and
      their difference (the page's `returns`). */
  datatype Row = Row(year: nat, invested: real, totalValue: real, gains: real)

  const Zero := Summary(0.0, 0.0, 0.0)

  /** The value at the end of year `horizon` of the contributions of years
      1..paid: the contribution of year i compounds for horizon - i + 1 years. */
  function Deposits(contribution: real, rate: real, horizon: nat, paid: nat): real
    requires paid <= horizon
  {
    if paid == 0 then 0.0
    else Deposits(contribution, rate, horizon, paid - 1) + contribution * Pow(1.0 + rate, horizon - paid + 1)
  }

  /** The value at the end of a year of every contribution made up to it. */
  function ValueAt(year: nat, contribution: real, rate: real): real
  {
    Deposits(contribution, rate, year, year)
  }

  function RowAt(year: nat, contribution: real, rate: real): (row: Row)
    ensures row.invested == contribution * year as real
    ensures row.gains == row.totalValue - row.invested
  {
    var value := ValueAt(year, contribution, rate);
    Row(year, contribution * year as real, value, value - contribution * year as real)
  }

  function Rows(years: nat, contribution: real, rate: real): seq<Row>
  {
    seq(years, k requires 0 <= k < years => RowAt(k + 1, contribution, rate))
  }

  /** calculatePPF: the guard, then invested = contribution * years and the
      maturity accumulated contribution by contribution. It is the annual
      annuity-due value and exceeds what was paid in. */
  method Calculate(contribution: real, annualRate: real, years: int) returns (s: Summary, chart: seq<Row>)
    ensures contribution <= 0.0 || annualRate <= 0.0 || years <= 0 ==> s == Zero && chart == []
    ensures contribution > 0.0 && annualRate > 0.0 && years > 0 ==>
      var rate := annualRate / 100.0;
      && s.invested == contribution * years as real
      && s.maturity == ValueAt(years, contribution, rate)
      && s.maturity == AnnuityDue(contribution, rate, years)
      && s.interest == s.maturity - s.invested
      && s.interest > 0.0
      && chart == Rows(years, contribution, rate)
  {
    if contribution <= 0.0 || annualRate <= 0.0 || years <= 0 {
      return Zero, [];
    }
    var rate := annualRate / 100.0;
    var totalInvested := contribution * years as real;
    var maturity := 0.0;
    var year := 1;
    while year <= years
      invariant 1 <= year <= years + 1
      invariant maturity == Deposits(contribution, rate, years, year - 1)
    {
      maturity := maturity + contribution * Pow(1.0 + rate, years - year + 1);
      year := year + 1;
    }
    ValueIsAnnuityDue(years, contribution, rate);
    DueSumExceedsContributions(contribution, rate, years);
    s := Summary(totalInvested, maturity - totalInvested, maturity);
    chart := Chart(contribution, rate, years);
  }

  /** generateChartData: the guard, then for every year a running invested
      amount and the value recomputed from the first contribution on. */
  method Chart(contribution: real, rate: real, years: int) returns (data: seq<Row>)
    ensures contribution <= 0.0 || rate <= 0.0 || years <= 0 ==> data == []
    ensures contribution > 0.0 && rate > 0.0 && years > 0 ==> data == Rows(years, contribution, rate)
  {
    data := [];
    if contribution <= 0.0 || rate <= 0.0 || years <= 0 {
      return;
    }
    var totalInvested := 0.0;
    var totalValue := 0.0;
    var year := 1;
    while year <= years
      invariant 1 <= year <= years + 1
      invariant totalInvested == contribution * (year - 1) as real
      invariant data == Rows(years, contribution, rate)[..year - 1]
    {
      AddOne(contribution, year - 1);
      totalInvested := totalInvested + contribution;
      totalValue := 0.0;
      var i := 1;
      while i <= year
        invariant 1 <= i <= year + 1
        invariant totalValue == Deposits(contribution, rate, year, i - 1)
      {
        totalValue := totalValue + contribution * Pow(1.0 + rate, year - i + 1);
        i := i + 1;
      }
      var row := Row(year, totalInvested, totalValue, totalValue - totalInvested);
      assert row == RowAt(year, contribution, rate);
      data := data + [row];
      year := year + 1;
    }
  }

  /** Counting the contributions from the newest end: the first `paid` of them
      are the whole sum less the sum over the last horizon - paid exponents. */
  lemma {:induction false} DepositsAsDueSum(contribution: real, rate: real, horizon: nat, paid: nat)
    requires paid <= horizon
    ensures Deposits(contribution, rate, horizon, paid) ==
            DueSum(contribution, rate, horizon) - DueSum(contribution, rate, horizon - paid)
  {
    if paid > 0 {
      var k, before := horizon - paid, Deposits(contribution, rate, horizon, paid - 1);
      assert before == DueSum(contribution, rate, horizon) - DueSum(contribution, rate, k + 1) by {
        DepositsAsDueSum(contribution, rate, horizon, paid - 1);
      }
      assert Deposits(contribution, rate, horizon, paid) == before + contribution * Pow(1.0 + rate, k + 1);
      DueSumStep(contribution, rate, k, before, DueSum(contribution, rate, horizon));
    }
  }

  /** Taking the newest exponent k + 1 off the remaining sum adds its term. */
  lemma DueSumStep(contribution: real, rate: real, k: nat, paidSoFar: real, total: real)
    requires paidSoFar == total - DueSum(contribution, rate, k + 1)
    ensures paidSoFar + contribution * Pow(1.0 + rate, k + 1) == total - DueSum(contribution, rate, k)
  {
  }

  /** The year-end value is sum_{k=1..year} C (1+r)^k, the annual annuity due. */
  lemma ValueIsAnnuityDue(year: nat, contribution: real, rate: real)
    requires rate != 0.0
    ensures ValueAt(year, contribution, rate) == DueSum(contribution, rate, year)
    ensures ValueAt(year, contribution, rate) == AnnuityDue(contribution, rate, year)
  {
    DepositsAsDueSum(contribution, rate, year, year);
    AnnuityDueIsSum(contribution, rate, year);
  }

  /** At a positive rate the chart's value rises strictly year on year. */
  lemma ChartIncreasing(years: nat, contribution: real, rate: real, k: nat)
    requires contribution > 0.0 && rate > 0.0 && 1 <= k < years
    ensures Rows(years, contribution, rate)[k - 1].totalValue < Rows(years, contribution, rate)[k].totalValue
  {
    ValueIsAnnuityDue(k, contribution, rate);
    ValueIsAnnuityDue(k + 1, contribution, rate);
    DueSumStrictlyIncreasing(contribution, rate, k, k + 1);
  }
}
