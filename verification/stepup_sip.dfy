/** The step-up SIP page: a monthly investment that grows by a fixed
    percentage at the start of every year, each instalment compounded monthly
    to maturity, and a chart of the yearly figures. */
module StepUpSip {
  import opened Numeric

  /** The figures the page shows. */
  datatype Summary = Summary(invested: real, interest: real, maturity: real)

  /** One chart row: the year, the amount invested so far, the chart's value
      for the year, their difference (the page's `returns`) and that year's
      monthly instalment. */
  datatype Row = Row(year: nat, invested: real, totalValue: real, gains: real, monthlyInvestment: real)

  const Zero := Summary(0.0, 0.0, 0.0)

  /** The monthly instalment in a year: the initial one stepped up year - 1 times. */
  function Contribution(initial: real, growth: real, year: nat): real
    requires year >= 1
  {
    initial * Pow(growth, year - 1)
  }

  /** Everything invested in years 1..years: twelve instalments a year. */
  function Invested(initial: real, growth: real, years: nat): real
  {
    if years == 0 then 0.0
    else Invested(initial, growth, years - 1) + 12.0 * Contribution(initial, growth, years)
  }

  /** The value at month `horizon` of instalments of c paid in the overall
      months first + 1 .. last: the instalment of month k compounds
      horizon - k + 1 times. */
  function MonthsValue(c: real, rate: real, horizon: nat, first: nat, last: nat): real
    requires first <= last <= horizon
    decreases last - first
  {
    if last == first then 0.0
    else MonthsValue(c, rate, horizon, first, last - 1) + c * Pow(1.0 + rate, horizon - last + 1)
  }

  /** The maturity at month `horizon` of the instalments of years 1..years. */
  function Maturity(initial: real, growth: real, rate: real, horizon: nat, years: nat): real
    requires 12 * years <= horizon
  {
    if years == 0 then 0.0
    else Maturity(initial, growth, rate, horizon, years - 1) +
         MonthsValue(Contribution(initial, growth, years), rate, horizon, 12 * (years - 1), 12 * years)
  }

  /** calculateStepUpSIP: the guard (a 0% step-up is rejected too), then a year
      loop of twelve-month loops adding up the instalments and their values at
      maturity, stepping the instalment up after each year. */
  method Calculate(initial: real, stepUp: real, annualRate: real, years: int) returns (s: Summary, chart: seq<Row>)
    ensures initial <= 0.0 || stepUp <= 0.0 || annualRate <= 0.0 || years <= 0 ==> s == Zero && chart == []
    ensures initial > 0.0 && stepUp > 0.0 && annualRate > 0.0 && years > 0 ==>
      var growth, rate := 1.0 + stepUp / 100.0, annualRate / 100.0 / 12.0;
      && s.invested == Invested(initial, growth, years)
      && s.maturity == Maturity(initial, growth, rate, 12 * years, years)
      && s.interest == s.maturity - s.invested
      && s.interest > 0.0
      && chart == Rows(years, initial, growth, rate)
  {
    if initial <= 0.0 || stepUp <= 0.0 || annualRate <= 0.0 || years <= 0 {
      return Zero, [];
    }
    var rate := annualRate / 100.0 / 12.0;
    var growth := 1.0 + stepUp / 100.0;
    var totalMonths := 12 * years;
    var totalInvested := 0.0;
    var totalValue := 0.0;
    var current := initial;
    var year := 1;
    while year <= years
      invariant 1 <= year <= years + 1
      invariant current == Contribution(initial, growth, year)
      invariant totalInvested == Invested(initial, growth, year - 1)
      invariant totalValue == Maturity(initial, growth, rate, totalMonths, year - 1)
    {
      var yearInvestment, yearValue := YearMonths(current, rate, totalMonths, (year - 1) * 12);
      YearStep(initial, growth, rate, totalMonths, year, current, totalInvested, totalValue, yearInvestment, yearValue);
      totalInvested := totalInvested + yearInvestment;
      totalValue := totalValue + yearValue;
      current := current * growth;
      year := year + 1;
    }
    assert totalValue - totalInvested > 0.0 by {
      MaturityExceedsInvested(initial, growth, rate, totalMonths, years);
    }
    s := Summary(totalInvested, totalValue - totalInvested, totalValue);
    chart := Chart(initial, stepUp, rate, years);
  }

  /** The month loop of one year of calculateStepUpSIP: twelve instalments of
      `current`, the one of overall month k compounded to maturity
      totalMonths - k + 1 times. */
  method YearMonths(current: real, rate: real, totalMonths: nat, monthsBefore: nat)
    returns (yearInvestment: real, yearValue: real)
    requires monthsBefore + 12 <= totalMonths
    ensures yearInvestment == Repeat(current, 12)
    ensures yearValue == MonthsValue(current, rate, totalMonths, monthsBefore, monthsBefore + 12)
  {
    yearInvestment, yearValue := 0.0, 0.0;
    var month := 1;
    while month <= 12
      invariant 1 <= month <= 13
      invariant yearInvestment == Repeat(current, month - 1)
      invariant yearValue == MonthsValue(current, rate, totalMonths, monthsBefore, monthsBefore + month - 1)
    {
      var monthsFromStart := monthsBefore + month;
      var futureValue := current * Pow(1.0 + rate, totalMonths - monthsFromStart + 1);
      MaturityMonth(current, rate, totalMonths, monthsBefore, monthsFromStart, yearValue);
      yearInvestment := yearInvestment + current;
      yearValue := yearValue + futureValue;
      month := month + 1;
    }
  }

  /** The chart's value of instalments of c paid in the overall months
      first + 1 .. last, each grown by (1 + rate)^(months from the start). */
  function ChartValue(c: real, rate: real, first: nat, last: nat): real
    requires first <= last
    decreases last - first
  {
    if last == first then 0.0
    else ChartValue(c, rate, first, last - 1) + c * Pow(1.0 + rate, last)
  }

  /** A chart row. Its value is that of the year's own twelve instalments,
      each grown by (1 + rate)^(months from the start): the annuity-due sum
      of twelve months, grown over the months of the years before. */
  function RowAt(year: nat, initial: real, growth: real, rate: real): (row: Row)
    requires year >= 1
    ensures row.invested == Invested(initial, growth, year)
    ensures row.monthlyInvestment == Contribution(initial, growth, year)
    ensures row.totalValue ==
            Pow(1.0 + rate, 12 * (year - 1)) * DueSum(Contribution(initial, growth, year), rate, 12)
    ensures row.gains == row.totalValue - row.invested
  {
    var c := Contribution(initial, growth, year);
    assert 12 * (year - 1) + 12 == 12 * year;
    ChartValueAsDueSum(c, rate, 12 * (year - 1), 12);
    var value := ChartValue(c, rate, 12 * (year - 1), 12 * year);
    Row(year, Invested(initial, growth, year), value, value - Invested(initial, growth, year), c)
  }

  function Rows(years: nat, initial: real, growth: real, rate: real): seq<Row>
  {
    seq(years, k requires 0 <= k < years => RowAt(k + 1, initial, growth, rate))
  }

  /** generateChartData: the guard, then per year the twelve instalments, a
      running invested amount, a row recording the instalment before it is
      stepped up, and the step-up. */
  method Chart(initial: real, stepUp: real, rate: real, years: int) returns (data: seq<Row>)
    ensures initial <= 0.0 || stepUp <= 0.0 || rate <= 0.0 || years <= 0 ==> data == []
    ensures initial > 0.0 && stepUp > 0.0 && rate > 0.0 && years > 0 ==>
              data == Rows(years, initial, 1.0 + stepUp / 100.0, rate)
  {
    data := [];
    if initial <= 0.0 || stepUp <= 0.0 || rate <= 0.0 || years <= 0 {
      return;
    }
    var growth := 1.0 + stepUp / 100.0;
    var totalInvested := 0.0;
    var totalValue := 0.0;
    var current := initial;
    var year := 1;
    while year <= years
      invariant 1 <= year <= years + 1
      invariant current == Contribution(initial, growth, year)
      invariant totalInvested == Invested(initial, growth, year - 1)
      invariant data == Rows(years, initial, growth, rate)[..year - 1]
    {
      var yearInvestment := 0.0;
      var yearValue := 0.0;
      var month := 1;
      while month <= 12
        invariant 1 <= month <= 13
        invariant yearInvestment == Repeat(current, month - 1)
        invariant yearValue == ChartValue(current, rate, (year - 1) * 12, (year - 1) * 12 + month - 1)
      {
        var monthsFromStart := (year - 1) * 12 + month;
        var futureValue := current * Pow(1.0 + rate, monthsFromStart);
        ChartMonth(current, rate, (year - 1) * 12, monthsFromStart, yearValue);
        yearInvestment := yearInvestment + current;
        yearValue := yearValue + futureValue;
        month := month + 1;
      }
      ChartYearStep(initial, growth, rate, year, current, totalInvested, yearInvestment, yearValue);
      totalInvested := totalInvested + yearInvestment;
      totalValue := yearValue;
      data := data + [Row(year, totalInvested, totalValue, totalValue - totalInvested, current)];
      current := current * growth;
      year := year + 1;
    }
  }

  /** One more month adds that month's instalment, compounded to maturity. */
  lemma MaturityMonth(c: real, rate: real, horizon: nat, first: nat, last: nat, value: real)
    requires first < last <= horizon
    requires value == MonthsValue(c, rate, horizon, first, last - 1)
    ensures value + c * Pow(1.0 + rate, horizon - last + 1) == MonthsValue(c, rate, horizon, first, last)
  {
  }

  /** One more month adds that month's instalment, grown from the start. */
  lemma ChartMonth(c: real, rate: real, first: nat, last: nat, value: real)
    requires first < last
    requires value == ChartValue(c, rate, first, last - 1)
    ensures value + c * Pow(1.0 + rate, last) == ChartValue(c, rate, first, last)
  {
  }

  /** One pass of the year loop of calculateStepUpSIP keeps the running
      totals equal to the sums over the years done so far. */
  lemma YearStep(initial: real, growth: real, rate: real, horizon: nat, year: nat,
                 current: real, totalInvested: real, totalValue: real, yearInvestment: real, yearValue: real)
    requires year >= 1 && 12 * year <= horizon
    requires current == Contribution(initial, growth, year)
    requires totalInvested == Invested(initial, growth, year - 1)
    requires totalValue == Maturity(initial, growth, rate, horizon, year - 1)
    requires yearInvestment == Repeat(current, 12)
    requires yearValue == MonthsValue(current, rate, horizon, (year - 1) * 12, (year - 1) * 12 + 12)
    ensures current * growth == Contribution(initial, growth, year + 1)
    ensures totalInvested + yearInvestment == Invested(initial, growth, year)
    ensures totalValue + yearValue == Maturity(initial, growth, rate, horizon, year)
  {
    StepUp(initial, growth, year);
    RepeatIsProduct(current, 12);
  }

  /** One pass of the year loop of generateChartData builds that year's row
      and keeps the running totals. */
  lemma ChartYearStep(initial: real, growth: real, rate: real, year: nat,
                      current: real, totalInvested: real, yearInvestment: real, yearValue: real)
    requires year >= 1
    requires current == Contribution(initial, growth, year)
    requires totalInvested == Invested(initial, growth, year - 1)
    requires yearInvestment == Repeat(current, 12)
    requires yearValue == ChartValue(current, rate, (year - 1) * 12, (year - 1) * 12 + 12)
    ensures current * growth == Contribution(initial, growth, year + 1)
    ensures totalInvested + yearInvestment == Invested(initial, growth, year)
    ensures Row(year, totalInvested + yearInvestment, yearValue, yearValue - (totalInvested + yearInvestment), current) ==
            RowAt(year, initial, growth, rate)
  {
    StepUp(initial, growth, year);
    RepeatIsProduct(current, 12);
  }

  /** The chart's value of the k months after `first` is the annuity-due sum
      of k months, grown over the first `first` months. */
  lemma {:induction false} ChartValueAsDueSum(c: real, rate: real, first: nat, k: nat)
    ensures ChartValue(c, rate, first, first + k) == Pow(1.0 + rate, first) * DueSum(c, rate, k)
  {
    if k > 0 {
      ChartValueAsDueSum(c, rate, first, k - 1);
      PowAdd(1.0 + rate, first, k);
      var p, q := Pow(1.0 + rate, first), Pow(1.0 + rate, k);
      calc {
        ChartValue(c, rate, first, first + k);
        ChartValue(c, rate, first, first + (k - 1)) + c * Pow(1.0 + rate, first + k);
        p * DueSum(c, rate, k - 1) + c * (p * q);
        p * (DueSum(c, rate, k - 1) + c * q);
        p * DueSum(c, rate, k);
      }
    }
  }

  /** Stepping an instalment up once gives the next year's instalment. */
  lemma StepUp(initial: real, growth: real, year: nat)
    requires year >= 1
    ensures Contribution(initial, growth, year) * growth == Contribution(initial, growth, year + 1)
  {
    calc {
      Contribution(initial, growth, year + 1);
      initial * (growth * Pow(growth, year - 1));
      initial * Pow(growth, year - 1) * growth;
    }
  }

  /** Twelve instalments a year, stepped up geometrically: the total invested
      is 12 * initial * (1 + g + ... + g^(years-1)). */
  lemma {:induction false} InvestedClosedForm(initial: real, growth: real, years: nat)
    ensures Invested(initial, growth, years) == 12.0 * initial * Geo(growth, years)
  {
    if years > 0 {
      InvestedClosedForm(initial, growth, years - 1);
      var g, p := Geo(growth, years - 1), Pow(growth, years - 1);
      assert 12.0 * initial * g + 12.0 * (initial * p) == 12.0 * initial * (g + p);
    }
  }

  /** At a positive rate each instalment grows: the instalments of months
      first + 1 .. last are worth more than c * (last - first) at maturity. */
  lemma {:induction false} MonthsValueExceeds(c: real, rate: real, horizon: nat, first: nat, last: nat)
    requires c > 0.0 && rate > 0.0 && first < last <= horizon
    ensures MonthsValue(c, rate, horizon, first, last) > c * (last - first) as real
    decreases last - first
  {
    PowStrictlyIncreasing(1.0 + rate, 0, horizon - last + 1);
    assert c * Pow(1.0 + rate, horizon - last + 1) > c;
    if last - 1 > first {
      MonthsValueExceeds(c, rate, horizon, first, last - 1);
      AddOne(c, last - 1 - first);
    }
  }

  /** At a positive rate and step-up the maturity exceeds everything invested. */
  lemma {:induction false} MaturityExceedsInvested(initial: real, growth: real, rate: real, horizon: nat, years: nat)
    requires initial > 0.0 && growth > 0.0 && rate > 0.0 && 12 * years <= horizon && years >= 1
    ensures Maturity(initial, growth, rate, horizon, years) > Invested(initial, growth, years)
  {
    PowPositive(growth, years - 1);
    var c := Contribution(initial, growth, years);
    assert c > 0.0;
    MonthsValueExceeds(c, rate, horizon, 12 * (years - 1), 12 * years);
    if years > 1 {
      MaturityExceedsInvested(initial, growth, rate, horizon, years - 1);
    }
  }
}
