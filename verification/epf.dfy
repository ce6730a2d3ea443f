/** The EPF page: employee and employer contributions as percentages of the
    monthly salary, their combined annuity-due maturity, and a yearly chart
    that also copes with a final partial year. */
module Epf {
  import opened Numeric

  /** The figures the page shows. */
  datatype Summary = Summary(employeeTotal: real, employerTotal: real, interest: real, maturity: real)

  /** One chart row: the year, both cumulative contributions, the value and
      its excess over the contributions (the page's `returns`). */
  datatype Row = Row(year: nat, employee: real, employer: real, totalValue: real, gains: real)

  const Zero := Summary(0.0, 0.0, 0.0, 0.0)

  /** A monthly contribution: the given percentage of the basic salary; it is
      positive when both are. */
  function Share(salary: real, percent: real): (c: real)
    ensures salary > 0.0 && percent > 0.0 ==> c > 0.0
  {
    salary * percent / 100.0
  }

  /** Math.ceil(totalMonths / 12): the number of chart rows. */
  function YearCount(totalMonths: nat): (r: nat)
    ensures 12 * r >= totalMonths && (r > 0 ==> 12 * (r - 1) < totalMonths)
  {
    (totalMonths + 11) / 12
  }

  /** The months elapsed at the end of chart year `year`: whole years, except
      that the last one stops at totalMonths. */
  function MonthsBy(year: nat, totalMonths: nat): nat
  {
    if 12 * year <= totalMonths then 12 * year else totalMonths
  }

  /** The row the chart records for a year. */
  function RowAt(year: nat, totalMonths: nat, employee: real, employer: real, rate: real): (row: Row)
    requires rate != 0.0
    ensures row.totalValue == DueSum(employee + employer, rate, MonthsBy(year, totalMonths))
    ensures row.gains == row.totalValue - (row.employee + row.employer)
  {
    var m := MonthsBy(year, totalMonths);
    AnnuityDueIsSum(employee + employer, rate, m);
    var value := AnnuityDue(employee + employer, rate, m);
    Row(year, Repeat(employee, m), Repeat(employer, m), value, value - (Repeat(employee, m) + Repeat(employer, m)))
  }

  /** Each side's cumulative contribution in a row is its monthly amount times
      the months elapsed by the end of that year. */
  lemma RowContributions(year: nat, totalMonths: nat, employee: real, employer: real, rate: real)
    requires rate != 0.0
    ensures RowAt(year, totalMonths, employee, employer, rate).employee == employee * MonthsBy(year, totalMonths) as real
    ensures RowAt(year, totalMonths, employee, employer, rate).employer == employer * MonthsBy(year, totalMonths) as real
  {
    RepeatIsProduct(employee, MonthsBy(year, totalMonths));
    RepeatIsProduct(employer, MonthsBy(year, totalMonths));
  }

  /** The chart as a whole: one row per started year. */
  function Rows(totalMonths: nat, employee: real, employer: real, rate: real): seq<Row>
    requires rate != 0.0
  {
    seq(YearCount(totalMonths), k requires 0 <= k < YearCount(totalMonths) => RowAt(k + 1, totalMonths, employee, employer, rate))
  }

  /** generateChartData: the guard, then for each year the months of that year
      (twelve, or what is left in the last one), with running contributions. */
  method Chart(employee: real, employer: real, rate: real, totalMonths: int) returns (data: seq<Row>)
    ensures employee <= 0.0 || employer <= 0.0 || rate <= 0.0 || totalMonths <= 0 ==> data == []
    ensures employee > 0.0 && employer > 0.0 && rate > 0.0 && totalMonths > 0 ==>
              data == Rows(totalMonths, employee, employer, rate)
  {
    data := [];
    if employee <= 0.0 || employer <= 0.0 || rate <= 0.0 || totalMonths <= 0 {
      return;
    }
    var employeeSoFar, employerSoFar, totalValue := 0.0, 0.0, 0.0;
    var years := (totalMonths + 11) / 12;
    var year := 1;
    ghost var elapsed := 0;
    while year <= years
      invariant 1 <= year <= years + 1
      invariant elapsed == MonthsBy(year - 1, totalMonths)
      invariant employeeSoFar == Repeat(employee, elapsed)
      invariant employerSoFar == Repeat(employer, elapsed)
      invariant data == Rows(totalMonths, employee, employer, rate)[..year - 1]
    {
      var monthsInYear := if 12 < totalMonths - (year - 1) * 12 then 12 else totalMonths - (year - 1) * 12;
      var month := 1;
      while month <= monthsInYear
        invariant 1 <= month <= monthsInYear + 1
        invariant elapsed == (year - 1) * 12 + month - 1
        invariant employeeSoFar == Repeat(employee, elapsed)
        invariant employerSoFar == Repeat(employer, elapsed)
        invariant month > 1 ==> totalValue == AnnuityDue(employee + employer, rate, elapsed)
      {
        employeeSoFar := employeeSoFar + employee;
        employerSoFar := employerSoFar + employer;
        elapsed := elapsed + 1;
        var contribution := employee + employer;
        totalValue := contribution * ((Pow(1.0 + rate, (year - 1) * 12 + month) - 1.0) / rate) * (1.0 + rate);
        month := month + 1;
      }
      YearStep(totalMonths, employee, employer, rate, year, data, elapsed, employeeSoFar, employerSoFar, totalValue);
      data := data + [Row(year, employeeSoFar, employerSoFar, totalValue, totalValue - (employeeSoFar + employerSoFar))];
      year := year + 1;
    }
  }

  /** The end of a chart year: the row built from the running totals extends
      the chart built so far by that year's row. */
  lemma YearStep(totalMonths: nat, employee: real, employer: real, rate: real, year: nat, data: seq<Row>,
                 elapsed: nat, employeeSoFar: real, employerSoFar: real, totalValue: real)
    requires rate != 0.0 && 1 <= year <= YearCount(totalMonths)
    requires data == Rows(totalMonths, employee, employer, rate)[..year - 1]
    requires elapsed == MonthsBy(year, totalMonths)
    requires employeeSoFar == Repeat(employee, elapsed) && employerSoFar == Repeat(employer, elapsed)
    requires totalValue == AnnuityDue(employee + employer, rate, elapsed)
    ensures data + [Row(year, employeeSoFar, employerSoFar, totalValue, totalValue - (employeeSoFar + employerSoFar))] ==
            Rows(totalMonths, employee, employer, rate)[..year]
  {
    var rows := Rows(totalMonths, employee, employer, rate);
    var row := RowAt(year, totalMonths, employee, employer, rate);
    assert row.employee == employeeSoFar && row.employer == employerSoFar;
    assert row.totalValue == totalValue;
    assert row == Row(year, employeeSoFar, employerSoFar, totalValue, totalValue - (employeeSoFar + employerSoFar));
    assert rows[year - 1] == row;
    assert rows[..year] == rows[..year - 1] + [rows[year - 1]];
  }

  /** calculateEPF: the guard, then each side's monthly contribution is
      salary * its rate / 100, the totals run over 12 * years months, and the
      maturity is the annuity-due value of the combined contribution, which
      is the sum of the two sides' own annuity-due values. */
  method Calculate(salary: real, employeeRate: real, employerRate: real, annualRate: real, years: int)
    returns (s: Summary, chart: seq<Row>)
    ensures salary <= 0.0 || employeeRate <= 0.0 || employerRate <= 0.0 || annualRate <= 0.0 || years <= 0 ==>
              s == Zero && chart == []
    ensures salary > 0.0 && employeeRate > 0.0 && employerRate > 0.0 && annualRate > 0.0 && years > 0 ==>
      var rate, n := annualRate / 100.0 / 12.0, 12 * years;
      var e, r := Share(salary, employeeRate), Share(salary, employerRate);
      && s.employeeTotal == e * n as real
      && s.employerTotal == r * n as real
      && s.maturity == DueSum(e, rate, n) + DueSum(r, rate, n)
      && s.interest == s.maturity - (s.employeeTotal + s.employerTotal)
      && s.interest > 0.0
      && chart == Rows(n, e, r, rate)
  {
    if salary <= 0.0 || employeeRate <= 0.0 || employerRate <= 0.0 || annualRate <= 0.0 || years <= 0 {
      return Zero, [];
    }
    var rate := annualRate / 100.0 / 12.0;
    var totalMonths := 12 * years;
    var employee := Share(salary, employeeRate);
    var employer := Share(salary, employerRate);
    var combined := employee + employer;
    var employeeTotal := employee * totalMonths as real;
    var employerTotal := employer * totalMonths as real;
    var maturity := combined * ((Pow(1.0 + rate, totalMonths) - 1.0) / rate) * (1.0 + rate);
    assert maturity == AnnuityDue(combined, rate, totalMonths);
    CombinedMaturity(employee, employer, rate, totalMonths);
    s := Summary(employeeTotal, employerTotal, maturity - (employeeTotal + employerTotal), maturity);
    chart := Chart(employee, employer, rate, totalMonths);
  }

  /** The combined stream's annuity-due value is the sum of the two streams'
      compounded instalments, and exceeds what was paid in. */
  lemma CombinedMaturity(employee: real, employer: real, rate: real, n: nat)
    requires employee > 0.0 && employer > 0.0 && rate > 0.0 && n >= 1
    ensures AnnuityDue(employee + employer, rate, n) == DueSum(employee, rate, n) + DueSum(employer, rate, n)
    ensures AnnuityDue(employee + employer, rate, n) > employee * n as real + employer * n as real
  {
    AnnuityDueAdditive(employee, employer, rate, n);
    AnnuityDueIsSum(employee, rate, n);
    AnnuityDueIsSum(employer, rate, n);
    DueSumExceedsContributions(employee, rate, n);
    DueSumExceedsContributions(employer, rate, n);
  }

  /** The last row of the chart reaches the final month: its contributions
      are the headline totals and its value is the headline maturity. */
  lemma LastRowIsHeadline(totalMonths: nat, employee: real, employer: real, rate: real)
    requires rate != 0.0 && totalMonths >= 1
    ensures var c := Rows(totalMonths, employee, employer, rate);
      && |c| >= 1
      && c[|c| - 1].employee == employee * totalMonths as real
      && c[|c| - 1].employer == employer * totalMonths as real
      && c[|c| - 1].totalValue == DueSum(employee + employer, rate, totalMonths)
  {
    var c := Rows(totalMonths, employee, employer, rate);
    assert MonthsBy(|c|, totalMonths) == totalMonths;
    RowContributions(|c|, totalMonths, employee, employer, rate);
  }

  /** With whole years the chart has one row per year, each of twelve months. */
  lemma WholeYears(years: nat, employee: real, employer: real, rate: real)
    requires rate != 0.0
    ensures var c := Rows(12 * years, employee, employer, rate);
      && |c| == years
      && forall k :: 0 <= k < years ==> c[k].employee == employee * (12 * (k + 1)) as real
  {
    var c := Rows(12 * years, employee, employer, rate);
    forall k | 0 <= k < years
      ensures c[k].employee == employee * (12 * (k + 1)) as real
    {
      RowContributions(k + 1, 12 * years, employee, employer, rate);
    }
  }
}
