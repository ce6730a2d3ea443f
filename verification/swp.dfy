/** The SWP page: a corpus earning monthly interest from which a fixed
    monthly amount, set once from the initial corpus, is withdrawn; the
    balance is clamped at zero, and a chart reports every year. */
module Swp {
  import opened Numeric

  /** The figures the page shows. */
  datatype Summary = Summary(monthlyWithdrawal: real, totalWithdrawal: real, remainingCorpus: real, totalInterest: real)

  /** One chart row: the year, the corpus at its end (shown twice by the page,
      as `corpus` and `remainingCorpus`), the year's withdrawals and interest. */
  datatype Row = Row(year: nat, corpus: real, withdrawal: real, remainingCorpus: real, interestEarned: real)

  const Zero := Summary(0.0, 0.0, 0.0, 0.0)

  /** One month: interest is added, the withdrawal subtracted, and a negative
      balance is set to zero. */
  function Next(corpus: real, withdrawal: real, rate: real): (r: real)
    ensures r >= 0.0
    ensures withdrawal <= corpus + corpus * rate ==> r == corpus + corpus * rate - withdrawal
    ensures withdrawal >= corpus + corpus * rate ==> r == 0.0
  {
    ClampZero(corpus + corpus * rate - withdrawal)
  }

  /** The corpus after m months. */
  function CorpusAfter(initial: real, withdrawal: real, rate: real, m: nat): real
  {
    if m == 0 then initial else Next(CorpusAfter(initial, withdrawal, rate, m - 1), withdrawal, rate)
  }

  /** The interest credited over the first m months. */
  function InterestUpTo(initial: real, withdrawal: real, rate: real, m: nat): real
  {
    if m == 0 then 0.0
    else InterestUpTo(initial, withdrawal, rate, m - 1) + CorpusAfter(initial, withdrawal, rate, m - 1) * rate
  }

  /** calculateSWP: the guard, then the monthly withdrawal from the initial
      corpus, the total withdrawal over the whole period, and a month-by-month
      run of the corpus adding up the interest. */
  method Calculate(corpus: real, withdrawalRate: real, annualRate: real, years: int) returns (s: Summary, chart: seq<Row>)
    ensures corpus <= 0.0 || withdrawalRate <= 0.0 || annualRate <= 0.0 || years <= 0 ==> s == Zero && chart == []
    ensures corpus > 0.0 && withdrawalRate > 0.0 && annualRate > 0.0 && years > 0 ==>
      var w, rate := corpus * (withdrawalRate / 100.0) / 12.0, annualRate / 100.0 / 12.0;
      && s.monthlyWithdrawal == w
      && s.totalWithdrawal == w * years as real * 12.0
      && s.remainingCorpus == CorpusAfter(corpus, w, rate, 12 * years)
      && s.totalInterest == InterestUpTo(corpus, w, rate, 12 * years)
      && chart == Rows(years, corpus, w, rate)
  {
    if corpus <= 0.0 || withdrawalRate <= 0.0 || annualRate <= 0.0 || years <= 0 {
      return Zero, [];
    }
    var monthlyRate := annualRate / 100.0 / 12.0;
    var withdrawal := (corpus * (withdrawalRate / 100.0)) / 12.0;
    var totalWithdrawal := withdrawal * years as real * 12.0;
    var remaining := corpus;
    var totalInterest := 0.0;
    var year := 1;
    while year <= years
      invariant 1 <= year <= years + 1
      invariant remaining == CorpusAfter(corpus, withdrawal, monthlyRate, (year - 1) * 12)
      invariant totalInterest == InterestUpTo(corpus, withdrawal, monthlyRate, (year - 1) * 12)
    {
      var month := 1;
      while month <= 12
        invariant 1 <= month <= 13
        invariant remaining == CorpusAfter(corpus, withdrawal, monthlyRate, (year - 1) * 12 + month - 1)
        invariant totalInterest == InterestUpTo(corpus, withdrawal, monthlyRate, (year - 1) * 12 + month - 1)
      {
        MonthStep(corpus, withdrawal, monthlyRate, (year - 1) * 12 + month - 1, remaining);
        var interest := remaining * monthlyRate;
        totalInterest := totalInterest + interest;
        remaining := remaining + interest;
        remaining := remaining - withdrawal;
        if remaining < 0.0 {
          remaining := 0.0;
        }
        month := month + 1;
      }
      year := year + 1;
    }
    s := Summary(withdrawal, totalWithdrawal, remaining, totalInterest);
    chart := Chart(corpus, withdrawal, monthlyRate, years);
  }

  /** The row the chart records for a year. */
  function RowAt(year: nat, initial: real, withdrawal: real, rate: real): (row: Row)
    requires year >= 1
    ensures row.corpus == row.remainingCorpus == CorpusAfter(initial, withdrawal, rate, 12 * year)
    ensures row.withdrawal == 12.0 * withdrawal
  {
    var corpus := CorpusAfter(initial, withdrawal, rate, 12 * year);
    var interest := InterestUpTo(initial, withdrawal, rate, 12 * year) - InterestUpTo(initial, withdrawal, rate, 12 * (year - 1));
    Row(year, corpus, 12.0 * withdrawal, corpus, interest)
  }

  function Rows(years: nat, initial: real, withdrawal: real, rate: real): seq<Row>
  {
    seq(years, k requires 0 <= k < years => RowAt(k + 1, initial, withdrawal, rate))
  }

  /** generateChartData: the guard, then the same month-by-month run as the
      headline, with the year's withdrawals and interest reported per year. */
  method Chart(initial: real, withdrawal: real, rate: real, years: int) returns (data: seq<Row>)
    ensures initial <= 0.0 || withdrawal <= 0.0 || rate <= 0.0 || years <= 0 ==> data == []
    ensures initial > 0.0 && withdrawal > 0.0 && rate > 0.0 && years > 0 ==> data == Rows(years, initial, withdrawal, rate)
  {
    data := [];
    if initial <= 0.0 || withdrawal <= 0.0 || rate <= 0.0 || years <= 0 {
      return;
    }
    var corpus := initial;
    var totalInterest := 0.0;
    var year := 1;
    ghost var elapsed := 0;
    while year <= years
      invariant 1 <= year <= years + 1 && elapsed == (year - 1) * 12
      invariant corpus == CorpusAfter(initial, withdrawal, rate, elapsed)
      invariant totalInterest == InterestUpTo(initial, withdrawal, rate, elapsed)
      invariant data == Rows(years, initial, withdrawal, rate)[..year - 1]
    {
      var yearWithdrawal := 0.0;
      var yearInterest := 0.0;
      ghost var yearStart := elapsed;
      var month := 1;
      while month <= 12
        invariant 1 <= month <= 13 && elapsed == yearStart + month - 1
        invariant corpus == CorpusAfter(initial, withdrawal, rate, elapsed)
        invariant totalInterest == InterestUpTo(initial, withdrawal, rate, elapsed)
        invariant yearInterest == totalInterest - InterestUpTo(initial, withdrawal, rate, yearStart)
        invariant yearWithdrawal == Repeat(withdrawal, month - 1)
      {
        MonthStep(initial, withdrawal, rate, elapsed, corpus);
        var interest := corpus * rate;
        yearInterest := yearInterest + interest;
        totalInterest := totalInterest + interest;
        corpus := corpus + interest;
        corpus := corpus - withdrawal;
        yearWithdrawal := yearWithdrawal + withdrawal;
        if corpus < 0.0 {
          corpus := 0.0;
        }
        elapsed := elapsed + 1;
        month := month + 1;
      }
      ChartYearStep(years, initial, withdrawal, rate, year, data, corpus, totalInterest, yearWithdrawal, yearInterest);
      data := data + [Row(year, corpus, yearWithdrawal, corpus, yearInterest)];
      year := year + 1;
    }
  }

  /** One month of either loop, stated on the running balance. */
  lemma MonthStep(initial: real, withdrawal: real, rate: real, m: nat, corpus: real)
    requires corpus == CorpusAfter(initial, withdrawal, rate, m)
    ensures CorpusAfter(initial, withdrawal, rate, m + 1) ==
            (if corpus + corpus * rate - withdrawal < 0.0 then 0.0 else corpus + corpus * rate - withdrawal)
    ensures InterestUpTo(initial, withdrawal, rate, m + 1) == InterestUpTo(initial, withdrawal, rate, m) + corpus * rate
  {
    assert CorpusAfter(initial, withdrawal, rate, m + 1) == Next(corpus, withdrawal, rate);
  }

  /** The end of a year of generateChartData: the row built from the running
      figures extends the chart built so far by that year's row. */
  lemma ChartYearStep(years: nat, initial: real, withdrawal: real, rate: real, year: nat, data: seq<Row>,
                      corpus: real, totalInterest: real, yearWithdrawal: real, yearInterest: real)
    requires 1 <= year <= years
    requires data == Rows(years, initial, withdrawal, rate)[..year - 1]
    requires corpus == CorpusAfter(initial, withdrawal, rate, (year - 1) * 12 + 12)
    requires totalInterest == InterestUpTo(initial, withdrawal, rate, (year - 1) * 12 + 12)
    requires yearInterest == totalInterest - InterestUpTo(initial, withdrawal, rate, (year - 1) * 12)
    requires yearWithdrawal == Repeat(withdrawal, 12)
    ensures data + [Row(year, corpus, yearWithdrawal, corpus, yearInterest)] == Rows(years, initial, withdrawal, rate)[..year]
  {
    RepeatIsProduct(withdrawal, 12);
    RowMatches(year, initial, withdrawal, rate, Row(year, corpus, yearWithdrawal, corpus, yearInterest), totalInterest);
    RowsPrefix(years, initial, withdrawal, rate, year);
  }

  /** A row built from the running figures at the end of a year is the
      chart's row for that year. */
  lemma RowMatches(year: nat, initial: real, withdrawal: real, rate: real, row: Row, totalInterest: real)
    requires year >= 1
    requires row.year == year
    requires row.corpus == row.remainingCorpus == CorpusAfter(initial, withdrawal, rate, (year - 1) * 12 + 12)
    requires totalInterest == InterestUpTo(initial, withdrawal, rate, (year - 1) * 12 + 12)
    requires row.interestEarned == totalInterest - InterestUpTo(initial, withdrawal, rate, (year - 1) * 12)
    requires row.withdrawal == withdrawal * 12 as real
    ensures row == RowAt(year, initial, withdrawal, rate)
  {
  }

  lemma RowsPrefix(years: nat, initial: real, withdrawal: real, rate: real, year: nat)
    requires 1 <= year <= years
    ensures Rows(years, initial, withdrawal, rate)[..year] ==
            Rows(years, initial, withdrawal, rate)[..year - 1] + [RowAt(year, initial, withdrawal, rate)]
  {
    var rows := Rows(years, initial, withdrawal, rate);
    assert rows[year - 1] == RowAt(year, initial, withdrawal, rate);
    assert rows[..year] == rows[..year - 1] + [rows[year - 1]];
  }

  /** The corpus is never negative once a month has passed, nor before if the
      initial corpus is not. */
  lemma CorpusNonNegative(initial: real, withdrawal: real, rate: real, m: nat)
    requires initial >= 0.0 || m >= 1
    ensures CorpusAfter(initial, withdrawal, rate, m) >= 0.0
  {
  }

  /** An exhausted corpus stays exhausted: with a non-negative withdrawal a
      zero balance is zero in every later month. */
  lemma {:induction false} ZeroIsAbsorbing(initial: real, withdrawal: real, rate: real, m: nat, later: nat)
    requires withdrawal >= 0.0 && m <= later
    requires CorpusAfter(initial, withdrawal, rate, m) == 0.0
    ensures CorpusAfter(initial, withdrawal, rate, later) == 0.0
    decreases later - m
  {
    if m < later {
      ZeroIsAbsorbing(initial, withdrawal, rate, m, later - 1);
    }
  }

  /** At a non-negative rate and corpus the interest credited is never negative. */
  lemma {:induction false} InterestNonNegative(initial: real, withdrawal: real, rate: real, m: nat)
    requires initial >= 0.0 && rate >= 0.0
    ensures InterestUpTo(initial, withdrawal, rate, m) >= 0.0
  {
    if m > 0 {
      InterestNonNegative(initial, withdrawal, rate, m - 1);
      CorpusNonNegative(initial, withdrawal, rate, m - 1);
    }
  }

  function WithdrawnInRows(rows: seq<Row>): real
  {
    if rows == [] then 0.0 else WithdrawnInRows(rows[..|rows| - 1]) + rows[|rows| - 1].withdrawal
  }

  function InterestInRows(rows: seq<Row>): real
  {
    if rows == [] then 0.0 else InterestInRows(rows[..|rows| - 1]) + rows[|rows| - 1].interestEarned
  }

  /** The chart's yearly withdrawals add up to the headline total withdrawal. */
  lemma {:induction false} RowsWithdrawals(years: nat, initial: real, withdrawal: real, rate: real)
    ensures WithdrawnInRows(Rows(years, initial, withdrawal, rate)) == withdrawal * years as real * 12.0
  {
    if years > 0 {
      RowsWithdrawals(years - 1, initial, withdrawal, rate);
      var rows := Rows(years, initial, withdrawal, rate);
      var y := (years - 1) as real;
      assert rows[..years - 1] == Rows(years - 1, initial, withdrawal, rate);
      assert WithdrawnInRows(rows) == WithdrawnInRows(rows[..years - 1]) + rows[years - 1].withdrawal;
      assert rows[years - 1].withdrawal == withdrawal * 12 as real;
      AddYear(withdrawal, y);
      assert y + 1.0 == years as real;
    }
  }

  /** The chart's yearly interest adds up to the interest over all the months. */
  lemma {:induction false} RowsInterest(years: nat, initial: real, withdrawal: real, rate: real)
    ensures InterestInRows(Rows(years, initial, withdrawal, rate)) == InterestUpTo(initial, withdrawal, rate, 12 * years)
  {
    if years > 0 {
      RowsInterest(years - 1, initial, withdrawal, rate);
      var rows := Rows(years, initial, withdrawal, rate);
      assert rows[..years - 1] == Rows(years - 1, initial, withdrawal, rate);
      assert rows[years - 1] == RowAt(years, initial, withdrawal, rate);
    }
  }

  /** The last row's corpus is the corpus after all the months. */
  lemma LastRowCorpus(years: nat, initial: real, withdrawal: real, rate: real)
    requires years >= 1
    ensures Rows(years, initial, withdrawal, rate)[years - 1].corpus == CorpusAfter(initial, withdrawal, rate, 12 * years)
  {
  }

  lemma AddYear(w: real, y: real)
    ensures w * y * 12.0 + w * 12 as real == w * (y + 1.0) * 12.0
  {
  }
}
