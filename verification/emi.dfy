/** The EMI page: the equated monthly instalment of a loan, its totals, and
    the month-by-month amortisation table in which each instalment pays the
    month's interest on the balance and repays the rest of the principal. */
module Emi {
  import opened Numeric

  /** The figures the page shows. */
  datatype Summary = Summary(emi: real, totalAmount: real, totalInterest: real)

  /** One row of the breakdown: the month and the displayed (clamped)
      principal part, interest part and remaining balance. */
  datatype Row = Row(month: nat, principal: real, interest: real, balance: real)

  /** The instalment: principal / n at a zero rate, otherwise
      P r (1+r)^n / ((1+r)^n - 1). */
  function Payment(principal: real, r: real, n: nat): (p: real)
    requires r >= 0.0 && n >= 1
    ensures principal > 0.0 ==> p > 0.0
  {
    if r == 0.0 then principal / n as real
    else
      PowStrictlyIncreasing(1.0 + r, 0, n);
      principal * r * Pow(1.0 + r, n) / (Pow(1.0 + r, n) - 1.0)
  }

  /** The unclamped balance after k instalments of emi: each month the interest
      balance * r is charged and emi - interest of the principal is repaid. */
  function Balance(principal: real, r: real, emi: real, k: nat): real
  {
    if k == 0 then principal
    else Balance(principal, r, emi, k - 1) - (emi - Balance(principal, r, emi, k - 1) * r)
  }

  /** The interest part of instalment k: the month's rate on the balance before it. */
  function InterestPart(principal: real, r: real, emi: real, k: nat): real
    requires k >= 1
  {
    Balance(principal, r, emi, k - 1) * r
  }

  /** The principal part of instalment k: what is left of the instalment after interest. */
  function PrincipalPart(principal: real, r: real, emi: real, k: nat): real
    requires k >= 1
  {
    emi - InterestPart(principal, r, emi, k)
  }

  /** The row the breakdown records for month k. */
  function RowAt(k: nat, principal: real, r: real, emi: real): (row: Row)
    requires k >= 1
    ensures row.month == k
    ensures row.principal >= 0.0 && row.interest >= 0.0 && row.balance >= 0.0
  {
    Row(k, ClampZero(PrincipalPart(principal, r, emi, k)), ClampZero(InterestPart(principal, r, emi, k)),
        ClampZero(Balance(principal, r, emi, k)))
  }

  function Rows(n: nat, principal: real, r: real, emi: real): seq<Row>
  {
    seq(n, k requires 0 <= k < n => RowAt(k + 1, principal, r, emi))
  }

  /** The page's effect: the instalment from the monthly rate and the number of
      payments, the totals, and the breakdown loop over months 1..n. The rate
      input starts at 0 and the tenure input at 1 year. */
  method Calculate(principal: real, rate: real, tenure: int) returns (s: Summary, breakdown: seq<Row>)
    requires rate >= 0.0 && tenure >= 1
    ensures var r, n := rate / 12.0 / 100.0, tenure * 12;
      && s.emi == Payment(principal, r, n)
      && s.totalAmount == s.emi * n as real
      && s.totalInterest == s.totalAmount - principal
      && breakdown == Rows(n, principal, r, s.emi)
  {
    var monthlyRate := rate / 12.0 / 100.0;
    var numberOfPayments := tenure * 12;
    var emiAmount := Payment(principal, monthlyRate, numberOfPayments);
    var totalAmountValue := emiAmount * numberOfPayments as real;
    s := Summary(emiAmount, totalAmountValue, totalAmountValue - principal);
    var balance := principal;
    breakdown := [];
    var month := 1;
    while month <= numberOfPayments
      invariant 1 <= month <= numberOfPayments + 1
      invariant balance == Balance(principal, monthlyRate, emiAmount, month - 1)
      invariant breakdown == Rows(numberOfPayments, principal, monthlyRate, emiAmount)[..month - 1]
    {
      var interest := balance * monthlyRate;
      var principalPaid := emiAmount - interest;
      ghost var before := balance;
      balance := balance - principalPaid;
      MonthStep(numberOfPayments, principal, monthlyRate, emiAmount, month, breakdown, before, interest, principalPaid, balance);
      breakdown := breakdown + [Row(month, ClampZero(principalPaid), ClampZero(interest), ClampZero(balance))];
      month := month + 1;
    }
  }

  /** One pass of the breakdown loop: the running balance follows Balance and
      the row built from it extends the table by that month's row. */
  lemma MonthStep(n: nat, principal: real, r: real, emi: real, month: nat, done: seq<Row>,
                  before: real, interest: real, principalPaid: real, after: real)
    requires 1 <= month <= n
    requires done == Rows(n, principal, r, emi)[..month - 1]
    requires before == Balance(principal, r, emi, month - 1)
    requires interest == before * r && principalPaid == emi - interest && after == before - principalPaid
    ensures after == Balance(principal, r, emi, month)
    ensures done + [Row(month, ClampZero(principalPaid), ClampZero(interest), ClampZero(after))] ==
            Rows(n, principal, r, emi)[..month]
  {
    var rows := Rows(n, principal, r, emi);
    assert InterestPart(principal, r, emi, month) == interest;
    assert PrincipalPart(principal, r, emi, month) == principalPaid;
    assert Balance(principal, r, emi, month) == after;
    assert rows[month - 1] == RowAt(month, principal, r, emi);
    assert rows[..month] == rows[..month - 1] + [rows[month - 1]];
  }

  /** The balance is linear in the loan and the instalment: the loan grown
      alone plus the balance of instalments paid against nothing. */
  lemma {:induction false} BalanceSplits(principal: real, r: real, emi: real, k: nat)
    ensures Balance(principal, r, emi, k) == Balance(principal, r, 0.0, k) + Balance(0.0, r, emi, k)
  {
    if k > 0 {
      BalanceSplits(principal, r, emi, k - 1);
      SplitMonth(Balance(principal, r, 0.0, k - 1), Balance(0.0, r, emi, k - 1), r, emi);
    }
  }

  /** With no instalments the loan compounds: P (1 + r)^k. */
  lemma {:induction false} LoanGrows(principal: real, r: real, k: nat)
    ensures Balance(principal, r, 0.0, k) == principal * Pow(1.0 + r, k)
  {
    if k > 0 {
      LoanGrows(principal, r, k - 1);
      GrowMonth(principal, Pow(1.0 + r, k - 1), r);
    }
  }

  /** Instalments paid against nothing: r B = emi - emi (1 + r)^k. */
  lemma {:induction false} InstalmentsCompound(r: real, emi: real, k: nat)
    ensures r * Balance(0.0, r, emi, k) == emi - emi * Pow(1.0 + r, k)
  {
    if k > 0 {
      var a, p := Balance(0.0, r, emi, k - 1), Pow(1.0 + r, k - 1);
      InstalmentsCompound(r, emi, k - 1);
      assert Balance(0.0, r, emi, k) == a - (emi - a * r);
      assert Pow(1.0 + r, k) == (1.0 + r) * p;
      PayMonth(r, emi, a, p);
    }
  }

  /** At a zero rate k instalments simply add up: B = -emi k. */
  lemma {:induction false} InstalmentsAdd(emi: real, k: nat)
    ensures Balance(0.0, 0.0, emi, k) == 0.0 - emi * k as real
  {
    if k > 0 {
      InstalmentsAdd(emi, k - 1);
      AddOne(emi, k - 1);
    }
  }

  /** The amortisation formula for the balance after k instalments:
      P (1+r)^k - emi ((1+r)^k - 1) / r at a positive rate, P - emi k at zero. */
  lemma BalanceClosedForm(principal: real, r: real, emi: real, k: nat)
    requires r >= 0.0
    ensures r > 0.0 ==> Balance(principal, r, emi, k) == principal * Pow(1.0 + r, k) - emi * (Pow(1.0 + r, k) - 1.0) / r
    ensures r == 0.0 ==> Balance(principal, r, emi, k) == principal - emi * k as real
  {
    BalanceSplits(principal, r, emi, k);
    LoanGrows(principal, r, k);
    if r > 0.0 {
      InstalmentsCompound(r, emi, k);
      DivideByRate(r, Balance(0.0, r, emi, k), emi, Pow(1.0 + r, k));
    } else {
      InstalmentsAdd(emi, k);
      PowOne(k);
    }
  }

  /** In exact arithmetic the instalment clears the loan: the unclamped
      balance after n payments is zero, in both branches of the formula. */
  lemma PaidOff(principal: real, r: real, n: nat)
    requires r >= 0.0 && n >= 1
    ensures Balance(principal, r, Payment(principal, r, n), n) == 0.0
  {
    var emi := Payment(principal, r, n);
    BalanceSplits(principal, r, emi, n);
    LoanGrows(principal, r, n);
    if r > 0.0 {
      InstalmentsCompound(r, emi, n);
      PowStrictlyIncreasing(1.0 + r, 0, n);
      CancelPayment(principal, r, Pow(1.0 + r, n), Balance(0.0, r, emi, n));
    } else {
      InstalmentsAdd(emi, n);
      PowOne(n);
      CancelCount(principal, n);
    }
  }

  /** The principal repaid by the first m instalments. */
  function Repaid(principal: real, r: real, emi: real, m: nat): real
  {
    if m == 0 then 0.0 else Repaid(principal, r, emi, m - 1) + PrincipalPart(principal, r, emi, m)
  }

  /** The interest paid in the first m instalments. */
  function InterestPaid(principal: real, r: real, emi: real, m: nat): real
  {
    if m == 0 then 0.0 else InterestPaid(principal, r, emi, m - 1) + InterestPart(principal, r, emi, m)
  }

  /** Every instalment splits into its interest and principal parts, and the
      principal parts repaid so far are what the balance has come down by. */
  lemma {:induction false} PartsTelescope(principal: real, r: real, emi: real, m: nat)
    ensures Repaid(principal, r, emi, m) == principal - Balance(principal, r, emi, m)
    ensures InterestPaid(principal, r, emi, m) + Repaid(principal, r, emi, m) == emi * m as real
  {
    if m > 0 {
      PartsTelescope(principal, r, emi, m - 1);
      AddOne(emi, m - 1);
    }
  }

  /** Over the whole tenure the principal parts add up to the loan and the
      interest parts to the page's total interest, emi * n - P. */
  lemma RepaysLoan(principal: real, r: real, n: nat, emi: real)
    requires r >= 0.0 && n >= 1 && emi == Payment(principal, r, n)
    ensures Repaid(principal, r, emi, n) == principal
    ensures InterestPaid(principal, r, emi, n) == emi * n as real - principal
  {
    PaidOff(principal, r, n);
    ClearedLoan(principal, r, emi, n);
  }

  lemma ClearedLoan(principal: real, r: real, emi: real, n: nat)
    requires Balance(principal, r, emi, n) == 0.0
    ensures Repaid(principal, r, emi, n) == principal
    ensures InterestPaid(principal, r, emi, n) == emi * n as real - principal
  {
    PartsTelescope(principal, r, emi, n);
  }

  /** At a zero rate no interest is charged and every instalment repays P / n. */
  lemma ZeroRate(principal: real, n: nat, k: nat)
    requires 1 <= k <= n
    ensures InterestPart(principal, 0.0, Payment(principal, 0.0, n), k) == 0.0
    ensures PrincipalPart(principal, 0.0, Payment(principal, 0.0, n), k) == principal / n as real
    ensures RowAt(k, principal, 0.0, Payment(principal, 0.0, n)).interest == 0.0
    ensures RowAt(k, principal, 0.0, Payment(principal, 0.0, n)).principal == ClampZero(principal / n as real)
  {
  }

  /** Each principal part is the previous one grown by one month's interest. */
  lemma PartGrows(principal: real, r: real, emi: real, k: nat)
    requires k >= 1
    ensures PrincipalPart(principal, r, emi, k + 1) == PrincipalPart(principal, r, emi, k) * (1.0 + r)
  {
    var b := Balance(principal, r, emi, k - 1);
    var d := emi - b * r;
    assert Balance(principal, r, emi, k) == b - d;
    assert emi - (b - d) * r == d * (1.0 + r);
  }

  /** For a positive loan at a non-negative rate the first instalment repays
      some principal: emi exceeds the first month's interest P r. */
  lemma FirstPartPositive(principal: real, r: real, n: nat)
    requires principal > 0.0 && r >= 0.0 && n >= 1
    ensures PrincipalPart(principal, r, Payment(principal, r, n), 1) > 0.0
  {
    var emi := Payment(principal, r, n);
    assert PrincipalPart(principal, r, emi, 1) == emi - principal * r;
    if r > 0.0 {
      PaymentExceedsInterest(principal, r, n);
    } else {
      assert emi > 0.0 && principal * r == 0.0;
    }
  }

  /** At a positive rate the instalment exceeds the first month's interest. */
  lemma PaymentExceedsInterest(principal: real, r: real, n: nat)
    requires principal > 0.0 && r > 0.0 && n >= 1
    ensures Payment(principal, r, n) > principal * r
  {
    var a, x := principal * r, Pow(1.0 + r, n);
    assert a > 0.0 by { Positive(principal, r); }
    assert x > 1.0 by { PowStrictlyIncreasing(1.0 + r, 0, n); }
    assert Payment(principal, r, n) == a * x / (x - 1.0);
    GrowsOverDenominator(a, x);
  }

  lemma {:induction false} PartPositive(principal: real, r: real, emi: real, k: nat)
    requires r >= 0.0 && k >= 1 && PrincipalPart(principal, r, emi, 1) > 0.0
    ensures PrincipalPart(principal, r, emi, k) > 0.0
  {
    if k > 1 {
      PartPositive(principal, r, emi, k - 1);
      PartGrows(principal, r, emi, k - 1);
      Positive(PrincipalPart(principal, r, emi, k - 1), 1.0 + r);
    }
  }

  /** With every principal part positive the balance only falls. */
  lemma {:induction false} BalanceFalls(principal: real, r: real, emi: real, k: nat, n: nat)
    requires r >= 0.0 && k <= n && PrincipalPart(principal, r, emi, 1) > 0.0
    ensures Balance(principal, r, emi, k) >= Balance(principal, r, emi, n)
    ensures k < n ==> Balance(principal, r, emi, k) > Balance(principal, r, emi, n)
    decreases n - k
  {
    if k < n {
      PartPositive(principal, r, emi, k + 1);
      BalanceFalls(principal, r, emi, k + 1, n);
    }
  }

  /** For a positive loan at a non-negative rate the clamps of the breakdown
      never fire: each displayed row is the exact principal part, interest part
      and balance, the principal part is positive and the balance falls. */
  lemma NoClamping(principal: real, r: real, n: nat, k: nat)
    requires principal > 0.0 && r >= 0.0 && 1 <= k <= n
    ensures var emi := Payment(principal, r, n);
      && PrincipalPart(principal, r, emi, k) > 0.0
      && Balance(principal, r, emi, k) < Balance(principal, r, emi, k - 1)
      && RowAt(k, principal, r, emi) ==
         Row(k, PrincipalPart(principal, r, emi, k), InterestPart(principal, r, emi, k), Balance(principal, r, emi, k))
  {
    var emi := Payment(principal, r, n);
    FirstPartPositive(principal, r, n);
    PartPositive(principal, r, emi, k);
    PaidOff(principal, r, n);
    BalanceFalls(principal, r, emi, k, n);
    BalanceFalls(principal, r, emi, k - 1, n);
    NonNegative(Balance(principal, r, emi, k - 1), r);
  }

  // Arithmetic steps kept apart from the recursive definitions.

  lemma CancelCount(principal: real, n: nat)
    requires n >= 1
    ensures principal * 1.0 + (0.0 - principal / n as real * n as real) == 0.0
  {
  }

  lemma CancelPayment(principal: real, r: real, x: real, d: real)
    requires r > 0.0 && x > 1.0
    requires r * d == principal * r * x / (x - 1.0) - principal * r * x / (x - 1.0) * x
    ensures principal * x + d == 0.0
  {
    var e := principal * r * x / (x - 1.0);
    assert e * (x - 1.0) == principal * r * x;
    assert r * d == 0.0 - e * (x - 1.0);
    assert r * d == r * (0.0 - principal * x);
  }

  lemma DivideByRate(r: real, d: real, emi: real, x: real)
    requires r > 0.0 && r * d == emi - emi * x
    ensures d == 0.0 - emi * (x - 1.0) / r
  {
  }

  lemma SplitMonth(a: real, c: real, r: real, emi: real)
    ensures (a + c) - (emi - (a + c) * r) == (a - (0.0 - a * r)) + (c - (emi - c * r))
  {
  }

  lemma GrowMonth(principal: real, p: real, r: real)
    ensures principal * p - (0.0 - principal * p * r) == principal * ((1.0 + r) * p)
  {
  }

  lemma PayMonth(r: real, emi: real, a: real, p: real)
    requires r * a == emi - emi * p
    ensures r * (a - (emi - a * r)) == emi - emi * ((1.0 + r) * p)
  {
  }

  lemma GrowsOverDenominator(a: real, x: real)
    requires a > 0.0 && x > 1.0
    ensures a * x / (x - 1.0) > a
  {
    var q := a * x / (x - 1.0);
    assert q * (x - 1.0) == a * x;
    assert (q - a) * (x - 1.0) == a;
    if q <= a {
      NonNegative(a - q, x - 1.0);
      assert false;
    }
  }

  lemma Positive(a: real, b: real)
    requires a > 0.0 && b > 0.0
    ensures a * b > 0.0
  {
  }

  lemma NonNegative(a: real, b: real)
    requires a >= 0.0 && b >= 0.0
    ensures a * b >= 0.0
  {
  }
}
