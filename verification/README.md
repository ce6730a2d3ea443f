# Finance calculators, modelled in Dafny

A model of the computing core of an Indian personal-finance calculator web
site: the Indian-numbering number-to-words formatter shared by the pages,
the old-scheme and new-scheme in-hand salary pages (slab tax, section 87A
rebate, surcharge, cess, HRA exemption, deductions), and the ten calculator
pages (SIP, step-up SIP, lumpsum, SWP, EMI, PPF, EPF, NPS, RD and FD). Every
calculator page except EMI has a headline calculation and a chart generator.
The calculation applies a guard and then either a closed formula or a loop.
The chart generator applies its own guard and then loops, pushing one row per
year (or per month). The EMI page is the exception: a single effect, with no
guard, computes the instalment and the totals and then loops over the months
to build the amortisation schedule.

One module per source file:

- `Numeric` (numeric.dfy): shared: `Math.pow`, `Math.round`, `Math.min`, geometric and annuity-due sums
- `NumberWords` (number_words.dfy): src/lib/utils.ts
- `Surcharge` (surcharge.dfy): the surcharge tiers written identically in both salary pages
- `OldRegime` (old_regime.dfy): src/app/inhand-old/page.tsx
- `NewRegime` (new_regime.dfy): src/app/inhand-new/page.tsx
- `Sip` (sip.dfy): src/app/sip/page.tsx
- `StepUpSip` (stepup_sip.dfy): src/app/stepup-sip/page.tsx
- `Lumpsum` (lumpsum.dfy): src/app/lumpsum/page.tsx
- `Swp` (swp.dfy): src/app/swp/page.tsx
- `Emi` (emi.dfy): src/app/emi/page.tsx
- `Ppf` (ppf.dfy): src/app/ppf/page.tsx
- `Epf` (epf.dfy): src/app/epf/page.tsx
- `Nps` (nps.dfy): src/app/nps/page.tsx
- `Rd` (rd.dfy): src/app/rd/page.tsx
- `Fd` (fd.dfy): src/app/fd/page.tsx

How the model is built:

- Pure parts are functions: the formatter, the tax and HRA rules and the salary derivations.
- Each page's state-updating loop is a method with loop invariants:
  - `Calculate` returns the figures the page sets, with the chart.
  - `Chart` returns the rows the chart generator pushes.
- Each method is proved equal to a specification function of its inputs:
  - `Rows`/`RowAt`/`Points`;
  - `CorpusAfter`, `Balance`, `Deposits`, `Invested`, `Maturity`;
  - `DueSum`, the sum of the individually compounded instalments.
- Lemmas then state what the page promises about those functions.
- Money is an exact `real`. `Math.pow(x, n)` is `Pow(x, n)` for a natural exponent. `Math.round` is `Floor(x + 0.5)`.
- The `x || 0` input coercions are the identity on real inputs.
- Periods (years, months) are `int` inputs. The pages' `<= 0` guards are modelled as written; after the guard, the loops run over naturals.

The number formatter is modelled twice:

- **As the source builds its strings**: `BelowThousand`, `Buckets`, `Convert` and `Assemble`.
- **As a word-level view**: `GroupTokens`, `Section`, `Tokens`.

`Split` cuts a string at its spaces. `Eval` reads words back left to right into a number. The main result (`ConvertMeaning`) is that the source's string is the word view joined by single spaces, with no leading, trailing or doubled space. Reading it back gives the number, so the formatter is injective below 10^10.

Where a page's explanatory formula text disagrees with its code, the model follows the code:

- src/app/ppf/page.tsx:37 (a lump sum plus an ordinary annuity; the code sums annuity-due deposits);
- src/app/nps/page.tsx:37 and src/app/rd/page.tsx:37 (an ordinary annuity, with an opening balance in the RD case; the code uses the annuity-due value);
- src/app/stepup-sip/page.tsx:40 (exponent n - t; the code compounds month m for totalMonths - m + 1 months);
- src/app/epf/page.tsx:659 (a single lump sum compounded; the code uses the annuity-due value of the monthly contributions).

These behaviours are kept as the code has them:

- the unclamped, possibly negative HRA exemption;
- the 37% top surcharge in both schemes;
- SWP's withdrawal, fixed from the initial corpus;
- the step-up SIP chart value, which is not cumulative: each chart row values only that year's twelve instalments, grown from the start date.

## Model

| member | source | states |
|---|---|---|
| Numeric.Round | src/app/inhand-old/page.tsx:41 | `Math.round` gives the integer within half a unit of x, rounding halves up |
| Numeric.RoundMonotone | src/app/inhand-old/page.tsx:41 | rounding preserves order |
| Numeric.Min | src/app/inhand-old/page.tsx:53 | the minimum is at most each argument and equal to one of them |
| Numeric.ClampZero | src/app/emi/page.tsx:42-44 | the displayed clamp is non-negative, at least v, and either v or 0 |
| Numeric.AnnuityDueIsSum | src/app/sip/page.tsx:62-64 | the closed formula c((1+i)^n - 1)/i (1+i) equals the sum of c(1+i)^k for k = 1..n |
| Numeric.DueSumExceedsContributions | src/app/sip/page.tsx:66 | at a positive rate, n instalments of c grow to more than c n |
| Numeric.DueSumStrictlyIncreasing | src/app/sip/page.tsx:91-93 | at a positive rate each further instalment strictly raises the value |
| Numeric.AnnuityDueAdditive | src/app/epf/page.tsx:77-79 | the annuity-due value is additive in the instalment |
| NumberWords.BelowThousand | src/lib/utils.ts:16-28 | the helper gives "" exactly for 0 |
| NumberWords.BucketWords | src/lib/utils.ts:19-27 | 10..19 is one teens word; 20..99 is the tens word, plus a ones word exactly when the last digit is non-zero; 100..999 starts "<Digit> Hundred" and contains "and" exactly when n mod 100 is not 0 |
| NumberWords.BelowThousandJoins | src/lib/utils.ts:16-28 | the helper's string is the bucket's words joined by single spaces |
| NumberWords.Buckets | src/lib/utils.ts:33-36 | crore < 1000, lakh and thousand < 100, remainder < 1000, and crore 10^7 + lakh 10^5 + thousand 10^3 + remainder = n |
| NumberWords.AssembleJoins | src/lib/utils.ts:38-56 | the four conditional appends give the non-zero buckets' words with their scale words, in crore, lakh, thousand, remainder order, joined by single spaces |
| NumberWords.ConvertJoins | src/lib/utils.ts:30-57 | `convert` gives "Zero" for 0 and otherwise the bucket words joined by single spaces |
| NumberWords.Convert | src/lib/utils.ts:30-57 | the inner `convert`: "Zero" for 0, otherwise the crore, lakh, thousand and remainder buckets, each appended only when positive (no contract of its own; ConvertJoins and ConvertMeaning state what it gives) |
| NumberWords.TokensAreWords | src/lib/utils.ts:30-57 | every output word is non-empty and space-free, and none is "Zero" when n > 0 |
| NumberWords.EvalBuckets | src/lib/utils.ts:33-56 | reading the words of the four buckets back gives crore 10^7 + lakh 10^5 + thousand 10^3 + remainder |
| NumberWords.EvalTokens | src/lib/utils.ts:30-57 | reading the words of n back gives n |
| NumberWords.ConvertMeaning | src/lib/utils.ts:30-57 | the output splits into exactly the word view: non-empty, with no leading, trailing or doubled space, no "Zero" for n > 0, and it parses back to n |
| NumberWords.ConvertInjective | src/lib/utils.ts:30-57 | two numbers below 10^10 with the same words are equal |
| NumberWords.NumberToWords | src/lib/utils.ts:9-59 | inputs below 1 give "Zero"; from 1 on, the output is non-empty and has no "Zero"; the output always parses back to the floor of the input |
| NumberWords.ZeroExample | src/lib/utils.ts:10 | 0 is "Zero" |
| NumberWords.HundredExample | src/lib/utils.ts:27 | 100 is "One Hundred", with no "and" |
| NumberWords.LakhExample | src/lib/utils.ts:38-56 | 1234567 has the words Twelve Lakh Thirty Four Thousand Five Hundred and Sixty Seven |
| Surcharge.Rate | src/app/inhand-old/page.tsx:27-36 | the surcharge rate is 0 exactly up to 50 lakh, and 10%, 15%, 25% or 37% exactly in (50L, 1Cr], (1Cr, 2Cr], (2Cr, 5Cr] or above 5 crore |
| Surcharge.RateMonotone | src/app/inhand-new/page.tsx:31-40 | a higher income never falls in a lower surcharge tier |
| Surcharge.WithCess | src/app/inhand-old/page.tsx:38-41 | tax plus surcharge plus 4% cess is 1.04 (1 + rate) times the slab tax |
| Surcharge.WithCessMonotone | src/app/inhand-old/page.tsx:26-41 | surcharge and cess preserve the order of non-negative slab taxes across incomes |
| OldRegime.Tax | src/app/inhand-old/page.tsx:7-42 | the tax is non-negative, and zero exactly when taxable income is at most 5 lakh |
| OldRegime.SlabTaxIsMarginal | src/app/inhand-old/page.tsx:11-19 | the constants 12500 and 112500 are the accumulated slab tax: the slab tax equals 5%/20%/30% marginal rates over 2.5L/5L/10L |
| OldRegime.SlabTaxLipschitz | src/app/inhand-old/page.tsx:11-19 | the slab tax is non-decreasing and grows by at most 30% of any income increase, so it is continuous |
| OldRegime.SlabTax | src/app/inhand-old/page.tsx:11-19 | the slab tax is never negative, is 0 exactly up to the 2.5L exemption, and never exceeds 30% of the income above it |
| OldRegime.TaxMonotone | src/app/inhand-old/page.tsx:7-42 | a higher taxable income never gives a lower tax |
| OldRegime.RebateBoundary | src/app/inhand-old/page.tsx:21-24 | 5 lakh pays 0, and 5 lakh and one rupee pays 13000 |
| OldRegime.HraExemption | src/app/inhand-old/page.tsx:44-54 | at most each of actual HRA, rent less 10% of basic, and 50%/40% of basic, and equal to one of them; negative when rent is below 10% of basic |
| OldRegime.Deductions | src/app/inhand-old/page.tsx:76 | at most 185000 plus the uncapped standard deduction and HRA exemption; the plain sum when every declared amount is under its cap |
| OldRegime.Compute | src/app/inhand-old/page.tsx:69-86 | gross is the component sum; taxable is max(gross - deductions, 0); in-hand yearly is gross - tax and equals gross exactly when taxable is at most 5 lakh; monthly is yearly / 12 rounded |
| OldRegime.MoreDeductionNeverRaisesTax | src/app/inhand-old/page.tsx:76-82 | a larger 80C declaration never raises the tax |
| OldRegime.RaiseNeverLowersTax | src/app/inhand-old/page.tsx:70-82 | a larger special allowance never lowers the tax |
| NewRegime.Tax | src/app/inhand-new/page.tsx:7-46 | the tax is non-negative, and zero exactly when taxable income is at most 7 lakh |
| NewRegime.SlabTaxIsMarginal | src/app/inhand-new/page.tsx:11-23 | the constants 15000, 45000, 90000 and 150000 are the accumulated slab tax: the slab tax equals 5/10/15/20/30% marginal rates over 3L/6L/9L/12L/15L |
| NewRegime.SlabTaxLipschitz | src/app/inhand-new/page.tsx:11-23 | the slab tax is non-decreasing and grows by at most 30% of any income increase |
| NewRegime.SlabTax | src/app/inhand-new/page.tsx:11-23 | the slab tax is never negative, is 0 exactly up to the 3L exemption, and never exceeds 30% of the income above it |
| NewRegime.TaxMonotone | src/app/inhand-new/page.tsx:7-46 | a higher taxable income never gives a lower tax |
| NewRegime.RebateBoundary | src/app/inhand-new/page.tsx:25-28 | 7 lakh pays 0, and 7 lakh and one rupee pays 26000 |
| NewRegime.Compute | src/app/inhand-new/page.tsx:56-70 | the standard deduction is the only deduction; taxable is max(gross - it, 0); in-hand yearly is gross - tax and equals gross exactly when taxable is at most 7 lakh; monthly is yearly / 12 rounded |
| NewRegime.MoreDeductionNeverRaisesTax | src/app/inhand-new/page.tsx:60-66 | a larger standard deduction never raises the tax |
| NewRegime.RaiseNeverLowersTax | src/app/inhand-new/page.tsx:57-66 | a larger special allowance never lowers the tax |
| Sip.PointAt | src/app/sip/page.tsx:96-101 | a point after month m has invested C m, value sum_{k=1..m} C(1+i)^k, and returns their difference |
| Sip.Chart | src/app/sip/page.tsx:78-106 | empty when a guard input is not positive; otherwise the points after exactly the months that are multiples of 12 or the last |
| Sip.Calculate | src/app/sip/page.tsx:39-76 | zero and empty under the guard; otherwise invested = C 12 years, maturity = the sum of every instalment compounded, returns = their positive difference, and the chart |
| Sip.EmittedByYear | src/app/sip/page.tsx:95 | over whole years a point is emitted exactly at months 12, 24, ..., 12 years |
| Sip.ChartShape | src/app/sip/page.tsx:89-101 | a y-year plan has y points labelled 1..y, with invested C 12k at point k and the headline maturity at the last one |
| Sip.ChartIncreasing | src/app/sip/page.tsx:91-93 | at a positive rate every point is worth strictly more than the one before |
| StepUpSip.Calculate | src/app/stepup-sip/page.tsx:41-100 | zero and empty under the guard (0% step-up included); otherwise invested, maturity (each month's instalment compounded to the horizon), interest and chart are the specification functions, and the interest is positive |
| StepUpSip.YearMonths | src/app/stepup-sip/page.tsx:73-84 | one year's month loop: twelve instalments, and their value with the instalment of overall month k compounded totalMonths - k + 1 times |
| StepUpSip.Invested | src/app/stepup-sip/page.tsx:79-83 | the total paid in years 1..y: twelve times each year's instalment (no contract of its own; InvestedClosedForm gives its closed form) |
| StepUpSip.Maturity | src/app/stepup-sip/page.tsx:73-84 | the sum over years and months of each instalment compounded to the horizon (no contract of its own; MaturityExceedsInvested bounds it) |
| StepUpSip.Chart | src/app/stepup-sip/page.tsx:102-143 | empty under the guard; otherwise one row per year as specified by RowAt |
| StepUpSip.RowAt | src/app/stepup-sip/page.tsx:119-136 | a row's invested is the total of years 1..y; its monthly investment is year y's instalment before the step-up; its value is year y's twelve instalments as an annuity-due sum, grown over the 12(y-1) months before, (1+r)^(12(y-1)) * DueSum(C_y, r, 12); returns = value - invested |
| StepUpSip.ChartValueAsDueSum | src/app/stepup-sip/page.tsx:119-128 | the chart's value of k months after month f is (1+r)^f times the annuity-due sum of k months |
| StepUpSip.StepUp | src/app/stepup-sip/page.tsx:87 | each year's instalment is the previous one times (1 + step-up/100) |
| StepUpSip.InvestedClosedForm | src/app/stepup-sip/page.tsx:79-83 | total invested = 12 C (1 + g + ... + g^(years-1)) |
| StepUpSip.MonthsValueExceeds | src/app/stepup-sip/page.tsx:73-84 | at a positive rate a run of instalments is worth more than what was paid |
| StepUpSip.MaturityExceedsInvested | src/app/stepup-sip/page.tsx:90 | at a positive rate the maturity exceeds the total invested, so interest > 0 |
| Lumpsum.RowAt | src/app/lumpsum/page.tsx:82-90 | every row's invested is P and its returns are value - P |
| Lumpsum.Chart | src/app/lumpsum/page.tsx:72-94 | empty under the guard; otherwise one row per year with value P(1+r)^year |
| Lumpsum.Calculate | src/app/lumpsum/page.tsx:38-70 | zero and empty under the guard; otherwise invested = P, value = the FD value with annual compounding, positive returns, and the chart |
| Lumpsum.AnnualFd | src/app/lumpsum/page.tsx:59 | P(1+r)^t is the FD maturity with frequency 1 |
| Lumpsum.ChartShape | src/app/lumpsum/page.tsx:81-91 | the chart's values rise strictly and the last equals the headline value |
| Swp.Calculate | src/app/swp/page.tsx:43-103 | zero and empty under the guard; otherwise the withdrawal is fixed from the initial corpus, the total is it times 12 years, and the remaining corpus and interest are those after 12 × years months of the clamped monthly step |
| Swp.Chart | src/app/swp/page.tsx:105-152 | empty under the guard; otherwise one row per year as specified by RowAt |
| Swp.RowAt | src/app/swp/page.tsx:142-148 | `corpus` and `remainingCorpus` are both the corpus at the end of the year, and the year's withdrawal is 12 monthly withdrawals |
| Swp.MonthStep | src/app/swp/page.tsx:78-90 | one month adds interest on the running corpus, subtracts the withdrawal and clamps at zero |
| Swp.Next | src/app/swp/page.tsx:78-90 | one month: never negative; corpus + interest - withdrawal when that covers the withdrawal, 0 when it does not |
| Swp.CorpusAfter | src/app/swp/page.tsx:75-92 | the corpus after m months: Next applied m times from the initial corpus (no contract of its own; CorpusNonNegative and ZeroIsAbsorbing state its properties) |
| Swp.CorpusNonNegative | src/app/swp/page.tsx:88-90 | the corpus is never negative after a month |
| Swp.ZeroIsAbsorbing | src/app/swp/page.tsx:78-90 | an exhausted corpus stays at zero in every later month |
| Swp.InterestNonNegative | src/app/swp/page.tsx:78-79 | the interest credited is never negative |
| Swp.RowsWithdrawals | src/app/swp/page.tsx:118-148 | the yearly withdrawals add up to the headline total withdrawal |
| Swp.RowsInterest | src/app/swp/page.tsx:118-148 | the yearly interest adds up to the headline total interest |
| Swp.LastRowCorpus | src/app/swp/page.tsx:118-148 | the last row's corpus is the headline remaining corpus |
| Emi.RowAt | src/app/emi/page.tsx:40-45 | row k is month k with non-negative principal, interest and balance |
| Emi.Calculate | src/app/emi/page.tsx:19-48 | EMI by the formula, total = EMI n, interest = total - P, and the n-row breakdown of the running balance |
| Emi.Payment | src/app/emi/page.tsx:20-27 | the instalment: P/n at a zero rate, P r (1+r)^n / ((1+r)^n - 1) otherwise; positive for a positive loan (PaidOff proves it clears the loan in n months) |
| Emi.PaymentExceedsInterest | src/app/emi/page.tsx:26-27 | at a positive rate the instalment exceeds the first month's interest P r |
| Emi.BalanceClosedForm | src/app/emi/page.tsx:34-39 | the balance after k instalments is P(1+r)^k - EMI((1+r)^k - 1)/r, or P - EMI k at a zero rate |
| Emi.PaidOff | src/app/emi/page.tsx:20-39 | the formula's instalment leaves an unclamped balance of exactly 0 after n months, at zero and positive rates |
| Emi.PartsTelescope | src/app/emi/page.tsx:37-39 | the principal parts of m instalments add up to P less the balance, and with the interest parts to EMI m |
| Emi.RepaysLoan | src/app/emi/page.tsx:30-39 | the principal parts add up to the loan and the interest parts to the headline total interest |
| Emi.ZeroRate | src/app/emi/page.tsx:23-38 | at zero rate every row has interest 0 and principal P/n |
| Emi.PartGrows | src/app/emi/page.tsx:37-39 | each principal part is the previous one times (1 + r) |
| Emi.FirstPartPositive | src/app/emi/page.tsx:26-38 | for a positive loan the first instalment repays some principal |
| Emi.BalanceFalls | src/app/emi/page.tsx:37-39 | with positive principal parts the balance strictly falls month by month |
| Emi.NoClamping | src/app/emi/page.tsx:37-45 | for a positive loan at a non-negative rate the display clamps never fire: each row shows the exact parts and balance |
| Ppf.RowAt | src/app/ppf/page.tsx:99-104 | a row's invested is C year and its returns are value - invested |
| Ppf.Chart | src/app/ppf/page.tsx:78-108 | empty under the guard; otherwise one row per year, each value recomputed from scratch |
| Ppf.Calculate | src/app/ppf/page.tsx:39-76 | zero and empty under the guard; otherwise invested = C years, maturity = sum of C(1+r)^(t-year+1) = the annual annuity-due value, positive interest, and the chart |
| Ppf.DepositsAsDueSum | src/app/ppf/page.tsx:61-64 | the loop's partial sums are differences of annuity-due sums |
| Ppf.ValueIsAnnuityDue | src/app/ppf/page.tsx:94-97 | the year-y chart value is sum_{k=1..y} C(1+r)^k, so the last row is the headline maturity |
| Ppf.ChartIncreasing | src/app/ppf/page.tsx:95-97 | at a positive rate the chart's value rises strictly year on year |
| Epf.Share | src/app/epf/page.tsx:68-69 | a contribution is salary times percent / 100, positive when both are |
| Epf.YearCount | src/app/epf/page.tsx:107 | the row count is ceil(months / 12) |
| Epf.RowAt | src/app/epf/page.tsx:120-126 | a row's value is the compounded sum of the months elapsed by the end of that year, and returns = value - both contributions |
| Epf.RowContributions | src/app/epf/page.tsx:110-112 | each side's cumulative contribution is its monthly amount times the months elapsed |
| Epf.Chart | src/app/epf/page.tsx:94-130 | empty under the guard; otherwise one row per started year |
| Epf.Calculate | src/app/epf/page.tsx:43-92 | zero and empty under the guard; otherwise totals = monthly share times 12 years, maturity = the sum of the two streams' compounded instalments, positive interest, and the chart |
| Epf.CombinedMaturity | src/app/epf/page.tsx:77-81 | the combined annuity-due value is the sum of the two streams' values and exceeds what was paid in |
| Epf.LastRowIsHeadline | src/app/epf/page.tsx:107-126 | the last row's contributions are the headline totals and its value the headline maturity |
| Epf.WholeYears | src/app/epf/page.tsx:107-108 | with whole years there is one row per year, of 12 months each |
| Nps.RowAt | src/app/nps/page.tsx:93-103 | row y has invested 12 C y, value with exponent 12y, and returns = value - invested |
| Nps.Chart | src/app/nps/page.tsx:80-107 | empty under the guard; otherwise one row per year |
| Nps.Calculate | src/app/nps/page.tsx:39-78 | zero and empty under the guard; otherwise invested = C 12 years, maturity = the annuity-due value, positive interest, and the chart |
| Nps.ChartIncreasing | src/app/nps/page.tsx:94-96 | at a positive rate the chart's value rises strictly year on year |
| Nps.LastRowIsHeadline | src/app/nps/page.tsx:61-66 | the last chart row (year = years) shows the headline total invested, C 12 years, and the headline maturity, the annuity-due value of 12 years of contributions |
| Rd.RowAt | src/app/rd/page.tsx:93-103 | row m has invested deposit m, the compounded value of m deposits, and returns = value - invested |
| Rd.Chart | src/app/rd/page.tsx:80-107 | empty under the guard; otherwise one row per month |
| Rd.Calculate | src/app/rd/page.tsx:39-78 | the tenure is already in months; zero and empty under the guard; otherwise invested = deposit months, the annuity-due maturity, positive interest, and the chart |
| Rd.ChartIncreasing | src/app/rd/page.tsx:94-96 | at a positive rate the chart's value rises strictly month on month |
| Rd.LastRowIsHeadline | src/app/rd/page.tsx:61-66 | the last chart row (month = months) shows the headline total invested, deposit months, and the headline maturity, the annuity-due value of all deposits |
| Fd.Frequency | src/app/fd/page.tsx:56-59 | "monthly" gives 12, "quarterly" 4, anything else 1 |
| Fd.RowAt | src/app/fd/page.tsx:87-95 | every row's principal is P and its interest is value - P |
| Fd.Chart | src/app/fd/page.tsx:77-99 | empty under the guard; otherwise one row per year with value P(1 + r/n)^(n year) |
| Fd.Calculate | src/app/fd/page.tsx:38-75 | zero and empty under the guard; otherwise maturity = P(1 + r/n)^(n t), positive interest, and the chart |
| Fd.GrowthAboveOne | src/app/fd/page.tsx:65 | the growth factor exceeds 1 and rises strictly with the years |
| Fd.ChartShape | src/app/fd/page.tsx:86-95 | the chart's values rise strictly and the last equals the headline maturity |

## Left out

- Floating point: every amount is an exact real. `Math.pow` rounding, NaN, Infinity and overflow are not modelled.
- Presentation: JSX rendering, React state and effects, loading flags, pie data (a copy of the outputs), tooltips, currency and number formatting (`Intl.NumberFormat`), the slider widget, the input caps in the change handlers, analytics, static pages, configuration, and the `cn` class-name helper.
- Fractional periods: years and months are whole numbers. A fractional period would make the pages' loops and `Math.pow` exponents non-integral.
- Emi.Calculate: requires a rate of at least 0 and a tenure of at least one year, the minimums of the page's inputs. The page has no guard, and a tenure of 0 divides by zero.
- NumberWords.NumberToWords: requires 0 <= num < 10^10. A negative input returns "". JavaScript's `%` keeps the sign of the dividend and `Math.floor` rounds down, so every bucket of a negative number is 0 or less and nothing is appended. From 10^10 on, the crore bucket is 1000 or more, and the helper reads past the end of the `ones` table.
- NumberWords.LakhExample: the 1234567 example is stated on the word sequence. The string equality follows from `ConvertJoins`.
- StepUpSip.RowAt: the row value is kept as the code computes it: only the current year's twelve instalments, each grown from the start date. No lemma compares it with the maturity, since the two differ in general.
- Swp.Chart: the chart generator's running `totalWithdrawn` is never read, so it is not modelled.
