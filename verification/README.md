# Loan calculator: the amortization engine in Dafny

The loan calculator asks for the following through widgets:

- a loan amount, a down payment, an annual interest rate and a term in years;
- an optional ₹500/month insurance surcharge.

From these it computes:

- the principal, `max(loan − deposit, 0)`;
- the monthly rate;
- the number of monthly installments;
- the EMI (equal monthly installment), by the annuity formula, or `P / n` at a zero rate.

It adds the surcharge to the EMI when insurance is on. It then runs a month-by-month loop. Each month the loop:

- charges interest on the running balance;
- books the rest of the EMI as principal;
- lowers the balance by that amount, clamping it at 0;
- appends a row whose money columns are rounded to 2 places.

A summary panel shows the principal, the rounded EMI, and the rounded sums of the Interest and EMI columns. Every entry in those columns is already a whole number of hundredths, so in exact arithmetic the rounded sums are the exact column sums.

The project has three modules:

- `Rounding` (`rounding.dfy`) is Python's `round(x, 2)`: the nearest hundredth, with ties going to the even neighbour. It comes with the properties the rest relies on: error bound, monotonicity, whole rupees passing through, whole multiples of a rounded amount.
- `Amortization` (`amortization.dfy`) holds the arithmetic as functions:
  - the principal clamp, rate, term, power and EMI;
  - the carried balance `Balance(p, rate, emi, m)`;
  - the row a month emits (`MonthRow`), the table (`Schedule`) and the summary (`Summarize`).

  It also holds the lemmas about these:
  - the closed form of the annuity balance and its payoff at month `n`;
  - the zero-rate linear case;
  - the balance staying non-negative and non-increasing, and staying zero once paid;
  - the effect of insurance;
  - the summary reconciling with the table.
- `LoanApp` (`app.dfy`) is the script itself, in imperative form:
  - `BuildSchedule` is the `for month in range(1, n + 1)` loop. It updates `balance` in place and appends to `rows`, and is proved equal to `Schedule`.
  - `Calculate` is the straight-line calculation for one set of widget values, including `emi += 500`. It promises what the table and the summary show.

## Model

| member | source | states |
|---|---|---|
| Amortization.Principal | loan-calculator/app.py:23 | the principal is never negative, is at least loan − deposit, and is either 0 or exactly loan − deposit |
| Amortization.MonthlyRate | loan-calculator/app.py:24 | the monthly rate times 1200 is the annual percentage |
| Amortization.Term | loan-calculator/app.py:25 | the term is a whole number of years counted in months (a multiple of 12 whose twelfth is `years`) |
| Amortization.Pow | loan-calculator/app.py:30 | `(1 + r) ** n` as repeated multiplication; characterised by `PowAtLeastOne` and `PowMonotone` |
| Amortization.Emi | loan-calculator/app.py:27-30 | the EMI: `P / n` at rate 0, else the annuity formula; characterised by `EmiCoversInterest`, `EmiOfNothing`, `AnnuityPaidOff` and `ZeroRateBalance` |
| Amortization.EmiCoversInterest | loan-calculator/app.py:27-30 | the EMI is non-negative and covers the first month's interest `P·r`, strictly when `P > 0` and `r > 0`; at rate 0 `n` installments repay exactly `P` |
| Amortization.AnnuityExceedsInterest | loan-calculator/app.py:30 | the annuity payment `P·r·g/(g−1)` with `g > 1` is at least `P·r`, and more when `P > 0` |
| Amortization.EmiOfNothing | loan-calculator/app.py:27-30 | a zero principal has an EMI of 0 at every rate, in both branches of the formula |
| Amortization.PowAtLeastOne | loan-calculator/app.py:30 | `(1+r)**n` is at least 1, and above 1 for a positive rate and `n ≥ 1`, so the annuity denominator is never 0 |
| Amortization.PowMonotone | loan-calculator/app.py:30 | powers of a base ≥ 1 grow with the exponent |
| Amortization.NextBalance | loan-calculator/app.py:39-42 | one pass of the loop on the balance (interest, principal, subtraction, clamp at 0); characterised by `NextBalanceBelow` and `NextBalanceMonotone` |
| Amortization.NextBalanceBelow | loan-calculator/app.py:39-42 | a month whose EMI covers the interest on `P` never raises a balance between 0 and `P` |
| Amortization.NextBalanceMonotone | loan-calculator/app.py:39-42 | a smaller opening balance or a larger EMI never leaves a larger closing balance |
| Amortization.Balance | loan-calculator/app.py:36-42 | the balance carried out of month `m`, starting from `P`; characterised by `BalanceNonNegative`, `BalanceStaysZero`, `BalanceNonIncreasing`, `BalanceAntitone`, `AnnuityBalance` and `ZeroRateBalance` |
| Amortization.BalanceNonNegative | loan-calculator/app.py:41-42 | the carried balance is never negative, because the clamp catches every overshoot |
| Amortization.BalanceStaysZero | loan-calculator/app.py:39-42 | once the balance reaches 0 it stays 0 in every later month |
| Amortization.BalanceNonIncreasing | loan-calculator/app.py:39-42 | when the EMI covers `P·r`, the balance stays between 0 and `P` and never rises from one month to the next |
| Amortization.BalanceAntitone | loan-calculator/app.py:39-42 | the balance at a later month is at most the balance at an earlier one |
| Amortization.BalanceAntitoneInEmi | loan-calculator/app.py:32-42 | a larger EMI (such as one with the insurance fee) never leaves a larger balance at any month |
| Amortization.AnnuityBalance | loan-calculator/app.py:30-42 | with a positive rate and the annuity EMI, the balance after `m` months is `P·(gⁿ − gᵐ)/(gⁿ − 1)` with `g = 1 + r`; the clamp never fires before month `n` |
| Amortization.AnnuityPaidOff | loan-calculator/app.py:30-42 | with a positive rate the annuity EMI leaves a balance of exactly 0 after month `n` |
| Amortization.ZeroRateBalance | loan-calculator/app.py:27-42 | at rate 0 the EMI is `P/n` and the balance after `m` months is `P − m·EMI` |
| Amortization.LoopEmi | loan-calculator/app.py:27-33 | the EMI the loop works with, 500 higher when insurance is on; characterised by `LoopEmiCoversInterest`, `InsuranceRows` and `FinalBalanceZero` |
| Amortization.LoopEmiCoversInterest | loan-calculator/app.py:27-33 | the EMI the loop uses, with or without the fee, is at least the plain EMI, which is at least `P·r` |
| Amortization.FinalBalanceZero | loan-calculator/app.py:27-42 | with or without insurance, the balance carried out of month `n` is 0 |
| Amortization.MonthRow | loan-calculator/app.py:39-47 | the row one pass appends, built from the balance it opens with; characterised by `MonthRowZeroRate`, `MonthRowPaidOff`, `MonthRowWholeCents`, `MonthInterestBounded` and, via `RowAt`, `RowColumns` |
| Amortization.MonthRowZeroRate | loan-calculator/app.py:39-46 | at rate 0 a row's interest is 0 and its principal is the whole rounded EMI |
| Amortization.MonthRowPaidOff | loan-calculator/app.py:39-47 | a month opening with nothing owed shows 0 interest, principal equal to its EMI column, and a 0 balance |
| Amortization.MonthRowWholeCents | loan-calculator/app.py:43-47 | every money column of a row is a whole number of hundredths |
| Amortization.RowAt | loan-calculator/app.py:38-47 | the row of month `i + 1`, opened with the balance carried out of month `i`; characterised by `RowColumns`, `ScheduleShape` and `RowsAfterPayoff` |
| Amortization.Schedule | loan-calculator/app.py:37-47 | the first `k` rows of the table: exactly `k` rows, the `i`-th being month `i+1` opened with the balance carried out of month `i` |
| Amortization.RowColumns | loan-calculator/app.py:38-47 | in every row the rounded Interest and Principal columns add up to the rounded EMI column within 0.015 (three roundings of at most 0.005 each), where row `i` is month `i+1` and its interest and principal are taken from the balance carried into that month |
| Amortization.ScheduleShape | loan-calculator/app.py:38-47 | when the EMI covers `P·r` the table has `n` rows numbered 1..n, all showing the same EMI, with balances ≥ 0 that never rise |
| Amortization.LastRowPaidOff | loan-calculator/app.py:27-47 | the last row's Balance is 0, with or without insurance |
| Amortization.RowsAfterPayoff | loan-calculator/app.py:39-47 | once the balance is 0, every later row shows 0 interest, a principal equal to its EMI column, and a 0 balance |
| Amortization.ZeroRateRows | loan-calculator/app.py:27-57 | at rate 0, `n·EMI = P`, every row has 0 interest and the whole EMI as principal, and the interest column sums to 0 |
| Amortization.NothingOwedRows | loan-calculator/app.py:36-47 | a schedule that starts with nothing owed shows, in every row, the rounded EMI, 0 interest, principal equal to the EMI column and a 0 balance; its Interest column sums to 0 |
| Amortization.ZeroPrincipalRows | loan-calculator/app.py:23-47 | when the deposit covers the loan, the EMI is 0 and every row shows EMI and principal equal to the fee (500 with insurance, else 0), 0 interest and a 0 balance; Total Interest is 0 |
| Amortization.InsuredRow | loan-calculator/app.py:32-47 | in any row the fee raises the EMI column by exactly 500 and never raises the Balance column |
| Amortization.InsuranceRows | loan-calculator/app.py:32-47 | insurance raises every row's EMI by exactly 500 and lowers or keeps every balance; in month 1 the interest is unchanged and the principal rises by exactly 500 |
| Amortization.TotalInterest | loan-calculator/app.py:57 | `df["Interest"].sum()` as a recursive sum; characterised by `ColumnTotals`, `ScheduleTotals` and `ScheduleInterestExact` |
| Amortization.TotalPayment | loan-calculator/app.py:58 | `df["EMI"].sum()` as a recursive sum; characterised by `TotalPaymentConstant` and `ColumnTotals` |
| Amortization.Summarize | loan-calculator/app.py:55-58 | the summary panel; characterised by `SummaryReconciles` and `SummaryGuarantees` |
| Amortization.TotalPaymentConstant | loan-calculator/app.py:58 | an EMI column of `count` equal entries `e` sums to `count·e` |
| Amortization.ColumnTotals | loan-calculator/app.py:57-58 | if every row's interest is between 0 and its EMI, then the interest total is between 0 and the EMI total; an all-zero interest column sums to 0 |
| Amortization.MonthInterestBounded | loan-calculator/app.py:39-45 | a month opening with a balance in `[0, P]` shows interest between 0 and its EMI, when the EMI covers `P·r` |
| Amortization.RowInterestBounded | loan-calculator/app.py:39-45 | no row shows negative interest or interest above its EMI |
| Amortization.ScheduleTotals | loan-calculator/app.py:57-58 | the table's interest total is between 0 and its EMI total |
| Amortization.InterestColumnWholeCents | loan-calculator/app.py:57 | an Interest column in whole hundredths adds up to whole hundredths |
| Amortization.ScheduleInterestExact | loan-calculator/app.py:57 | the outer `round(·, 2)` of line 57 leaves the table's Interest total unchanged |
| Amortization.SummaryReconciles | loan-calculator/app.py:55-58 | the summary shows the principal, a Monthly EMI equal to every row's EMI, and a Total Payment of exactly `n` × Monthly EMI; Total Payment and Total Interest are exactly the sums of the EMI and Interest columns |
| Amortization.TableGuarantees | loan-calculator/app.py:23-47 | for any principal, rate ≥ 0, term and insurance choice, the table has `n` rows numbered 1..n, all with the same rounded EMI, with balances ≥ 0 that never rise and end at 0 |
| Amortization.SummaryGuarantees | loan-calculator/app.py:55-58 | the summary shows the principal; every row's EMI equals the Monthly EMI; Total Payment = `n` × Monthly EMI; Total Payment and Total Interest are exactly the column sums; 0 ≤ Total Interest ≤ Total Payment |
| Rounding.RoundHalfEven | loan-calculator/app.py:44-47 | `round(x)`, the nearest integer with ties to even; characterised by `RoundHalfEvenNearest` and `NearestEvenIsUnique` |
| Rounding.Round2 | loan-calculator/app.py:44-47 | `round(x, 2)`; characterised by `Round2Error`, `Round2Monotone`, `Round2AddRupees`, `Round2WholeCents` and `Round2OfWholeCents` |
| Rounding.RoundHalfEvenNearest | loan-calculator/app.py:44-47 | `round` returns an integer within ½ of its argument, and breaks a tie towards the even one |
| Rounding.NearestEvenIsUnique | loan-calculator/app.py:44-47 | only one integer meets both clauses of that contract, so it fully specifies `round` |
| Rounding.Round2Error | loan-calculator/app.py:44-47 | `round(x, 2)` is within 0.005 of `x` |
| Rounding.RoundHalfEvenMonotone | loan-calculator/app.py:44-47 | rounding preserves order |
| Rounding.RoundHalfEvenShift | loan-calculator/app.py:44-47 | shifting by an even integer commutes with rounding |
| Rounding.Round2Monotone | loan-calculator/app.py:47-58 | `round(·, 2)` preserves order |
| Rounding.Round2NonNegative | loan-calculator/app.py:47-57 | a non-negative amount never rounds to a negative one |
| Rounding.Round2AddRupees | loan-calculator/app.py:33-44 | adding whole rupees (the 500 fee) before rounding is adding them after |
| Rounding.RoundHalfEvenInt | loan-calculator/app.py:45 | an integer rounds to itself |
| Rounding.Round2OfMultiple | loan-calculator/app.py:58 | a whole multiple of a 2-place amount is unchanged by `round(·, 2)` |
| Rounding.Round2WholeCents | loan-calculator/app.py:44-47 | what `round(·, 2)` returns is a whole number of hundredths |
| Rounding.WholeCentsAdd | loan-calculator/app.py:57-58 | the sum of two amounts in whole hundredths is in whole hundredths |
| Rounding.Round2OfWholeCents | loan-calculator/app.py:57-58 | an amount already in whole hundredths is unchanged by `round(·, 2)` |
| LoanApp.BuildSchedule | loan-calculator/app.py:36-47 | the loop's rows are exactly `Schedule(P, r, EMI, n)`: `n` rows numbered 1..n; the invariants tie the in-place `balance` to `Balance` and the accumulated `rows` to `Schedule` month by month |
| LoanApp.Calculate | loan-calculator/app.py:14-58 | for widget values within their ranges: the rows are the schedule and the summary its summary; there are `years·12` rows numbered 1..n; every row's EMI is the summary's Monthly EMI; balances are ≥ 0, never rise and end at 0; principal ≥ 0 and ≥ loan − deposit; Total Payment = rows × Monthly EMI; Total Payment and Total Interest are exactly the EMI and Interest column sums; 0 ≤ Total Interest ≤ Total Payment |

## Left out

- The page, the widgets, the name and age inputs, the charts and the table display (loan-calculator/app.py:6-20, 51-54, 62-69). They are presentation only. The widget ranges at lines 14-17 become the preconditions of `LoanApp.Calculate`. The engine functions and lemmas accept any rate ≥ 0 and any term ≥ 1, so the zero-rate branch of lines 27-28 is modelled and proved even though the rate slider never reaches 0.
- The pandas DataFrame (line 48). The rows are a `seq<Row>`, and a column sum is a recursive function over it.
- Binary floating point. Every quantity is an exact `real`, and `**` is exact repeated multiplication.
- `round(x, 2)` on exact decimals. It is modelled as half-to-even rounding of the exact value. Python rounds the exact binary value of a float, so a tie in decimal is rarely a tie there.
- Numeric examples such as an EMI of about 9343.35 for 450000 at 9% over 5 years. They depend on float evaluation and are not stated.
- `int(P)` at line 55. Loan amount and deposit come from integer widgets, so `P` is already an integer. The summary carries it as an `int`.
- Input validation errors. The program raises none: out-of-range values cannot be entered through the widgets. So the model has no error path and states the ranges as preconditions of `Calculate`.
- The insurance fee is modelled as the code does it, not as a separate surcharge. It is added to the EMI before the loop (lines 32-33), so:
  - it is booked as principal repayment;
  - the balance reaches 0 no later than without insurance, and sometimes before month `n`;
  - once the balance is 0, every later row books its whole EMI column as principal against a zero balance.

  `InsuranceRows` states the effect on every month: +500 on every EMI, balances never higher, and in month 1 unchanged interest and +500 principal. `RowsAfterPayoff` states the rows after the balance reaches 0.
- Amortization.LastRowPaidOff: the zero final balance is proved in exact arithmetic. With binary floats, the program's last unrounded balance may be a small positive residue, which `round(·, 2)` usually, but not provably, shows as 0.00.
- Amortization.TableGuarantees: the final balance of 0 holds in exact arithmetic only, for the same reason.
- LoanApp.Calculate: the final balance of 0 holds in exact arithmetic only, for the same reason.
