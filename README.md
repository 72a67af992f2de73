# Loan calculator (kreditniKalkulator): the amortization engine in Dafny

The calculator repays a loan of `P` over `n` months at monthly rate `r`.
It prints a schedule in blocks of up to twelve months, one per calendar
year, and returns the total interest and the total principal paid. Two
functions of `script.py` do the work:

- `calculate_monthly_payment(P, r, n)` is the annuity formula. It returns
  `P / n` when the rate is zero, and `P·r·(1+r)^n / ((1+r)^n − 1)` otherwise.
- `generate_amortization_schedule(P, r, n, yearly_extra)` runs an outer loop
  of year blocks while months are left and a balance is owed. At the start
  of each block it re-computes the payment for the balance and the months
  then left. Each month of the block charges interest on the balance and
  takes the rest of the payment, capped at the balance, off it. After a block
  that leaves a balance and months to go, a yearly extra payment of at most
  the balance is made.

The project has two modules.

- `Annuity` (`annuity.dfy`) is the formula over exact rationals (`real`):
  - `Pow` is `(1+r)^n`.
  - `Accumulated` is the sum of `(1+r)^i` for `i < n`.
  - `Amortize` is a month-by-month reference: `k` level payments of `p` with
    no cap.

  The lemmas prove three things. The formula is the one and only level
  payment that clears the loan. Re-computing it after one scheduled month
  gives the same payment again. Only the last scheduled month clears the
  balance.
- `Schedule` (`schedule.dfy`) is the loop, as imperative Dafny.
  - `GenerateSchedule` is the outer `while` loop.
  - `PayYear` is the twelve-month `for` loop with its `break`.
  - The printed rows become a returned ledger: a sequence of `YearBlock`s,
    each holding its `MonthEntry`s and its yearly summary.
  - `ScheduleOf` states block by block and month by month which ledger the
    loops compute. The loop invariants (`BlockSoFar`, `LedgerSoFar`,
    `LevelSoFar`) carry what the calculator promises about it.

Money is `real`, so the model computes exactly what the formulas say; every
statement below holds in exact arithmetic.

The payment itself is never rounded; only the two returned totals are, and
that rounding is left out. The payment is re-computed once per twelve-month
block; `MonthOfSchedule` and `ReAmortize` show this equals re-computing it
every month, because a scheduled month without an extra payment leaves a
balance whose level payment is the same.

## Model

| member | source | states |
|---|---|---|
| Annuity.MonthlyPayment | script.py:5-9 | The payment grown over `n` months equals the loan grown over `n` months (`pmt·Σ(1+r)^i = P·(1+r)^n`). For a non-negative loan the payment lies between one month's interest `P·r` and `P·(1+r)`. |
| Annuity.ZeroRatePayment | script.py:7-8 | At rate zero, `n` payments repay exactly `P`, so the payment is `P / n`. |
| Annuity.OneMonthPayment | script.py:9 | A one-month loan costs a single payment of `P·(1+r)`. |
| Annuity.AccumulatedFacts | script.py:9 | The geometric series: `r·Σ(1+r)^i = (1+r)^n − 1`, so the formula's denominator is positive for `r > 0`. The sum is `n` at rate zero and at least `n` otherwise. |
| Annuity.AmortizeClosedForm | script.py:36-38 | After `k` uncapped months of paying `p`, the balance is `B·(1+r)^k − p·Σ(1+r)^i`. |
| Annuity.LevelPaymentUnique | script.py:9 | Any payment solving the annuity equation clears the loan in `n` months, and no other payment does. |
| Annuity.LevelPaymentClearsLoan | script.py:9 | `n` level payments of `p` leave exactly zero if and only if `p` is the payment `MonthlyPayment` computes. |
| Annuity.ReAmortize | script.py:20-22 | Re-computing the payment after one scheduled month, for the new balance and one month fewer, gives the same payment. |
| Annuity.LevelPaymentCarriesOver | script.py:20-22 | A payment solving the annuity equation for a balance still solves it a month later, for the new balance and one month fewer. |
| Annuity.PaymentKeepsBalancePositive | script.py:36-38 | A positive loan has a positive payment. One scheduled month with two or more months to go leaves a positive balance. |
| Schedule.Min | script.py:37 | Python's `min`: the result is one of the two arguments and no larger than either. |
| Schedule.MonthOfSchedule | script.py:36-38 | When the payment due is paid, the month interest is balance × rate. The payment covers it. The cap at the balance never cuts the principal short. The balance left is the uncapped step and never negative. The same payment is due on it next month, and the last month leaves exactly zero. |
| Schedule.YearExtra | script.py:50-52 | A non-zero extra payment is made only when the block leaves a balance and months to go. It is non-negative when the yearly amount is. It never takes the balance below zero. |
| Schedule.PaidTotal | script.py:40-43 | The interest and principal of a block's months add up to one payment per month. |
| Schedule.BlockStep | script.py:33-47 | One pass of the twelve-month loop keeps its invariant: one scheduled month is appended, the counter goes up by one, the year's sums grow by that month's parts, and the year's principal is what the block took off the balance. |
| Schedule.PayYear | script.py:29-47 | The twelve-month loop prints at most 12 months, numbered on from the counter. Each is a scheduled month paying the block's payment. It stops after 12 months, at the end of the term, or when the balance is gone. The year's sums are its months' sums and the running totals grow by them. |
| Schedule.YearOfBlock | script.py:32-54 | The block the inner loop prints, with the extra payment after it, is the block `YearOf` describes. |
| Schedule.YearStep | script.py:20-54 | One pass of the outer loop keeps its invariant. The blocks are the ledger so far, and every printed month is scheduled. Total principal plus balance is `P`. The totals add up the yearly sums. The balance is not negative, and the counter is at most `n + 1`. |
| Schedule.LevelStep | script.py:22 | Without extra payments, every block re-computes the payment first computed for the whole loan. The totals grow by one such payment per month. |
| Schedule.LevelDone | script.py:66 | A level ledger that ran to its end cost `n` payments, so its interest is `n` payments less `P`. |
| Schedule.RepeatTimes | script.py:40-41 | `k` payments of `p` added one at a time come to `k·p`. |
| Schedule.LedgerDone | script.py:20 | When the outer loop stops, the blocks are the whole ledger. There are none exactly when `n < 1` or `P ≤ 0`. Otherwise the balance is zero, total principal is `P`, and without extra payments the counter has reached `n + 1`. |
| Schedule.YearsWithinTerm | script.py:20 | Every block starts within the term. |
| Schedule.MonthsWithinTerm | script.py:33-34 | A block's months never run past month `n`. |
| Schedule.OneMonthSchedule | test_calculations.py:70-72 | A one-month loan is one block of one month. Its interest is `P·r`, its principal and total principal are `P`, it leaves zero, and no extra payment is made. |
| Schedule.GenerateSchedule | script.py:12-66 | The loops compute `ScheduleOf` and terminate. Every month is a scheduled month, so the payment covers its interest and the balance never goes negative. Every block holds at most 12 months and the payment is always computed for at least one month. The totals are the sums of the yearly summaries. The loan is repaid exactly (total principal `P`, last balance zero), and with no loan or term nothing is printed. At rate zero no interest is charged. Without extra payments the ledger runs the full `n` months, every month pays `MonthlyPayment(P, r, n)`, and the total interest is `n` such payments less `P`. |

## Left out

- `get_input` and `main` (script.py:69-128): prompts, command-line parsing and the final report are input and output only.
- The `print` calls inside the schedule: the printed rows and yearly summaries are returned as the ledger instead.
- `round(total, 2)` on the returned totals, and IEEE-754 floating point in general: money is exact `real`, so the totals are those before rounding.
- `current_year`: a label that only appears in the printed headings.
- Negative rates: `MonthlyPayment` and `GenerateSchedule` require `r ≥ 0`. The calculator accepts any rate, but with a negative one the formula can divide by zero and the bounds above do not hold.
- Schedule.PayYear: the inner `for` loop is its own method. Its locals (`remaining`, `month_num`, the year's sums and the running totals) are passed in and returned, not shared with the outer loop.
- Schedule.GenerateSchedule: the level-payment promise is stated as "every month pays `MonthlyPayment(P, r, n)`" and as the interest total. It is not stated as an equality with `Amortize` at every month, although each month is the uncapped step and its opening balance is the previous month's closing balance.
- `test_calculations.py` imports `calculate_interest_payment` and `process_yearly_payments`, which `script.py` does not define. Only the one-month edge case (lines 70-72) is reflected, in `OneMonthSchedule`. The numeric expectations rely on float rounding to cents and are not modelled.
