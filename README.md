# Loan calculator — a Dafny model

This project models a small loan calculator that runs as an Internet Computer canister. The calculator has five handlers. Each takes unsigned 64-bit integers and returns either a value or a text message:

- `calculateMonthlyPayment(amount, interestRate, durationMonths)`. The total payment is the principal plus simple interest. The rate is in basis points per month, and 10000 basis points make 100 percent: `amount + amount*interestRate*durationMonths / 10000`. The monthly payment is that total divided by the number of months. Both divisions truncate.
- `calculateDurationMonths(amount, interestRate, totalPayment)` computes `totalPayment*10000 / (amount*interestRate)`.
- `validateLoanAmount(amount)` rejects a zero amount.
- `validateInterestRate(interestRate)` rejects a rate above 10000 basis points.
- `calculateLoan(amount, interestRate, durationMonths)` returns a five-field `Loan` record. The record holds the three inputs, the monthly payment and the total payment.

The model is pure: one Dafny `function` per handler. They live in module `LoanCalculator` (`loan_calculator.dfy`). The `Result` datatype (`Ok(value)` / `Err(error: string)`) is in module `Results` (`results.dfy`).

Modelling decisions:

- Parameters have type `Nat64`, the naturals below 2^64. The intermediate products and the results are unbounded `nat`, as the handlers' `bigint` arithmetic is.
- No calculation handler tests for zero. A zero duration, or a zero `amount*interestRate`, makes the handler's division throw. The model therefore states these as `requires` clauses rather than `Err` results. Each calculation function promises `r.Ok?`, because the handlers never return `Err` from them.
- `amount <= 0` in `validateLoanAmount` can only mean `amount == 0` on an unsigned value. The `interestRate < 0` test in `validateInterestRate` is kept as written, but it never holds.
- The shared formula is defined once, as `TotalPayment`. `CalculateLoan` writes the formula out as calculateLoan does, and its contract ties the stored total to `TotalPayment`.
- The interest rate is per month, as the code computes it. `calculateLoan(100000, 500, 12)` therefore gives 100000·500·12 / 10000 = 60000 of interest, a total of 160000 and a monthly payment of 13333, which `WorkedExample` proves.

## Model

| member | source | states |
|---|---|---|
| LoanCalculator.TotalPayment | src/index.ts:17-18 | the total is the largest whole amount whose scaling by 10000 does not exceed principal·10000 + amount·rate·months (the interest is truncated, never rounded up) |
| LoanCalculator.CalculateMonthlyPayment | src/index.ts:12-22 | for a positive duration it always succeeds; monthly·months ≤ total < (monthly+1)·months, so the monthly payment is the truncated share of the total |
| LoanCalculator.CalculateDurationMonths | src/index.ts:24-31 | for a positive amount·rate it always succeeds; m·amount·rate ≤ total·10000 < (m+1)·amount·rate |
| LoanCalculator.ValidateLoanAmount | src/index.ts:32-37 | Err exactly when the amount is zero; the Err carries the "must be greater than zero" message and the Ok carries the "is valid" message |
| LoanCalculator.ValidateInterestRate | src/index.ts:39-44 | Err exactly when the rate exceeds 10000 basis points; each branch carries the source's message |
| LoanCalculator.CalculateLoan | src/index.ts:46-64 | for a positive duration it always succeeds; amount, rate and duration are copied unchanged; the stored total is the formula value and is at least the amount; the stored monthly payment brackets the total by truncating division |
| LoanCalculator.TotalAtLeastPrincipal | src/index.ts:50-51 | the total is never below the principal, and equals it when the rate or the duration is zero |
| LoanCalculator.TotalAtMostPrincipalPerMonth | src/index.ts:50-51 | at a rate of at most 10000 basis points, the total is at most amount·(months+1) |
| LoanCalculator.ScaledOwedClosedForm | src/index.ts:50-51 | simple interest accrued month by month (the principal, then the same interest on the principal each month), scaled by 10000, equals amount·10000 + amount·rate·months |
| LoanCalculator.TotalIsTruncatedAccrual | src/index.ts:17-18 | the handlers' total is that month-by-month accrual truncated once, at the end, to a whole unit |
| LoanCalculator.TotalMonotoneInRate | src/index.ts:50-51 | the total does not decrease when the rate goes up, with the other inputs fixed |
| LoanCalculator.TotalMonotoneInDuration | src/index.ts:50-51 | the total does not decrease when the duration goes up, with the other inputs fixed |
| LoanCalculator.MonthlyPaymentMonotoneInRate | src/index.ts:17-19 | the monthly payment does not decrease when the rate goes up, with the other inputs fixed |
| LoanCalculator.MonthlyPaymentCoversPrincipal | src/index.ts:17-19 | the monthly payment is at least amount/months, and equals it at a zero rate |
| LoanCalculator.LoanMonthlyPaymentConsistent | src/index.ts:50-52 | calculateLoan's monthly payment equals the value calculateMonthlyPayment returns for the same arguments |
| LoanCalculator.ValidatedLoanBounds | src/index.ts:32-52 | when the amount and the rate pass validation, amount ≤ total ≤ amount·(months+1) and amount/months ≤ monthly ≤ amount + amount/months |
| LoanCalculator.WorkedExample | src/index.ts:50-52 | calculateLoan(100000, 500, 12) gives a total of 160000 and a monthly payment of 13333; calculateMonthlyPayment agrees |
| LoanCalculator.ValidationExamples | src/index.ts:33-43 | amount 0 is rejected and 100 accepted; rate 10000 is accepted and 10001 rejected |
| LoanCalculator.DurationAsWrittenOverstates | src/index.ts:28 | given the total of a loan, calculateDurationMonths's formula never returns less than the loan's duration |
| LoanCalculator.DurationAsWrittenCounterexample | src/index.ts:28 | a 12-month loan of 100000 at 500 totals 160000, but calculateDurationMonths's formula returns 32 months for those figures |
| LoanCalculator.DurationFromTotal | src/index.ts:28 | corrected inversion: only the interest part of the total is used; m·amount·rate ≤ (total−amount)·10000 < (m+1)·amount·rate |
| LoanCalculator.DurationFromTotalInverts | src/index.ts:28 | given the total of a loan, the corrected formula never overstates the duration, and returns it exactly when amount·rate·months is a multiple of 10000 |
| LoanCalculator.DurationFromTotalExample | src/index.ts:28 | the corrected formula recovers 12 months from the figures of the worked example |

Arithmetic helpers without a row: `Quotient` (the truncating `bigint` `/` of src/index.ts:19, 28 and 52, specified by its quotient bracket), `DivisionBounds`, `MulMonotone`, `DivMonotone`, `LessAfterScaling`, `Distribute`, `DivAddMultiple` and `DivUnique`.

## Left out

- The Azle wiring: the `Canister`/`update` registration, the Candid type descriptors and the hosting runtime. They carry no logic.
- Serialising the results back to Candid `nat64`. The results and the `Loan` fields are unbounded `nat`, so a total of 2^64 or more, which would fail to encode, is not modelled.
- The runtime exception a division by zero raises. It is a trap, not a returned result, so the model excludes it with `requires` clauses.
- DurationFromTotal: it requires `totalPayment >= amount`. The corrected formula is only meant for totals the loan formula can produce, and calculateDurationMonths has no such case to follow.

## Findings

| source | as written | input that shows it | evidently intended | confidence | as-written member | corrected member |
|---|---|---|---|---|---|---|
| src/index.ts:28 | `totalPayment*10000 / (amount*interestRate)` divides the whole total, principal included, by the interest per month | amount 100000, rate 500, duration 12: the total is 160000, and the formula returns 32 months instead of 12 | `(totalPayment − amount)*10000 / (amount*interestRate)`, the inverse of the total formula for the duration | medium (the handler's name and parameters suggest an inverse of the total); not executed | LoanCalculator.DurationAsWrittenCounterexample | LoanCalculator.DurationFromTotalInverts |
