# Loan closer: amortization engine and extra-payment dialog

This project models the core of an Angular loan calculator in Dafny and proves
properties of the model.

- **The amortization engine.** `LoanService.calculateLoan` takes a principal,
  an annual rate and a tenure. It works out the monthly installment (EMI): the
  annuity formula when the rate is non-zero, `P / n` at rate zero, rounded to
  cents. It then builds an n-row schedule month by month, with due dates. Every
  figure is rounded to cents, the last installment pays off whatever is left,
  and closing balances are clamped at zero. Finally it rounds the total
  interest and the total payable.
- **The older calculator screen.** `LoanCalculatorComponent` has its own copy
  of the same loop (without due dates). Its input fields are numbers or null,
  its result fields are filled in place, and it reads the principal from a text
  box.
- **The extra-payment dialog.** `ExtraPaymentInputDialogComponent` turns a
  payment date into the index of the installment it falls after
  (`monthsFromStart`), and turns such an index back into a date
  (`addMonthsToDate`, which has JavaScript `setMonth` roll-over). Its
  `ngOnChanges`, `onInput`, `onApply`, `onClear` and `onClose` handlers update
  the amount, the text shown and the payment date, and emit events.

Modules and files:

| file | module | what it holds |
|---|---|---|
| money.dfy | Money | `Round2` (`Math.round(x * 100) / 100`), cents, the integer power |
| js_values.dfy | JsValues | `number \| null` values, `Number(x) \|\| 0`, `replace(/,/g, '')`, `parseInt(s, 10)` |
| dates.dfy | Dates | calendar dates, `addMonthsToDate`, `monthsFromStart` |
| amortization.dfy | Amortization | normalisation, the EMI, the row-by-row schedule as a specification, its lemmas |
| loan_data.dfy | LoanData | the record types of `loan-data.model.ts` |
| loan_service.dfy | LoanService | `calculateLoan` as a method with its loop, `LoanResult` as its specification, the schedule lemmas |
| loan_calculator.dfy | LoanCalculator | the `LoanCalculatorComponent` class |
| extra_payment_dialog.dfy | ExtraPaymentDialog | the dialog class, its event log, the date/index round trip |

Modelling choices:

- Numbers are exact reals, and `Math.pow(1 + r, n)` is an integer power.
- `Round2(x) = floor(x * 100 + 1/2) / 100`. This is JavaScript `Math.round`:
  halves go toward +infinity.
- A `number | null` field is `Num = Null | NaN | Of(v)`.
- Dates are `(year, month, day)` triples restricted to real calendar dates.
- `new Date()` is passed in as `today`.
- `toLocaleString` is a function-valued constant of each class.
- The events emitted through `apply` and `closed` are appended to a log
  (`events`).
- `LoanService.CalculateLoan` and `LoanCalculatorComponent.Calculate` are each
  proved equal to a functional specification built from `Amortization.Entries`.
  The schedule lemmas are stated about that specification.
  `CalculatorAgreesWithService` shows that the two copies of the engine compute
  the same numbers.

## Model

| member | source | states |
|---|---|---|
| Money.Round2 | src/app/services/loan.service.ts:77 | no contract of its own: `Math.round(x * 100) / 100` on exact reals; specified by Money.Round2Error, Money.Round2IsCents and Money.Round2Idempotent |
| Money.Round2Error | src/app/services/loan.service.ts:77 | two-decimal rounding moves an amount by at most half a cent; a move of a full half cent is always upward, at an exact half |
| Money.Round2IsCents | src/app/services/loan.service.ts:91-104 | every rounded figure is a whole number of cents |
| Money.Round2Idempotent | src/app/services/loan.service.ts:98-104 | rounding an already rounded amount changes nothing, so a row's closing can be the next row's opening |
| JsValues.Coerce | src/app/services/loan.service.ts:44-45 | `Number(x) \|\| 0` in terms of truthiness: the result is non-zero exactly when x is truthy, and then it is x's value |
| JsValues.StripCommas | src/app/loan-calculator/loan-calculator.component.ts:110 | the result holds no comma, and every other character occurs exactly as often as in the input |
| JsValues.StripCommasAppend | src/app/loan-calculator/loan-calculator.component.ts:110 | stripping commas distributes over concatenation |
| JsValues.ParseInt | src/app/loan-calculator/loan-calculator.component.ts:115-116 | no contract of its own: `parseInt(s, 10)`; specified by JsValues.ParseIntNaN and JsValues.ParseIntShowInt |
| JsValues.ParseIntNaN | src/app/loan-calculator/loan-calculator.component.ts:115-116 | parseInt yields NaN exactly when no digit follows the leading white space and the optional sign |
| JsValues.ParseIntShowInt | src/app/loan-calculator/loan-calculator.component.ts:115 | parseInt reads back the decimal rendering of any integer, negatives included, whatever non-digit text follows |
| JsValues.DisplayReadsBack | src/app/loan-calculator/loan-calculator.component.ts:110-118 | a formatted number whose commas are only digit grouping, once stripped and parsed, gives back the number |
| Dates.AddMonths | src/app/loan-calculator/extra-payment-input-dialog/extra-payment-input-dialog.component.ts:14-18 | moving by k months keeps the day when the target month has it; otherwise the day rolls into the following month, with the target month's length subtracted |
| Dates.AddMonthsEarlyDay | src/app/loan-calculator/extra-payment-input-dialog/extra-payment-input-dialog.component.ts:14-18 | a day of the month of at most 28 is kept, and the month index moves by exactly k |
| Dates.AddMonthsRollOver | src/app/loan-calculator/extra-payment-input-dialog/extra-payment-input-dialog.component.ts:14-27 | 31 January 2025 plus one month is 3 March 2025, which is two months from the start |
| Dates.MonthsFromStart | src/app/loan-calculator/extra-payment-input-dialog/extra-payment-input-dialog.component.ts:21-27 | no contract of its own: `monthsFromStart`; specified by Dates.MonthsFromStartSpec and Dates.MonthsFromStartAddMonths |
| Dates.MonthsFromStartSpec | src/app/loan-calculator/extra-payment-input-dialog/extra-payment-input-dialog.component.ts:21-27 | the result is 0 when the payment is not after the start, and otherwise the difference of the calendar-month indices, which is never negative, so the `Math.max` never matters |
| Dates.MonthsFromStartAddMonths | src/app/loan-calculator/extra-payment-input-dialog/extra-payment-input-dialog.component.ts:14-27 | for a start day of at most 28 and k >= 0, the months from the start to the start plus k months is k |
| Amortization.Normalise | src/app/services/loan.service.ts:44-54 | no contract of its own: the single normalisation step of principal, rate and tenure; specified by JsValues.Coerce and Amortization.TenureMonths |
| Amortization.MonthlyRate | src/app/services/loan.service.ts:56 | no contract of its own: `annualRate / 100 / 12`; used by LoanService.LoanResultEmi and LoanService.LoanResultInterestFree |
| Amortization.TenureMonths | src/app/services/loan.service.ts:48-54 | a truthy `tenureMonths` wins, else a truthy `tenureYears` times 12; there are 0 months exactly when both are falsy |
| Amortization.OutstandingClosedForm | src/app/services/loan.service.ts:69-74 | after k exact payments the balance times r equals `P r f^k - e (f^k - 1)` |
| Amortization.AnnuitySolves | src/app/services/loan.service.ts:72-73 | any payment that solves the annuity equation leaves nothing owed after n months |
| Amortization.ExactEmiAmortizes | src/app/services/loan.service.ts:69-74 | the unrounded EMI (the annuity formula, or P/n at rate zero) pays the loan off in exactly n months |
| Amortization.ExactEmi | src/app/services/loan.service.ts:69-74 | no contract of its own: the unrounded EMI; specified by Amortization.ExactEmiAmortizes |
| Amortization.Emi | src/app/services/loan.service.ts:69-77 | no contract of its own: the EMI rounded to cents; specified by LoanService.LoanResultEmi |
| Amortization.TotalPayable | src/app/services/loan.service.ts:117 | no contract of its own: `Math.round(emi * n * 100) / 100`; specified by Amortization.TotalPayableError and LoanService.LoanResultTotals |
| Amortization.TotalPayableError | src/app/services/loan.service.ts:117 | the rounded total payable is within half a cent of n times the EMI |
| Amortization.Installment | src/app/services/loan.service.ts:91-109 | no contract of its own: one pass of the loop body; specified by Amortization.InstallmentCents and Amortization.EntriesExactClosing |
| Amortization.Entries | src/app/services/loan.service.ts:86-114 | no contract of its own: the rows of the loop from installment i on; specified by Amortization.EntriesShape and the other Entries lemmas, and equal to what the loops build (LoanService.BuildSchedule, LoanCalculator.LoanCalculatorComponent.FillSchedule) |
| Amortization.InstallmentCents | src/app/services/loan.service.ts:91-104 | every figure of a row is a whole number of cents, and the closing is never negative |
| Amortization.EntriesShape | src/app/services/loan.service.ts:86-114 | the rows from installment i are n + 1 - i rows numbered from i, each carrying the EMI, with non-negative closings chained to the next opening; the first opening is the rounded balance and the last closing is 0 |
| Amortization.EntriesWellFormed | src/app/services/loan.service.ts:86-114 | an n-month schedule has n rows and is well formed, and its first opening is the rounded principal |
| Amortization.EntriesExactClosing | src/app/services/loan.service.ts:93-104 | from a whole number of cents, each row's closing is exactly its opening less its principal, clamped at 0 |
| Amortization.EntriesInterestFree | src/app/services/loan.service.ts:91-97 | at rate zero no row carries interest, and every row but the last repays exactly the EMI |
| Amortization.EntriesRepayPrincipal | src/app/services/loan.service.ts:93-99 | from a whole number of cents, with no closing clamped, the principal column adds up to the starting balance |
| LoanService.LoanResult | src/app/services/loan.service.ts:43-120 | no contract of its own: the result calculateLoan returns, as a function; LoanService.CalculateLoan is proved equal to it and the LoanResult lemmas state its properties |
| LoanService.StartDate | src/app/services/loan.service.ts:83 | no contract of its own: the given start date, else today; specified by LoanService.LoanResultSchedule, whose due dates count from it |
| LoanService.DueDate | src/app/services/loan.service.ts:83-89 | no contract of its own: the k-th due date, k one-month `setMonth` steps after the start; specified by LoanService.DueDateNoDrift |
| Amortization.OneCentPrincipalColumn | src/app/services/loan.service.ts:91-99 | as written: with an EMI of one cent at rate 0, m cents over installments i..n give a principal column of max(n - i, m) cents, more than the balance whenever the rows before the last outnumber the cents |
| Amortization.PrincipalColumnOverstates | src/app/services/loan.service.ts:93-99 | as written: P = 0.05 over 10 months at rate 0 has EMI 0.01, and the principal column adds up to 0.09, four cents over |
| Amortization.CappedInstallment | src/app/services/loan.service.ts:91-109 | corrected loop body: a row before the last repays at most the rounded balance; specified by Amortization.CappedEntriesRepayPrincipal |
| Amortization.CappedEntries | src/app/services/loan.service.ts:86-114 | no contract of its own: the schedule of capped rows; specified by Amortization.CappedEntriesRepayPrincipal |
| Amortization.CappedEntriesRepayPrincipal | src/app/services/loan.service.ts:93-99 | with the cap, the principal column adds up to any non-negative starting balance in whole cents, for every EMI and rate |
| LoanService.CalculateLoan | src/app/services/loan.service.ts:43-120 | the result is `LoanResult(input, today)`, and is the zeroed result for a non-positive principal or month count |
| LoanService.BuildSchedule | src/app/services/loan.service.ts:79-114 | the loop pushes exactly the specified rows, each due one more month after the start, and sums their interest |
| LoanService.LoanResultSchedule | src/app/services/loan.service.ts:86-111 | n rows numbered 1..n, each carrying the EMI and its due date, with non-negative closings chained to the next opening; the first opening is Round2(P) and the last closing is 0 |
| LoanService.LoanResultEmi | src/app/services/loan.service.ts:69-77 | the EMI is Round2(P/n) at rate zero, and Round2(P r f / (f - 1)) with f = (1 + r)^n otherwise; unrounded, it pays the loan off in n months |
| LoanService.LoanResultTotals | src/app/services/loan.service.ts:116-117 | the total interest is the rounded sum of the schedule's interest column, and the total payable is Round2(emi times the row count) |
| LoanService.ScheduledTotals | src/app/services/loan.service.ts:112-117 | the same for any EMI, plus: the total payable is within half a cent of emi * n |
| LoanService.LoanResultExactClosing | src/app/services/loan.service.ts:93-104 | with a principal in whole cents, every row has closing = max(0, opening - principal) |
| LoanService.LoanResultRepaysPrincipal | src/app/services/loan.service.ts:93-99 | with a principal in whole cents and no closing clamped, the principal column adds up to P |
| LoanService.LoanResultInterestFree | src/app/services/loan.service.ts:69-97 | at rate zero the EMI is Round2(P/n), no row carries interest, and all rows but the last repay the EMI |
| LoanService.DueDateNoDrift | src/app/services/loan.service.ts:84-89 | with a start day of at most 28, the k-th due date is exactly k months after the start |
| LoanCalculator.LoanCalculatorComponent.constructor | src/app/loan-calculator/loan-calculator.component.ts:13-29 | the initial field values: null inputs, empty text, zero results, empty schedule |
| LoanCalculator.LoanCalculatorComponent.Calculate | src/app/loan-calculator/loan-calculator.component.ts:31-85 | the inputs are unchanged; the results are cleared for a degenerate loan; otherwise the results are the EMI, the full rebuilt schedule, and the rounded totals of the current inputs |
| LoanCalculator.LoanCalculatorComponent.FillSchedule | src/app/loan-calculator/loan-calculator.component.ts:55-81 | the old schedule is discarded, the new one is exactly the specified rows for the current EMI, and the returned sum is their interest |
| LoanCalculator.LoanCalculatorComponent.ResetResults | src/app/loan-calculator/loan-calculator.component.ts:87-92 | the results are zero with an empty schedule, and the inputs are untouched |
| LoanCalculator.LoanCalculatorComponent.ResetAll | src/app/loan-calculator/loan-calculator.component.ts:94-100 | the four numeric inputs become null, the results are cleared, and the principal text is untouched |
| LoanCalculator.LoanCalculatorComponent.OnPrincipalChange | src/app/loan-calculator/loan-calculator.component.ts:109-121 | after comma stripping: empty text clears the principal and its text; a parseInt result (negatives too) becomes the principal and is shown formatted; NaN changes nothing; no other field moves |
| LoanCalculator.ShownScheduleWellFormed | src/app/loan-calculator/loan-calculator.component.ts:59-84 | after calculate, the schedule has n rows numbered 1..n with the EMI, closings are chained and non-negative, and the last closing is 0 |
| LoanCalculator.CalculatorAgreesWithService | src/app/loan-calculator/loan-calculator.component.ts:31-85 | after calculate, the component's EMI, totals and schedule equal calculateLoan's for the same inputs, due dates aside |
| ExtraPaymentDialog.StartOr | src/app/loan-calculator/extra-payment-input-dialog/extra-payment-input-dialog.component.ts:94 | no contract of its own: `startDate \|\| today`; specified by ExtraPaymentDialog.ExtraPaymentInputDialog.MinPaymentDate and ExtraPaymentDialog.AtMonth |
| ExtraPaymentDialog.AtMonth | src/app/loan-calculator/extra-payment-input-dialog/extra-payment-input-dialog.component.ts:94-96 | the reported index is never negative; it is 0 without a payment date or for a date not after the start, and otherwise the month-index difference from the start (or today) |
| ExtraPaymentDialog.OpeningDate | src/app/loan-calculator/extra-payment-input-dialog/extra-payment-input-dialog.component.ts:68-75 | no contract of its own: the date the dialog opens with; specified by ExtraPaymentDialog.ExtraPaymentInputDialog.OnChanges and ExtraPaymentDialog.ReopenRoundTrip |
| ExtraPaymentDialog.ReopenRoundTrip | src/app/loan-calculator/extra-payment-input-dialog/extra-payment-input-dialog.component.ts:68-96 | a dialog opened at installment k >= 0, for a start day of at most 28 and no given date, reports k again when applied |
| ExtraPaymentDialog.ReopenRoundTripRollOver | src/app/loan-calculator/extra-payment-input-dialog/extra-payment-input-dialog.component.ts:68-96 | from a start on 31 January 2025, installment 1 comes back as 2 |
| ExtraPaymentDialog.ExtraPaymentInputDialog.constructor | src/app/loan-calculator/extra-payment-input-dialog/extra-payment-input-dialog.component.ts:37-51 | the initial input and state values, and an empty event log |
| ExtraPaymentDialog.ExtraPaymentInputDialog.MinPaymentDate | src/app/loan-calculator/extra-payment-input-dialog/extra-payment-input-dialog.component.ts:53-55 | a payment on the minimum date counts as made at the loan start (index 0), and every date that counts as after the start lies after it |
| ExtraPaymentDialog.ExtraPaymentInputDialog.HasValue | src/app/loan-calculator/extra-payment-input-dialog/extra-payment-input-dialog.component.ts:57-59 | no contract of its own: `get hasValue`; its value after each handler is stated by OnChanges, OnInput and OnClear |
| ExtraPaymentDialog.ExtraPaymentInputDialog.OnChanges | src/app/loan-calculator/extra-payment-input-dialog/extra-payment-input-dialog.component.ts:61-77 | nothing changes unless visible became true. When it did: the amount is the initial one if positive, else null, and hasValue holds exactly then; the text is the initial text, else the formatted amount, else empty; the date is the given one, else start + atMonth months (the start itself when atMonth is 0), else today |
| ExtraPaymentDialog.ExtraPaymentInputDialog.OnInput | src/app/loan-calculator/extra-payment-input-dialog/extra-payment-input-dialog.component.ts:79-91 | empty text clears; a non-negative parse becomes the amount and is shown formatted, with hasValue exactly when it is positive; NaN or a negative value changes nothing |
| ExtraPaymentDialog.ExtraPaymentInputDialog.OnApply | src/app/loan-calculator/extra-payment-input-dialog/extra-payment-input-dialog.component.ts:93-99 | appends an apply event with the amount, the AtMonth index and the date, then a close event; the state is kept |
| ExtraPaymentDialog.ExtraPaymentInputDialog.OnClear | src/app/loan-calculator/extra-payment-input-dialog/extra-payment-input-dialog.component.ts:101-107 | the amount becomes null (so hasValue fails), the text is empty, and the date becomes the minimum date; emits `{null, 0, null}` then close |
| ExtraPaymentDialog.ExtraPaymentInputDialog.OnClose | src/app/loan-calculator/extra-payment-input-dialog/extra-payment-input-dialog.component.ts:109-111 | appends only a close event |
| ExtraPaymentDialog.OpenThenApply | src/app/loan-calculator/extra-payment-input-dialog/extra-payment-input-dialog.component.ts:61-99 | opening the dialog at installment k and applying it unchanged emits an apply event with atMonth k, followed by close |

## Left out

- The localStorage methods `loadData`, `saveData` and `clearData` (loan.service.ts lines 15-41): they are browser storage I/O, with JSON parsing and logging.
- IEEE-754 floating point: all arithmetic is exact. Ties where the float value of `x * 100` differs from the exact one, and the inexactness of `Math.pow`, are not modelled, nor is `1 + r` rounding to exactly 1 for a tiny non-zero rate, which makes `factor - 1` zero at loan.service.ts line 73.
- LoanService.CalculateLoan: requires a whole number of months and a defined annuity formula (`Supported`). When n is fractional the last-row override `i === n` never fires. In exact arithmetic the formula divides by zero only for a rate of exactly -2400 % a year with an even n. In doubles it also does so whenever `1 + r` rounds to 1 (a non-zero rate below about 1e-13 % a year), giving an infinite EMI; the IEEE-754 line covers this. Degenerate inputs are handled for every value.
- LoanCalculator.LoanCalculatorComponent.Calculate: the same `Supported` requirement as the service.
- Time zones: due dates assume a zero UTC offset. `new Date('YYYY-MM-DD')` is parsed as UTC, but `setMonth` works in local time, so at another offset the local and UTC dates can differ. In the dialog, the dates are read at local noon, and `addMonthsToDate` returns the UTC date of that noon. That is the intended date only for a UTC offset above -12 h and at most +12 h. The dialog model assumes such an offset. At +13 h (New Zealand daylight time, Samoa, Tonga), +14 h (Kiribati), +12:45 (Chatham) or -12 h, a shifted date lands a day off. So `ExtraPaymentDialog.ReopenRoundTrip` and `ExtraPaymentDialog.OpenThenApply` hold only under that assumption: in Auckland in summer, one month after 1 January 2025 comes out as 31 January, which reports installment 0.
- Date strings: a `YYYY-MM-DD` string is modelled by the date it denotes, and an absent or empty one by None. Invalid date strings and `Invalid Date` are not modelled.
- The calendar: the month roll-over of `setMonth` follows the code (31 January plus one month is 3 March), not a clamp to the month's last day.
- Locale formatting: `toLocaleString('en-IN')`, `formatMoney` (loan-calculator.component.ts lines 102-107) and the currency pipe are foreign locale code. Their output is an uninterpreted function-valued constant of each class.
- parseInt: values beyond 2^53 lose precision in JavaScript but are exact here. Leading-zero and radix-prefix quirks beyond base 10 are not modelled.
- `initialAtMonth`: a fractional value is not modelled. It is an integer or null/undefined (None).
- The reduce-EMI and reduce-tenure comparison: only its types (`LoanData.ExtraPaymentComparison`, and `LoanData.ExtraPaymentStrategy` for `'reduce-emi' | 'reduce-tenure' | null`) are modelled. No computation of it is part of this model.
- Angular plumbing: `@Input`/`@Output` decorators, `visible` as a template binding, `SimpleChanges` (reduced to the new value of `visible`), `onOverlayClick` and `onContentClick`, the theme service and the presentational components.

## Findings

| source | as written | input that shows it | evidently intended | confidence | as-written member | corrected member |
|---|---|---|---|---|---|---|
| src/app/services/loan.service.ts:93-99 | a row before the last repays `Round2(emi - interest)` even after the balance has fallen below it; only the closing is clamped at 0 | P = 0.05 over 10 months at rate 0: EMI 0.01, rows 1-9 repay 0.01 each (rows 6-9 on an opening of 0), and the principal column adds up to 0.09 | the principal column adds up to the principal (within a cent) | not executed; high | Amortization.PrincipalColumnOverstates | Amortization.CappedEntriesRepayPrincipal |

The service and calculator models keep the rows as the code writes them, so
that they stay faithful to it. `Amortization.EntriesRepayPrincipal` and
`LoanService.LoanResultRepaysPrincipal` state the principal sum only for
schedules in which no row repays more than its opening. `Amortization.CappedEntries`
is the schedule with the cap, for which the sum holds for any non-negative
principal in whole cents.
