/** The record types of the loan model: the calculation's input, one schedule
    row, the calculation's result, and the (not computed here) comparison of
    the two extra-payment strategies. */
module LoanData {
  import opened JsValues
  import opened Dates

  datatype LoanInput = LoanInput(
    principal: Num,
    annualRate: Num,
    tenureYears: Num,
    tenureMonths: Num,
    /** A `YYYY-MM-DD` string; None stands for null and for ''. */
    startDate: Option<CalendarDate>,
    /** Optional: `Null` stands for null and for an absent field. */
    extraPayment: Num,
    /** Optional: None when absent; 0 = at loan start, k >= 1 = after the
        k-th installment. */
    extraPaymentAtMonth: Option<int>)

  /** `'reduce-emi' | 'reduce-tenure' | null`: how an extra payment is used. */
  datatype ExtraPaymentStrategy = ReduceEmi | ReduceTenure | NoStrategy

  datatype AmortizationRow = AmortizationRow(
    month: int,
    dueDate: CalendarDate,
    opening: real,
    emi: real,
    interest: real,
    principal: real,
    closing: real)

  datatype LoanCalculationResult = LoanCalculationResult(
    emi: real,
    totalInterest: real,
    totalPayable: real,
    schedule: seq<AmortizationRow>)

  datatype ExtraPaymentComparison = ExtraPaymentComparison(
    original: LoanCalculationResult,
    withExtraPaymentReduceEmi: LoanCalculationResult,
    withExtraPaymentReduceTenure: LoanCalculationResult)

  /** The result a degenerate input gets. */
  const Zeroed := LoanCalculationResult(0.0, 0.0, 0.0, [])
}
