/** `LoanService.calculateLoan`: the amortization engine. The method follows
    the source's loop; `LoanResult` is the specification it is proved against,
    and the lemmas below state the schedule's properties in terms of it. */
module LoanService {
  import opened JsValues
  import opened Money
  import opened Dates
  import opened Amortization
  import opened LoanData

  /** The normalised terms of an input (`Number(x) || 0`, tenure resolution). */
  function TermsOf(input: LoanInput): Terms {
    Normalise(input.principal, input.annualRate, input.tenureYears, input.tenureMonths)
  }

  /** `input.startDate ? new Date(input.startDate) : new Date()` */
  function StartDate(input: LoanInput, today: CalendarDate): CalendarDate {
    if input.startDate.Some? then input.startDate.value else today
  }

  /** The k-th due date: `currentDate.setMonth(currentDate.getMonth() + 1)`
      applied k times to the same date, so a day rolled over once stays moved. */
  function DueDate(start: CalendarDate, k: nat): CalendarDate {
    if k == 0 then start else AddMonths(DueDate(start, k - 1), 1)
  }

  function WithDate(e: Entry, due: CalendarDate): AmortizationRow {
    AmortizationRow(e.month, due, e.opening, e.emi, e.interest, e.principal, e.closing)
  }

  /** The rows of a schedule, the k-th (from 1) falling due on DueDate(start, k). */
  function Dated(es: seq<Entry>, start: CalendarDate): seq<AmortizationRow> {
    seq(|es|, k requires 0 <= k < |es| => WithDate(es[k], DueDate(start, k + 1)))
  }

  /** The numeric part of schedule rows. */
  function Undated(rows: seq<AmortizationRow>): seq<Entry> {
    seq(|rows|, k requires 0 <= k < |rows| =>
      Entry(rows[k].month, rows[k].opening, rows[k].emi, rows[k].interest,
            rows[k].principal, rows[k].closing))
  }

  /** What `calculateLoan(input)` returns when `new Date()` is `today`. */
  function LoanResult(input: LoanInput, today: CalendarDate): LoanCalculationResult
    requires Supported(TermsOf(input))
  {
    var t := TermsOf(input);
    if Degenerate(t) then Zeroed
    else
      var r := MonthlyRate(t.annualRate);
      var n := Count(t);
      Scheduled(t.principal, r, n, Emi(t.principal, r, n), StartDate(input, today))
  }

  /** The result of a loan of n months with the given EMI: the schedule that
      EMI produces with its due dates, the rounded interest total, and the
      rounded `emi * n` as total payable. */
  function Scheduled(p: real, r: real, n: nat, emi: real, start: CalendarDate): LoanCalculationResult {
    var entries := Entries(1, n, p, emi, r);
    LoanCalculationResult(emi, Round2(SumInterest(entries)), TotalPayable(emi, n),
                          Dated(entries, start))
  }

  lemma DatedSnoc(es: seq<Entry>, e: Entry, start: CalendarDate)
    ensures Dated(es + [e], start) == Dated(es, start) + [WithDate(e, DueDate(start, |es| + 1))]
  {
    var lhs, rhs := Dated(es + [e], start), Dated(es, start) + [WithDate(e, DueDate(start, |es| + 1))];
    assert |lhs| == |rhs|;
    forall k | 0 <= k < |lhs| ensures lhs[k] == rhs[k] {
      if k < |es| { assert (es + [e])[k] == es[k]; }
    }
  }

  /** `calculateLoan`: normalise the input, return the zeroed result for a
      degenerate one, else compute the EMI, build the schedule (the loop is
      `BuildSchedule` below) and round the totals. The result record, which
      the source fills in field by field, is assembled once at the end. */
  method CalculateLoan(input: LoanInput, today: CalendarDate) returns (result: LoanCalculationResult)
    requires Supported(TermsOf(input))
    ensures result == LoanResult(input, today)
    ensures Degenerate(TermsOf(input)) ==> result == Zeroed
  {
    var p := Coerce(input.principal);
    var annualRate := Coerce(input.annualRate);
    var n := TenureMonths(input.tenureYears, input.tenureMonths);
    var r := MonthlyRate(annualRate);
    result := Zeroed;
    if p <= 0.0 || n <= 0.0 {
      return;
    }
    assert TermsOf(input) == Terms(p, annualRate, n);
    var count: nat := n.Floor;
    var emi;
    if r == 0.0 {
      emi := p / count as real;
    } else {
      var factor := Pow(1.0 + r, count);
      emi := Annuity(p, r, factor);
    }
    emi := Round2(emi);
    var schedule, totalInterest := BuildSchedule(p, r, count, emi, StartDate(input, today));
    result := LoanCalculationResult(emi, Round2(totalInterest), TotalPayable(emi, count), schedule);
    assert count == Count(TermsOf(input));
    assert r == MonthlyRate(TermsOf(input).annualRate);
  }

  /** One iteration of the loop, on the specification side: installment i
      moves from the rows still to come to the rows done. */
  lemma ScheduleStep(done: seq<Entry>, i: nat, count: nat, balance: real, emi: real, r: real,
                     p: real, start: CalendarDate)
    requires 1 <= i <= count && |done| == i - 1
    requires done + Entries(i, count, balance, emi, r) == Entries(1, count, p, emi, r)
    ensures var e := Installment(i, count, balance, emi, r);
            && (done + [e]) + Entries(i + 1, count, e.closing, emi, r) == Entries(1, count, p, emi, r)
            && Dated(done + [e], start) == Dated(done, start) + [WithDate(e, DueDate(start, i))]
            && SumInterest(done + [e]) == SumInterest(done) + e.interest
  {
    EntriesStep(done, i, count, balance, emi, r, p);
    DatedSnoc(done, Installment(i, count, balance, emi, r), start);
  }

  /** The installment loop of `calculateLoan`: one row pushed per month, with
      the balance, the running interest total and the due date updated in
      place. */
  method BuildSchedule(p: real, r: real, count: nat, emi: real, start: CalendarDate)
    returns (schedule: seq<AmortizationRow>, totalInterest: real)
    ensures schedule == Dated(Entries(1, count, p, emi, r), start)
    ensures totalInterest == SumInterest(Entries(1, count, p, emi, r))
  {
    schedule := [];
    var balance := p;
    totalInterest := 0.0;
    var currentDate := start;
    ghost var done: seq<Entry> := [];
    for i := 1 to count + 1
      invariant |done| == i - 1
      invariant done + Entries(i, count, balance, emi, r) == Entries(1, count, p, emi, r)
      invariant currentDate == DueDate(start, i - 1)
      invariant schedule == Dated(done, start)
      invariant totalInterest == SumInterest(done)
    {
      currentDate := AddMonths(currentDate, 1);
      var dueDate := currentDate;
      var interest := Round2(balance * r);
      var principalComponent := Round2(emi - interest);
      if i == count {
        principalComponent := Round2(balance);
      }
      var closing := Round2(balance - principalComponent);
      if closing < 0.0 {
        closing := 0.0;
      }
      var row := AmortizationRow(i, dueDate, Round2(balance), emi, interest, principalComponent, closing);
      ghost var e := Installment(i, count, balance, emi, r);
      assert row == WithDate(e, DueDate(start, i));
      ScheduleStep(done, i, count, balance, emi, r, p, start);
      schedule := schedule + [row];
      done := done + [e];
      totalInterest := totalInterest + interest;
      balance := closing;
    }
    assert done == Entries(1, count, p, emi, r);
  }

  lemma UndatedDated(es: seq<Entry>, start: CalendarDate)
    ensures Undated(Dated(es, start)) == es
  {
  }

  /** The schedule of a valid loan: n rows numbered 1..n, each carrying the
      result's EMI and the k-th due date, closings never negative and chained
      to the next opening, the first opening the rounded principal, and a last
      closing of zero. */
  lemma LoanResultSchedule(input: LoanInput, today: CalendarDate)
    requires Supported(TermsOf(input)) && !Degenerate(TermsOf(input))
    ensures var res := LoanResult(input, today);
            var n := Count(TermsOf(input));
            var s := res.schedule;
            && |s| == n
            && (forall k :: 0 <= k < n ==>
                  s[k].month == k + 1 && s[k].emi == res.emi && s[k].closing >= 0.0
                  && s[k].dueDate == DueDate(StartDate(input, today), k + 1))
            && (forall k :: 0 <= k < n - 1 ==> s[k + 1].opening == s[k].closing)
            && s[0].opening == Round2(TermsOf(input).principal)
            && s[n - 1].closing == 0.0
  {
    var t := TermsOf(input);
    var r := MonthlyRate(t.annualRate);
    var n := Count(t);
    EntriesWellFormed(n, t.principal, Emi(t.principal, r, n), r);
  }

  /** The EMI is `Round2(P / n)` at rate zero and `Round2(P r f / (f - 1))`
      with `f = (1 + r)^n` otherwise, and before rounding it is the payment
      that leaves exactly nothing owed after n months. */
  lemma LoanResultEmi(input: LoanInput, today: CalendarDate)
    requires Supported(TermsOf(input)) && !Degenerate(TermsOf(input))
    ensures var t := TermsOf(input);
            var n := Count(t);
            var r := MonthlyRate(t.annualRate);
            && (r == 0.0 ==> LoanResult(input, today).emi == Round2(t.principal / n as real))
            && (r != 0.0 ==> LoanResult(input, today).emi
                             == Round2(Annuity(t.principal, r, Pow(1.0 + r, n))))
            && LoanResult(input, today).emi == Round2(ExactEmi(t.principal, r, n))
            && Outstanding(t.principal, r, ExactEmi(t.principal, r, n), n) == 0.0
  {
    var t := TermsOf(input);
    var n := Count(t);
    var r := MonthlyRate(t.annualRate);
    assert LoanResult(input, today).emi == Emi(t.principal, r, n);
    ExactEmiAmortizes(t.principal, r, n);
  }

  /** The totals agree with the schedule: the total interest is the rounded
      sum of the interest column, and the total payable is the rounded EMI
      times the number of rows. */
  lemma LoanResultTotals(input: LoanInput, today: CalendarDate)
    requires Supported(TermsOf(input)) && !Degenerate(TermsOf(input))
    ensures var res := LoanResult(input, today);
            res.totalInterest == Round2(SumInterest(Undated(res.schedule)))
    ensures var res := LoanResult(input, today);
            var n := Count(TermsOf(input));
            |res.schedule| == n && res.totalPayable == TotalPayable(res.emi, n)
  {
    var t := TermsOf(input);
    var r := MonthlyRate(t.annualRate);
    var n := Count(t);
    var emi := Emi(t.principal, r, n);
    assert LoanResult(input, today) == Scheduled(t.principal, r, n, emi, StartDate(input, today));
    ScheduledTotals(t.principal, r, n, emi, StartDate(input, today));
  }

  /** The same for any EMI, together with the bound: the total payable is
      within half a cent of `emi * n`. */
  lemma ScheduledTotals(p: real, r: real, n: nat, emi: real, start: CalendarDate)
    ensures var res := Scheduled(p, r, n, emi, start);
            res.totalInterest == Round2(SumInterest(Undated(res.schedule)))
    ensures var res := Scheduled(p, r, n, emi, start);
            |res.schedule| == n && res.emi == emi && res.totalPayable == TotalPayable(emi, n)
    ensures -0.005 < Scheduled(p, r, n, emi, start).totalPayable - emi * n as real <= 0.005
  {
    var entries := Entries(1, n, p, emi, r);
    var res := Scheduled(p, r, n, emi, start);
    assert res == LoanCalculationResult(emi, Round2(SumInterest(entries)), TotalPayable(emi, n),
                                        Dated(entries, start));
    assert Undated(res.schedule) == entries by {
      UndatedDated(entries, start);
    }
    assert |res.schedule| == n by {
      EntriesWellFormed(n, p, emi, r);
    }
    TotalPayableError(emi, n);
  }

  /** With a whole number of cents as principal, every row satisfies
      `closing == max(0, opening - principal)` exactly. */
  lemma LoanResultExactClosing(input: LoanInput, today: CalendarDate)
    requires Supported(TermsOf(input)) && !Degenerate(TermsOf(input))
    requires IsCents(TermsOf(input).principal)
    ensures var s := LoanResult(input, today).schedule;
            forall k :: 0 <= k < |s| ==> s[k].closing == Max0(s[k].opening - s[k].principal)
  {
    var t := TermsOf(input);
    var r := MonthlyRate(t.annualRate);
    var n := Count(t);
    var es := Entries(1, n, t.principal, Emi(t.principal, r, n), r);
    EntriesExactClosing(1, n, t.principal, Emi(t.principal, r, n), r);
    assert ExactClosings(es);
  }

  /** With a whole number of cents as principal, and no row whose closing had
      to be clamped at zero, the principal column adds up to the principal. */
  lemma LoanResultRepaysPrincipal(input: LoanInput, today: CalendarDate)
    requires Supported(TermsOf(input)) && !Degenerate(TermsOf(input))
    requires IsCents(TermsOf(input).principal)
    requires NoneClamped(Undated(LoanResult(input, today).schedule))
    ensures SumPrincipal(Undated(LoanResult(input, today).schedule)) == TermsOf(input).principal
  {
    var t := TermsOf(input);
    var r := MonthlyRate(t.annualRate);
    var n := Count(t);
    var emi := Emi(t.principal, r, n);
    var entries := Entries(1, n, t.principal, emi, r);
    assert LoanResult(input, today) == Scheduled(t.principal, r, n, emi, StartDate(input, today));
    UndatedDated(entries, StartDate(input, today));
    EntriesRepayPrincipal(1, n, t.principal, emi, r);
  }

  /** An interest-free loan: no row carries interest, and every row but the last
      repays `Round2(P / n)`. */
  lemma LoanResultInterestFree(input: LoanInput, today: CalendarDate)
    requires Supported(TermsOf(input)) && !Degenerate(TermsOf(input))
    requires TermsOf(input).annualRate == 0.0
    ensures var res := LoanResult(input, today);
            var n := Count(TermsOf(input));
            var s := res.schedule;
            && res.emi == Round2(TermsOf(input).principal / n as real)
            && forall k :: 0 <= k < |s| ==>
                 s[k].interest == 0.0 && (k < n - 1 ==> s[k].principal == res.emi)
  {
    var t := TermsOf(input);
    var n := Count(t);
    var emi := Emi(t.principal, 0.0, n);
    Round2IsCents(ExactEmi(t.principal, 0.0, n));
    EntriesInterestFree(1, n, t.principal, emi);
    assert InterestFreeRows(Entries(1, n, t.principal, emi, 0.0), 1, n, emi);
  }

  /** When the start day is at most 28, the k-th due date is exactly k months
      after the start: advancing month by month never drifts. */
  lemma {:induction false} DueDateNoDrift(start: CalendarDate, k: nat)
    requires start.day <= 28
    ensures DueDate(start, k) == AddMonths(start, k)
  {
    if k == 0 {
      MonthIndexInjective(AddMonths(start, 0), start);
    } else {
      DueDateNoDrift(start, k - 1);
      var prev := AddMonths(start, k - 1);
      AddMonthsEarlyDay(start, k - 1);
      AddMonthsEarlyDay(prev, 1);
      AddMonthsEarlyDay(start, k);
      MonthIndexInjective(AddMonths(prev, 1), AddMonths(start, k));
    }
  }
}
