/** `LoanCalculatorComponent`: the older, self-contained calculator screen. Its
    input fields are bound to the form, `calculate` fills in the result fields
    with its own copy of the amortization loop (without due dates), and
    `onPrincipalChange` reads the principal from the text box. */
module LoanCalculator {
  import opened JsValues
  import opened Money
  import opened Amortization
  import opened Dates
  import opened LoanData
  import opened LoanService

  class LoanCalculatorComponent {
    var principal: Num
    var principalDisplay: string
    /** Percent per year. */
    var annualRate: Num
    var tenureYears: Num
    var tenureMonths: Num

    var emi: real
    var totalPayable: real
    var totalInterest: real
    var schedule: seq<Entry>

    /** `num.toLocaleString('en-IN')`, which depends on the runtime's locale data. */
    const formatInteger: int -> string

    constructor(formatInteger: int -> string)
      ensures principal == Null && principalDisplay == ""
      ensures annualRate == Null && tenureYears == Null && tenureMonths == Null
      ensures emi == 0.0 && totalPayable == 0.0 && totalInterest == 0.0 && schedule == []
      ensures this.formatInteger == formatInteger
    {
      principal := Null;
      principalDisplay := "";
      annualRate := Null;
      tenureYears := Null;
      tenureMonths := Null;
      emi := 0.0;
      totalPayable := 0.0;
      totalInterest := 0.0;
      schedule := [];
      this.formatInteger := formatInteger;
    }

    /** The loan terms the input fields denote. */
    function Inputs(): Terms
      reads this
    {
      Normalise(principal, annualRate, tenureYears, tenureMonths)
    }

    /** The result fields hold nothing: all zero and an empty schedule. */
    predicate Cleared()
      reads this
    {
      emi == 0.0 && totalPayable == 0.0 && totalInterest == 0.0 && schedule == []
    }

    /** The result fields hold what `calculate` computes for the current
        inputs: cleared for a degenerate loan, else the rounded EMI, its
        schedule and the rounded totals. */
    predicate ShowsResult()
      reads this
    {
      var t := Inputs();
      Supported(t) &&
      if Degenerate(t) then Cleared()
      else
        var n := Count(t);
        var r := MonthlyRate(t.annualRate);
        && emi == Emi(t.principal, r, n)
        && schedule == Entries(1, n, t.principal, emi, r)
        && totalInterest == Round2(SumInterest(schedule))
        && totalPayable == TotalPayable(emi, n)
    }

    /** `calculate()`: the same engine as `LoanService.calculateLoan`, writing
        into the component's own result fields. */
    method Calculate()
      requires Supported(Inputs())
      modifies this
      ensures principal == old(principal) && principalDisplay == old(principalDisplay)
      ensures annualRate == old(annualRate) && tenureYears == old(tenureYears)
      ensures tenureMonths == old(tenureMonths)
      ensures ShowsResult()
    {
      var p := Coerce(principal);
      var rate := Coerce(annualRate);
      var n := TenureMonths(tenureYears, tenureMonths);
      var r := MonthlyRate(rate);
      if p <= 0.0 || n <= 0.0 {
        ResetResults();
        return;
      }
      assert Inputs() == Terms(p, rate, n);
      var count: nat := n.Floor;
      if r == 0.0 {
        emi := p / count as real;
      } else {
        var factor := Pow(1.0 + r, count);
        emi := Annuity(p, r, factor);
      }
      emi := Round2(emi);
      var interestSum := FillSchedule(p, r, count);
      totalInterest := Round2(interestSum);
      totalPayable := TotalPayable(emi, count);
    }

    /** The installment loop of `calculate()`: the schedule is rebuilt row by
        row from the current EMI; the sum of the interest column is returned. */
    method FillSchedule(p: real, r: real, count: nat) returns (interestSum: real)
      modifies this
      ensures schedule == Entries(1, count, p, emi, r)
      ensures interestSum == SumInterest(schedule)
      ensures principal == old(principal) && principalDisplay == old(principalDisplay)
      ensures annualRate == old(annualRate) && tenureYears == old(tenureYears)
      ensures tenureMonths == old(tenureMonths) && emi == old(emi)
      ensures totalInterest == old(totalInterest) && totalPayable == old(totalPayable)
    {
      var balance := p;
      schedule := [];
      interestSum := 0.0;
      for i := 1 to count + 1
        invariant |schedule| == i - 1
        invariant schedule + Entries(i, count, balance, emi, r) == Entries(1, count, p, emi, r)
        invariant interestSum == SumInterest(schedule)
        invariant principal == old(principal) && principalDisplay == old(principalDisplay)
        invariant annualRate == old(annualRate) && tenureYears == old(tenureYears)
        invariant tenureMonths == old(tenureMonths) && emi == old(emi)
        invariant totalInterest == old(totalInterest) && totalPayable == old(totalPayable)
      {
        var interest := Round2(balance * r);
        var principalComponent := Round2(emi - interest);
        if i == count {
          principalComponent := Round2(balance);
        }
        var closing := Round2(balance - principalComponent);
        if closing < 0.0 {
          closing := 0.0;
        }
        var row := Entry(i, Round2(balance), emi, interest, principalComponent, closing);
        assert row == Installment(i, count, balance, emi, r);
        EntriesStep(schedule, i, count, balance, emi, r, p);
        schedule := schedule + [row];
        interestSum := interestSum + interest;
        balance := closing;
      }
      assert schedule == Entries(1, count, p, emi, r);
    }

    /** `resetResults()`: clears the result fields and nothing else. */
    method ResetResults()
      modifies this
      ensures Cleared()
      ensures principal == old(principal) && principalDisplay == old(principalDisplay)
      ensures annualRate == old(annualRate) && tenureYears == old(tenureYears)
      ensures tenureMonths == old(tenureMonths)
    {
      emi := 0.0;
      totalInterest := 0.0;
      totalPayable := 0.0;
      schedule := [];
    }

    /** `resetAll()`: clears the four numeric inputs and the results. The text
        of the principal box is left as it was. */
    method ResetAll()
      modifies this
      ensures principal == Null && annualRate == Null && tenureYears == Null && tenureMonths == Null
      ensures Cleared()
      ensures principalDisplay == old(principalDisplay)
      ensures ShowsResult()
    {
      principal := Null;
      annualRate := Null;
      tenureYears := Null;
      tenureMonths := Null;
      ResetResults();
    }

    /** `onPrincipalChange(event)`: commas are dropped; an empty box clears the
        principal, text that parseInt reads sets the principal and shows it
        formatted, and any other text changes nothing. */
    method OnPrincipalChange(text: string)
      modifies this
      ensures StripCommas(text) == [] ==> principal == Null && principalDisplay == ""
      ensures StripCommas(text) != [] && ParseInt(StripCommas(text)).Some? ==>
                var v := ParseInt(StripCommas(text)).value;
                principal == Of(v as real) && principalDisplay == formatInteger(v)
      ensures StripCommas(text) != [] && ParseInt(StripCommas(text)).None? ==>
                principal == old(principal) && principalDisplay == old(principalDisplay)
      ensures annualRate == old(annualRate) && tenureYears == old(tenureYears)
      ensures tenureMonths == old(tenureMonths)
      ensures emi == old(emi) && totalPayable == old(totalPayable)
      ensures totalInterest == old(totalInterest) && schedule == old(schedule)
    {
      var input := StripCommas(text);
      if input == [] {
        principal := Null;
        principalDisplay := "";
      } else {
        var num := ParseInt(input);
        if num.Some? {
          principal := Of(num.value as real);
          principalDisplay := formatInteger(num.value);
        }
      }
    }
  }

  /** What `calculate()` leaves for a valid loan of n months: n rows
      numbered 1..n carrying the EMI, non-negative closings chained to the next
      opening, the first opening the rounded principal, and a last closing of
      zero. */
  lemma ShownScheduleWellFormed(c: LoanCalculatorComponent)
    requires c.ShowsResult() && !Degenerate(c.Inputs())
    ensures var n := Count(c.Inputs());
            var s := c.schedule;
            && |s| == n
            && (forall k :: 0 <= k < n ==> s[k].month == k + 1 && s[k].emi == c.emi && s[k].closing >= 0.0)
            && (forall k :: 0 <= k < n - 1 ==> s[k + 1].opening == s[k].closing)
            && s[0].opening == Round2(c.Inputs().principal)
            && s[n - 1].closing == 0.0
  {
    var t := c.Inputs();
    EntriesWellFormed(Count(t), t.principal, c.emi, MonthlyRate(t.annualRate));
  }

  /** The component and the service compute the same numbers: once
      `calculate()` has run, the component's fields are the service's result
      for a `LoanInput` with the same four fields, less the due dates. */
  lemma CalculatorAgreesWithService(c: LoanCalculatorComponent, input: LoanInput, today: CalendarDate)
    requires c.ShowsResult()
    requires input.principal == c.principal && input.annualRate == c.annualRate
    requires input.tenureYears == c.tenureYears && input.tenureMonths == c.tenureMonths
    ensures Supported(TermsOf(input))
    ensures var res := LoanResult(input, today);
            && c.emi == res.emi && c.totalInterest == res.totalInterest
            && c.totalPayable == res.totalPayable
            && c.schedule == Undated(res.schedule)
  {
    var t := TermsOf(input);
    assert t == c.Inputs();
    if !Degenerate(t) {
      var r := MonthlyRate(t.annualRate);
      var n := Count(t);
      var emi := Emi(t.principal, r, n);
      var entries := Entries(1, n, t.principal, emi, r);
      assert LoanResult(input, today) == Scheduled(t.principal, r, n, emi, StartDate(input, today));
      UndatedDated(entries, StartDate(input, today));
    }
  }
}
