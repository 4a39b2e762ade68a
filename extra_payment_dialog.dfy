/** `ExtraPaymentInputDialogComponent`: the dialog in which the user enters a
    one-time extra payment and the date it is made. The parent component sets
    the `initial...` inputs and the loan's start date; opening the dialog
    copies them into the editable state, and applying it reports the amount,
    the payment date and the installment index that date falls after.
    The two emitters, `apply` and `closed`, are modelled as one log of events. */
module ExtraPaymentDialog {
  import opened JsValues
  import opened Dates

  /** What the dialog reports: the amount (null to remove the extra payment),
      the installment index after which it is made (0 = at the loan start),
      and the payment date. */
  datatype ExtraPaymentApplied = ExtraPaymentApplied(
    amount: Num,
    atMonth: int,
    paymentDate: Option<CalendarDate>)

  /** One emission: `apply.emit(payment)` or `closed.emit()`. */
  datatype DialogEvent = Apply(payment: ExtraPaymentApplied) | Closed

  /** `startDate || today`: the earliest date the date picker offers. */
  function StartOr(startDate: Option<CalendarDate>, today: CalendarDate): CalendarDate {
    if startDate.Some? then startDate.value else today
  }

  /** The payment date the dialog opens with: the parent's date when it has
      one, else the date k = `initialAtMonth ?? 0` months after the loan start,
      else today. */
  function OpeningDate(initialPaymentDate: Option<CalendarDate>, startDate: Option<CalendarDate>,
                       initialAtMonth: Option<int>, today: CalendarDate): CalendarDate
  {
    if initialPaymentDate.Some? then initialPaymentDate.value
    else if startDate.Some? then
      var m := if initialAtMonth.Some? then initialAtMonth.value else 0;
      if m == 0 then startDate.value else AddMonths(startDate.value, m)
    else today
  }

  /** The installment index `onApply` reports for a payment date: 0 without
      one, else the months from the start (or today) to it. */
  function AtMonth(startDate: Option<CalendarDate>, paymentDate: Option<CalendarDate>,
                   today: CalendarDate): (m: int)
    ensures m >= 0
    ensures paymentDate.Some? && Before(StartOr(startDate, today), paymentDate.value) ==>
              m == MonthIndex(paymentDate.value) - MonthIndex(StartOr(startDate, today))
    ensures paymentDate.None? || !Before(StartOr(startDate, today), paymentDate.value) ==> m == 0
  {
    var start := StartOr(startDate, today);
    if paymentDate.Some? then
      MonthsFromStartSpec(start, paymentDate.value);
      MonthsFromStart(start, paymentDate.value)
    else 0
  }

  /** Opening the dialog at installment k of a loan that starts on day 1..28,
      with no date of the parent's, then applying it, reports k again. */
  lemma ReopenRoundTrip(start: CalendarDate, k: int, today: CalendarDate)
    requires k >= 0 && start.day <= 28
    ensures AtMonth(Some(start), Some(OpeningDate(None, Some(start), Some(k), today)), today) == k
  {
    if k == 0 {
      assert !Before(start, start);
    } else {
      MonthsFromStartAddMonths(start, k);
    }
  }

  /** With a start on the 31st the round trip can move the payment one
      installment later: k = 1 from 31 January 2025 is reported as 2. */
  lemma ReopenRoundTripRollOver(today: CalendarDate)
    ensures AtMonth(Some(Date(2025, 1, 31)), Some(OpeningDate(None, Some(Date(2025, 1, 31)), Some(1), today)), today) == 2
  {
    AddMonthsRollOver();
  }

  class ExtraPaymentInputDialog {
    // Inputs, set by the parent.
    var initialAmount: Num
    var initialDisplay: string
    /** None stands for null or undefined. */
    var initialAtMonth: Option<int>
    var initialPaymentDate: Option<CalendarDate>
    /** The loan start date; None stands for ''. */
    var startDate: Option<CalendarDate>

    // Editable state.
    var amount: Num
    var display: string
    /** None stands for ''. */
    var paymentDate: Option<CalendarDate>

    /** Everything emitted through `apply` and `closed`, oldest first. */
    var events: seq<DialogEvent>

    /** `x.toLocaleString('en-IN')`, which depends on the runtime's locale data. */
    const formatNumber: real -> string

    constructor(formatNumber: real -> string)
      ensures initialAmount == Null && initialDisplay == "" && initialAtMonth == Some(0)
      ensures initialPaymentDate == None && startDate == None
      ensures amount == Null && display == "" && paymentDate == None && events == []
      ensures this.formatNumber == formatNumber
    {
      initialAmount := Null;
      initialDisplay := "";
      initialAtMonth := Some(0);
      initialPaymentDate := None;
      startDate := None;
      amount := Null;
      display := "";
      paymentDate := None;
      events := [];
      this.formatNumber := formatNumber;
    }

    /** `get minPaymentDate`, with `new Date()` passed in as today: the
        earliest date offered, at which a payment counts as made at the loan
        start, and no later than any date that counts as after it. */
    function MinPaymentDate(today: CalendarDate): (d: CalendarDate)
      reads this
      ensures AtMonth(startDate, Some(d), today) == 0
      ensures forall pay: CalendarDate :: AtMonth(startDate, Some(pay), today) > 0 ==> Before(d, pay)
    {
      StartOr(startDate, today)
    }

    /** `get hasValue`: a positive amount has been entered. */
    predicate HasValue()
      reads this
    {
      amount.Of? && amount.value > 0.0
    }

    /** `ngOnChanges(changes)`: when the dialog becomes visible, the editable
        state is reset from the inputs; any other change leaves it alone. */
    method OnChanges(visibleChange: Option<bool>, today: CalendarDate)
      modifies this
      ensures visibleChange == Some(true) ==>
                var hasAmount := initialAmount.Of? && initialAmount.value > 0.0;
                && amount == (if hasAmount then initialAmount else Null)
                && display == (if initialDisplay != "" then initialDisplay
                               else if hasAmount then formatNumber(initialAmount.value) else "")
                && paymentDate == Some(OpeningDate(initialPaymentDate, startDate, initialAtMonth, today))
      ensures visibleChange == Some(true) ==>
                (HasValue() <==> initialAmount.Of? && initialAmount.value > 0.0)
      ensures visibleChange != Some(true) ==>
                amount == old(amount) && display == old(display) && paymentDate == old(paymentDate)
      ensures initialAmount == old(initialAmount) && initialDisplay == old(initialDisplay)
      ensures initialAtMonth == old(initialAtMonth) && initialPaymentDate == old(initialPaymentDate)
      ensures startDate == old(startDate) && events == old(events)
    {
      if visibleChange == Some(true) {
        var hasAmount := initialAmount.Of? && initialAmount.value > 0.0;
        amount := if hasAmount then initialAmount else Null;
        if initialDisplay != "" {
          display := initialDisplay;
        } else if hasAmount {
          display := formatNumber(initialAmount.value);
        } else {
          display := "";
        }
        if initialPaymentDate.Some? {
          paymentDate := initialPaymentDate;
        } else if startDate.Some? {
          var m := if initialAtMonth.Some? then initialAtMonth.value else 0;
          paymentDate := if m == 0 then startDate else Some(AddMonths(startDate.value, m));
        } else {
          paymentDate := Some(today);
        }
      }
    }

    /** `onInput(event)`: commas are dropped; an empty box clears the amount,
        a non-negative number that parseInt reads becomes the amount and is
        shown formatted, and any other text changes nothing. */
    method OnInput(text: string)
      modifies this
      ensures StripCommas(text) == [] ==> amount == Null && display == ""
      ensures StripCommas(text) != [] && ParseInt(StripCommas(text)).Some?
              && ParseInt(StripCommas(text)).value >= 0 ==>
                var v := ParseInt(StripCommas(text)).value;
                amount == Of(v as real) && display == formatNumber(v as real) && (HasValue() <==> v > 0)
      ensures StripCommas(text) != []
              && (ParseInt(StripCommas(text)).None? || ParseInt(StripCommas(text)).value < 0) ==>
                amount == old(amount) && display == old(display)
      ensures paymentDate == old(paymentDate) && events == old(events)
      ensures initialAmount == old(initialAmount) && initialDisplay == old(initialDisplay)
      ensures initialAtMonth == old(initialAtMonth) && initialPaymentDate == old(initialPaymentDate)
      ensures startDate == old(startDate)
    {
      var input := StripCommas(text);
      if input == [] {
        amount := Null;
        display := "";
        return;
      }
      var num := ParseInt(input);
      if num.Some? && num.value >= 0 {
        amount := Of(num.value as real);
        display := formatNumber(num.value as real);
      }
    }

    /** `onApply()`: reports the amount, the payment date and the installment
        index it falls after, then closes. The state is kept. */
    method OnApply(today: CalendarDate)
      modifies this
      ensures events == old(events)
                        + [Apply(ExtraPaymentApplied(amount, AtMonth(startDate, paymentDate, today), paymentDate)),
                           Closed]
      ensures amount == old(amount) && display == old(display) && paymentDate == old(paymentDate)
      ensures initialAmount == old(initialAmount) && initialDisplay == old(initialDisplay)
      ensures initialAtMonth == old(initialAtMonth) && initialPaymentDate == old(initialPaymentDate)
      ensures startDate == old(startDate)
    {
      var start := StartOr(startDate, today);
      var date := if paymentDate.Some? then paymentDate.value else start;
      var atMonth := if paymentDate.Some? then MonthsFromStart(start, date) else 0;
      events := events + [Apply(ExtraPaymentApplied(amount, atMonth, paymentDate))];
      events := events + [Closed];
    }

    /** `onClear()`: empties the amount, moves the date back to the earliest
        one offered, reports that the extra payment is removed, then closes. */
    method OnClear(today: CalendarDate)
      modifies this
      ensures amount == Null && display == "" && !HasValue()
      ensures paymentDate == Some(MinPaymentDate(today))
      ensures events == old(events) + [Apply(ExtraPaymentApplied(Null, 0, None)), Closed]
      ensures initialAmount == old(initialAmount) && initialDisplay == old(initialDisplay)
      ensures initialAtMonth == old(initialAtMonth) && initialPaymentDate == old(initialPaymentDate)
      ensures startDate == old(startDate)
    {
      amount := Null;
      display := "";
      paymentDate := Some(MinPaymentDate(today));
      events := events + [Apply(ExtraPaymentApplied(Null, 0, None))];
      events := events + [Closed];
    }

    /** `onClose()`: closes without reporting anything. */
    method OnClose()
      modifies this
      ensures events == old(events) + [Closed]
      ensures amount == old(amount) && display == old(display) && paymentDate == old(paymentDate)
      ensures initialAmount == old(initialAmount) && initialDisplay == old(initialDisplay)
      ensures initialAtMonth == old(initialAtMonth) && initialPaymentDate == old(initialPaymentDate)
      ensures startDate == old(startDate)
    {
      events := events + [Closed];
    }
  }

  /** The parent passes the index it was given back: a dialog opened at
      installment k >= 0 of a loan starting on day 1..28, with no explicit
      payment date, reports installment k when applied unchanged. */
  method OpenThenApply(d: ExtraPaymentInputDialog, start: CalendarDate, k: int, today: CalendarDate)
    requires k >= 0 && start.day <= 28
    modifies d
    ensures |d.events| >= 2 && d.events[|d.events| - 1] == Closed
    ensures d.events[|d.events| - 2].Apply? && d.events[|d.events| - 2].payment.atMonth == k
  {
    d.startDate := Some(start);
    d.initialAtMonth := Some(k);
    d.initialPaymentDate := None;
    d.OnChanges(Some(true), today);
    d.OnApply(today);
    ReopenRoundTrip(start, k, today);
  }
}
