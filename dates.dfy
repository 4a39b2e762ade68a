/** Calendar dates as (year, month, day) triples and the two date helpers of the
    extra-payment dialog: `addMonthsToDate`, which moves a date by whole months
    with JavaScript `Date.prototype.setMonth` semantics, and `monthsFromStart`,
    which turns a payment date back into an installment index. Both helpers read
    the date at local noon (`'T12:00:00'`). `monthsFromStart` compares and
    reads local fields only, and `addMonthsToDate` writes the UTC calendar
    date of the shifted local noon, which is the local date exactly when the
    UTC offset is above -12 h and at most +12 h. The model assumes such an
    offset, so time of day does not appear. */
module Dates {

  datatype Date = Date(year: int, month: int, day: int)

  /** Gregorian leap years, as JavaScript's proleptic calendar has them. */
  predicate IsLeapYear(y: int) {
    y % 4 == 0 && (y % 100 != 0 || y % 400 == 0)
  }

  function DaysInMonth(y: int, m: int): (d: int)
    requires 1 <= m <= 12
    ensures 28 <= d <= 31
  {
    if m == 2 then (if IsLeapYear(y) then 29 else 28)
    else if m == 4 || m == 6 || m == 9 || m == 11 then 30
    else 31
  }

  predicate Valid(d: Date) {
    1 <= d.month <= 12 && 1 <= d.day <= DaysInMonth(d.year, d.month)
  }

  /** A date a `YYYY-MM-DD` string can denote (months 1 to 12). */
  type CalendarDate = d: Date | Valid(d) witness Date(2000, 1, 1)

  /** Months since January of year 0. */
  function MonthIndex(d: Date): int {
    d.year * 12 + (d.month - 1)
  }

  /** The first day of the month with the given month index. */
  function FirstOfMonth(t: int): (d: CalendarDate)
    ensures MonthIndex(d) == t && d.day == 1
  {
    Date(t / 12, t % 12 + 1, 1)
  }

  /** Date objects at the same time of day compare as their calendar dates do. */
  predicate Before(a: Date, b: Date) {
    a.year < b.year
    || (a.year == b.year && (a.month < b.month || (a.month == b.month && a.day < b.day)))
  }

  /** `addMonthsToDate(d, k)`: `setMonth(getMonth() + k)` keeps the day of the
      month; a month overflow moves into the year, and a day the target month
      does not have rolls over into the following month. */
  function AddMonths(d: CalendarDate, k: int): (e: CalendarDate)
    ensures var target := FirstOfMonth(MonthIndex(d) + k);
            var len := DaysInMonth(target.year, target.month);
            if d.day <= len then MonthIndex(e) == MonthIndex(d) + k && e.day == d.day
            else MonthIndex(e) == MonthIndex(d) + k + 1 && e.day == d.day - len
  {
    var target := FirstOfMonth(MonthIndex(d) + k);
    var len := DaysInMonth(target.year, target.month);
    if d.day <= len then target.(day := d.day)
    else
      var next := FirstOfMonth(MonthIndex(d) + k + 1);
      next.(day := d.day - len)
  }

  /** `monthsFromStart(start, pay)`: 0 when the payment date is not after the
      start, else the number of calendar months between the two, ignoring the
      day of the month. */
  function MonthsFromStart(start: CalendarDate, pay: CalendarDate): int {
    if !Before(start, pay) then 0
    else
      var months := (pay.year - start.year) * 12 + (pay.month - start.month);
      if months < 0 then 0 else months
  }

  /** The result is never negative, and the `Math.max(0, ...)` never matters:
      a later payment date is never in an earlier calendar month. */
  lemma MonthsFromStartSpec(start: CalendarDate, pay: CalendarDate)
    ensures MonthsFromStart(start, pay) >= 0
    ensures MonthsFromStart(start, pay)
            == if Before(start, pay) then MonthIndex(pay) - MonthIndex(start) else 0
  {
  }

  /** Moving a date by whole months keeps its day when that day is at most 28. */
  lemma AddMonthsEarlyDay(d: CalendarDate, k: int)
    requires d.day <= 28
    ensures MonthIndex(AddMonths(d, k)) == MonthIndex(d) + k
    ensures AddMonths(d, k).day == d.day
  {
  }

  /** A date and its month index determine each other. */
  lemma MonthIndexInjective(a: CalendarDate, b: CalendarDate)
    requires MonthIndex(a) == MonthIndex(b) && a.day == b.day
    ensures a == b
  {
  }

  /** The dialog's round trip: rebuilding the payment date from an installment
      index k >= 0 and deriving the index back from that date gives k again, as
      long as the start day is at most 28. */
  lemma MonthsFromStartAddMonths(start: CalendarDate, k: int)
    requires k >= 0 && start.day <= 28
    ensures MonthsFromStart(start, AddMonths(start, k)) == k
  {
    var pay := AddMonths(start, k);
    AddMonthsEarlyDay(start, k);
    if k == 0 {
      MonthIndexInjective(pay, start);
    } else {
      assert Before(start, pay);
    }
    MonthsFromStartSpec(start, pay);
  }

  /** The round trip does fail for a start on the 31st: one month after
      31 January 2025 is 3 March 2025, two calendar months after the start. */
  lemma AddMonthsRollOver()
    ensures AddMonths(Date(2025, 1, 31), 1) == Date(2025, 3, 3)
    ensures MonthsFromStart(Date(2025, 1, 31), Date(2025, 3, 3)) == 2
  {
    var jan31: CalendarDate := Date(2025, 1, 31);
    var feb1 := FirstOfMonth(24301);
    assert feb1 == Date(2025, 2, 1) by {
      assert 24301 == 2025 * 12 + 1;
    }
    var mar1 := FirstOfMonth(24302);
    assert mar1 == Date(2025, 3, 1) by {
      assert 24302 == 2025 * 12 + 2;
    }
    assert DaysInMonth(2025, 2) == 28 by {
      assert 2025 == 4 * 506 + 1;
    }
    assert MonthIndex(jan31) + 1 == 24301;
  }
}
