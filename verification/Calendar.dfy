/** Civil dates and the clamped calendar-month shift.

    Everywhere else a date is a day count; months need the calendar's years, months and days. */
module Calendar {
  import opened Domain

  datatype Civil = Civil(year: int, month: int, day: int)

  const MIN_YEAR := 1
  const MAX_YEAR := 9999

  predicate IsLeap(year: int) {
    year % 4 == 0 && (year % 100 != 0 || year % 400 == 0)
  }

  function DaysIn(year: int, month: int): (n: int)
    ensures 28 <= n <= 31
  {
    if month == 2 then (if IsLeap(year) then 29 else 28)
    else if month == 4 || month == 6 || month == 9 || month == 11 then 30
    else 31
  }

  predicate IsDate(d: Civil) {
    MIN_YEAR <= d.year <= MAX_YEAR && 1 <= d.month <= 12 && 1 <= d.day <= DaysIn(d.year, d.month)
  }

  predicate Before(a: Civil, b: Civil) {
    a.year < b.year || (a.year == b.year && (a.month < b.month || (a.month == b.month && a.day < b.day)))
  }

  predicate AtMost(a: Civil, b: Civil) {
    !Before(b, a)
  }

  /** Months counted from year 0. */
  function MonthIndex(d: Civil): int {
    d.year * 12 + (d.month - 1)
  }

  datatype CalendarError = OutOfCalendar

  /** The last day of the target month is found from the first of the month after, so that month too
      must be in the calendar. */
  function ShiftMonths(d: Civil, months: int): Result<Civil, CalendarError> {
    var index := MonthIndex(d) + months;
    var year, month := index / 12, index % 12 + 1;
    if year < MIN_YEAR || year + (if month == 12 then 1 else 0) > MAX_YEAR then Failure(OutOfCalendar)
    else Success(Civil(year, month, Min(d.day, DaysIn(year, month))))
  }

  /** The shift lands in the month that many months away, on the latest day of it that is not after
      the original day of the month. */
  lemma ShiftLands(d: Civil, months: int)
    requires IsDate(d) && ShiftMonths(d, months).Success?
    ensures var t := ShiftMonths(d, months).value;
            && IsDate(t) && MonthIndex(t) == MonthIndex(d) + months && t.day <= d.day
            && forall day :: t.day < day <= d.day ==> !IsDate(Civil(t.year, t.month, day))
  {
  }

  lemma OrderByMonth(a: Civil, b: Civil)
    requires IsDate(a) && IsDate(b)
    ensures Before(a, b) <==> MonthIndex(a) < MonthIndex(b) || (MonthIndex(a) == MonthIndex(b) && a.day < b.day)
    ensures MonthIndex(a) == MonthIndex(b) ==> a.year == b.year && a.month == b.month
  {
  }

  /** Clamping keeps the shift monotone: earlier dates never land after later ones. */
  lemma ShiftIsMonotone(a: Civil, b: Civil, months: int)
    requires IsDate(a) && IsDate(b) && AtMost(a, b)
    requires ShiftMonths(a, months).Success? && ShiftMonths(b, months).Success?
    ensures AtMost(ShiftMonths(a, months).value, ShiftMonths(b, months).value)
  {
    ShiftLands(a, months);
    ShiftLands(b, months);
    var s, t := ShiftMonths(a, months).value, ShiftMonths(b, months).value;
    OrderByMonth(b, a);
    OrderByMonth(t, s);
    OrderByMonth(s, t);
  }

  /** A shift back lands strictly earlier, and any other shift never does. */
  lemma ShiftBackIsEarlier(d: Civil, months: int)
    requires IsDate(d) && ShiftMonths(d, months).Success?
    ensures Before(ShiftMonths(d, months).value, d) <==> months < 0
  {
    ShiftLands(d, months);
    OrderByMonth(ShiftMonths(d, months).value, d);
  }

  /** Shifting there and back returns to the date exactly when its day of the month exists in the
      month visited. */
  lemma RoundTripExactlyWhen(d: Civil, months: int)
    requires IsDate(d) && ShiftMonths(d, months).Success? && ShiftMonths(ShiftMonths(d, months).value, -months).Success?
    ensures ShiftMonths(ShiftMonths(d, months).value, -months).value == d
            <==> d.day <= DaysIn(ShiftMonths(d, months).value.year, ShiftMonths(d, months).value.month)
  {
    var t := ShiftMonths(d, months).value;
    ShiftLands(d, months);
    ShiftLands(t, -months);
    OrderByMonth(d, ShiftMonths(t, -months).value);
  }

  /** The calendar has the month. */
  ghost predicate HasMonth(index: int) {
    exists t :: IsDate(t) && MonthIndex(t) == index
  }

  /** A shift succeeds exactly when the calendar has the month it lands in and the month after. */
  lemma ShiftSucceedsExactlyWhen(d: Civil, months: int)
    ensures var landing := MonthIndex(d) + months;
            ShiftMonths(d, months).Success? <==> HasMonth(landing) && HasMonth(landing + 1)
  {
    var landing := MonthIndex(d) + months;
    MonthsHad(landing);
    MonthsHad(landing + 1);
  }

  lemma MonthsHad(index: int)
    ensures HasMonth(index) <==> MIN_YEAR * 12 <= index < (MAX_YEAR + 1) * 12
  {
    if MIN_YEAR * 12 <= index < (MAX_YEAR + 1) * 12 {
      var first := Civil(index / 12, index % 12 + 1, 1);
      assert IsDate(first) && MonthIndex(first) == index;
    }
  }
}
