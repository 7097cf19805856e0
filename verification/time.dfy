/**
 * A small model of the parts of the `time` crate the holiday engine relies on:
 * a proleptic Gregorian calendar date that can only be built for a valid
 * (year, month, day), its weekday, and the addition of a signed number of days.
 *
 * Dates are numbered by `DayNumber`, the number of days since 1 January of
 * year 1 (a Monday), so that the weekday, counted from Monday = 0, is simply
 * the day number modulo 7.
 */
module Time {
  import opened Options

  /** The year range of the `time` crate without its `large-dates` feature. */
  const MinYear: int := -9999
  const MaxYear: int := 9999

  type Month = m: int | 1 <= m <= 12 witness 1

  datatype Date = Date(year: int, month: Month, day: int)

  predicate IsLeapYear(year: int) {
    year % 4 == 0 && (year % 100 != 0 || year % 400 == 0)
  }

  function DaysInMonth(year: int, month: Month): int {
    if month == 2 then (if IsLeapYear(year) then 29 else 28)
    else if month == 4 || month == 6 || month == 9 || month == 11 then 30
    else 31
  }

  function DaysInYear(year: int): int {
    if IsLeapYear(year) then 366 else 365
  }

  /** The day exists in that month of that year, whatever the year. */
  predicate IsCalendarDate(d: Date) {
    1 <= d.day <= DaysInMonth(d.year, d.month)
  }

  /** A value the `time` crate can represent. */
  predicate IsValid(d: Date) {
    MinYear <= d.year <= MaxYear && IsCalendarDate(d)
  }

  /** `Date::from_calendar_date(year, month, day).ok()`. */
  function FromCalendarDate(year: int, month: Month, day: int): (r: Option<Date>)
    ensures r.Some? <==> IsValid(Date(year, month, day))
    ensures r.Some? ==> r.value == Date(year, month, day)
  {
    if MinYear <= year <= MaxYear && 1 <= day <= DaysInMonth(year, month) then
      Some(Date(year, month, day))
    else
      None
  }

  /** Days from 1 January of year 1 to 1 January of `year` (negative before year 1). */
  function DaysBeforeYear(year: int): int {
    var y := year - 1;
    365 * y + y / 4 - y / 100 + y / 400
  }

  /** Days from 1 January to the first of `month`, in `year`. */
  function DaysBeforeMonth(year: int, month: Month): int {
    [0, 31, 59, 90, 120, 151, 181, 212, 243, 273, 304, 334][month - 1]
      + (if month > 2 && IsLeapYear(year) then 1 else 0)
  }

  /** Zero-based ordinal of the day within its year. */
  function DayOfYear(d: Date): int {
    DaysBeforeMonth(d.year, d.month) + d.day - 1
  }

  /** Days since 1 January of year 1. */
  function DayNumber(d: Date): int {
    DaysBeforeYear(d.year) + DayOfYear(d)
  }

  /** `weekday().number_days_from_monday()`: Monday = 0, ..., Sunday = 6. */
  function Weekday(d: Date): int {
    DayNumber(d) % 7
  }

  /** Lexicographic order of (year, month, day). */
  predicate Before(d1: Date, d2: Date) {
    d1.year < d2.year
    || (d1.year == d2.year && d1.month < d2.month)
    || (d1.year == d2.year && d1.month == d2.month && d1.day < d2.day)
  }

  function FirstOfNextMonth(d: Date): Date {
    if d.month == 12 then Date(d.year + 1, 1, 1) else Date(d.year, d.month + 1, 1)
  }

  function LastOfPreviousMonth(d: Date): Date {
    if d.month == 1 then Date(d.year - 1, 12, 31)
    else Date(d.year, d.month - 1, DaysInMonth(d.year, d.month - 1))
  }

  /**
   * `date + Duration::days(n)`, walking month by month. The crate panics when the
   * result leaves the year range; callers here only add offsets that stay inside it.
   */
  function AddDays(d: Date, n: int): Date
    requires IsCalendarDate(d)
    decreases if n < 0 then -n else n
  {
    if 1 <= d.day + n <= DaysInMonth(d.year, d.month) then
      Date(d.year, d.month, d.day + n)
    else if n > 0 then
      AddDays(FirstOfNextMonth(d), n - (DaysInMonth(d.year, d.month) - d.day + 1))
    else
      AddDays(LastOfPreviousMonth(d), n + d.day)
  }

  // ---------------------------------------------------------------------------
  // The day numbering

  /** Integer division by a positive constant steps up by one exactly at its multiples. */
  lemma DivNext(y: int, k: int)
    requires k == 4 || k == 100 || k == 400
    ensures (y + 1) / k == y / k + (if (y + 1) % k == 0 then 1 else 0)
  {
    var q, r := y / k, y % k;
    assert y == k * q + r && 0 <= r < k;
    if r == k - 1 {
      assert y + 1 == k * (q + 1);
    } else {
      assert y + 1 == k * q + (r + 1) && 0 <= r + 1 < k;
    }
  }

  lemma DaysBeforeNextYear(year: int)
    ensures DaysBeforeYear(year + 1) == DaysBeforeYear(year) + DaysInYear(year)
  {
    DivNext(year - 1, 4);
    DivNext(year - 1, 100);
    DivNext(year - 1, 400);
  }

  lemma DaysBeforeMonthBounds(year: int, month: Month)
    ensures 0 <= DaysBeforeMonth(year, month)
    ensures DaysBeforeMonth(year, month) + DaysInMonth(year, month) <= DaysInYear(year)
    ensures month == 12 ==> DaysBeforeMonth(year, month) + DaysInMonth(year, month) == DaysInYear(year)
    ensures month < 12 ==> DaysBeforeMonth(year, month + 1) == DaysBeforeMonth(year, month) + DaysInMonth(year, month)
  {
  }

  lemma {:induction false} DaysBeforeMonthIncreasing(year: int, m1: Month, m2: Month)
    requires m1 < m2
    ensures DaysBeforeMonth(year, m1) + DaysInMonth(year, m1) <= DaysBeforeMonth(year, m2)
    decreases m2 - m1
  {
    if m1 + 1 < m2 {
      DaysBeforeMonthIncreasing(year, m1 + 1, m2);
    }
  }

  lemma {:induction false} DaysBeforeYearIncreasing(y1: int, y2: int)
    requires y1 < y2
    ensures DaysBeforeYear(y1) + DaysInYear(y1) <= DaysBeforeYear(y2)
    decreases y2 - y1
  {
    DaysBeforeNextYear(y1);
    if y1 + 1 < y2 {
      DaysBeforeYearIncreasing(y1 + 1, y2);
    }
  }

  lemma DayOfYearBounds(d: Date)
    requires IsCalendarDate(d)
    ensures 0 <= DayOfYear(d) < DaysInYear(d.year)
  {
    DaysBeforeMonthBounds(d.year, d.month);
  }

  /** The day numbering follows the calendar order, so it is one-to-one on calendar dates. */
  lemma DayNumberOrder(d1: Date, d2: Date)
    requires IsCalendarDate(d1) && IsCalendarDate(d2)
    ensures Before(d1, d2) <==> DayNumber(d1) < DayNumber(d2)
    ensures d1 == d2 <==> DayNumber(d1) == DayNumber(d2)
  {
    DayOfYearBounds(d1);
    DayOfYearBounds(d2);
    if d1.year < d2.year {
      DaysBeforeYearIncreasing(d1.year, d2.year);
    } else if d2.year < d1.year {
      DaysBeforeYearIncreasing(d2.year, d1.year);
    } else if d1.month < d2.month {
      DaysBeforeMonthIncreasing(d1.year, d1.month, d2.month);
    } else if d2.month < d1.month {
      DaysBeforeMonthIncreasing(d2.year, d2.month, d1.month);
    }
  }

  // ---------------------------------------------------------------------------
  // Adding days

  lemma FirstOfNextMonthNumber(d: Date)
    requires IsCalendarDate(d)
    ensures IsCalendarDate(FirstOfNextMonth(d))
    ensures DayNumber(FirstOfNextMonth(d)) == DayNumber(d) + DaysInMonth(d.year, d.month) - d.day + 1
  {
    if d.month == 12 {
      DaysBeforeNextYear(d.year);
      DaysBeforeMonthBounds(d.year, 12);
    }
  }

  lemma LastOfPreviousMonthNumber(d: Date)
    requires IsCalendarDate(d)
    ensures IsCalendarDate(LastOfPreviousMonth(d))
    ensures DayNumber(LastOfPreviousMonth(d)) == DayNumber(d) - d.day
  {
    if d.month == 1 {
      DaysBeforeNextYear(d.year - 1);
      DaysBeforeMonthBounds(d.year - 1, 12);
    }
  }

  /** `d + n days` is a calendar date exactly n days after `d` (before it when n < 0). */
  lemma {:induction false} AddDaysNumber(d: Date, n: int)
    requires IsCalendarDate(d)
    ensures IsCalendarDate(AddDays(d, n))
    ensures DayNumber(AddDays(d, n)) == DayNumber(d) + n
    decreases if n < 0 then -n else n
  {
    if 1 <= d.day + n <= DaysInMonth(d.year, d.month) {
    } else if n > 0 {
      FirstOfNextMonthNumber(d);
      AddDaysNumber(FirstOfNextMonth(d), n - (DaysInMonth(d.year, d.month) - d.day + 1));
    } else {
      LastOfPreviousMonthNumber(d);
      AddDaysNumber(LastOfPreviousMonth(d), n + d.day);
    }
  }

  /** Adding days moves the weekday along by the same amount, modulo 7. */
  lemma AddDaysWeekday(d: Date, n: int)
    requires IsCalendarDate(d)
    ensures Weekday(AddDays(d, n)) == (Weekday(d) + n) % 7
  {
    AddDaysNumber(d, n);
    var x := DayNumber(d);
    ModSevenShift(x / 7, x % 7 + n);
    assert x + n == 7 * (x / 7) + (x % 7 + n);
  }

  /** Whole weeks do not change the weekday. */
  lemma ModSevenShift(q: int, z: int)
    ensures (7 * q + z) % 7 == z % 7
  {
  }

  /** The only calendar date with a given day number is the one `AddDays` reaches. */
  lemma AddDaysUnique(d: Date, n: int, e: Date)
    requires IsCalendarDate(d) && IsCalendarDate(e)
    ensures AddDays(d, n) == e <==> DayNumber(e) == DayNumber(d) + n
  {
    AddDaysNumber(d, n);
    DayNumberOrder(AddDays(d, n), e);
  }
}
