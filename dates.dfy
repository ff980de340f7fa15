/**
 A JavaScript `Date` in local time, seen through the accessors the calendar
 component uses: `getFullYear()`, `getMonth()` (0-based), `getDate()` (day of
 the month) and `getTime()`. Every day is exactly 86,400,000 ms long (no time
 zone offset, no daylight-saving shift), and years follow the Gregorian rules.
 */
module Dates {

  const MsPerDay: int := 86_400_000

  /** The calendar fields of a `Date`: year, 0-based month, day of month, milliseconds into the day. */
  datatype Civil = Civil(year: int, month: int, day: int, msOfDay: int)

  predicate IsLeapYear(y: int)
  {
    y % 4 == 0 && (y % 100 != 0 || y % 400 == 0)
  }

  function DaysInMonth(y: int, m: int): (n: int)
    requires 0 <= m < 12
    ensures 28 <= n <= 31
    ensures n == 29 <==> m == 1 && IsLeapYear(y)
  {
    if m == 1 then (if IsLeapYear(y) then 29 else 28)
    else if m == 3 || m == 5 || m == 8 || m == 10 then 30
    else 31
  }

  function DaysInYear(y: int): int
  {
    if IsLeapYear(y) then 366 else 365
  }

  predicate ValidCivil(c: Civil)
  {
    && 0 <= c.month < 12
    && 1 <= c.day <= DaysInMonth(c.year, c.month)
    && 0 <= c.msOfDay < MsPerDay
  }

  /** What a `Date` object can hold: normalised calendar fields. */
  type Date = c: Civil | ValidCivil(c) witness Civil(1970, 0, 1, 0)

  /** Days from the first of January of year `y` to the first day of month `m`. */
  function DaysBeforeMonth(y: int, m: int): (n: int)
    requires 0 <= m <= 12
    ensures 28 * m <= n <= 31 * m
  {
    if m == 0 then 0 else DaysBeforeMonth(y, m - 1) + DaysInMonth(y, m - 1)
  }

  /** Days from 1 January 1970 to 1 January of year `y` (negative before 1970). */
  function DaysBeforeYear(y: int): int
    decreases if y < 1970 then 1970 - y else y - 1970
  {
    if y == 1970 then 0
    else if y > 1970 then DaysBeforeYear(y - 1) + DaysInYear(y - 1)
    else DaysBeforeYear(y + 1) - DaysInYear(y)
  }

  /** The day on which `d` falls, counted from 1 January 1970. */
  function DayNumber(d: Date): int
  {
    DaysBeforeYear(d.year) + DaysBeforeMonth(d.year, d.month) + d.day - 1
  }

  /** `d.getTime()`: milliseconds since 1 January 1970, 00:00; the instant lies within the day `d` falls on. */
  function Time(d: Date): (t: int)
    ensures DayNumber(d) * MsPerDay <= t < DayNumber(d) * MsPerDay + MsPerDay
  {
    DayNumber(d) * MsPerDay + d.msOfDay
  }

  /** `a` and `b` agree on `getDate()`, `getMonth()` and `getFullYear()`. */
  predicate SameDay(a: Date, b: Date)
  {
    a.day == b.day && a.month == b.month && a.year == b.year
  }

  /** The calendar day of `a` comes before that of `b`. */
  predicate DayBefore(a: Date, b: Date)
  {
    || a.year < b.year
    || (a.year == b.year && a.month < b.month)
    || (a.year == b.year && a.month == b.month && a.day < b.day)
  }

  /** `a` is an earlier instant than `b`, read off the calendar fields. */
  predicate Before(a: Date, b: Date)
  {
    DayBefore(a, b) || (SameDay(a, b) && a.msOfDay < b.msOfDay)
  }

  lemma DaysBeforeYearStep(y: int)
    ensures DaysBeforeYear(y + 1) == DaysBeforeYear(y) + DaysInYear(y)
  {
  }

  /** The months of a year add up to the year. */
  lemma DaysBeforeMonthYear(y: int)
    ensures DaysBeforeMonth(y, 12) == DaysInYear(y)
  {
    var f := DaysInMonth(y, 1);
    assert DaysBeforeMonth(y, 1) == 31;
    assert DaysBeforeMonth(y, 2) == 31 + f;
    assert DaysBeforeMonth(y, 3) == 62 + f;
    assert DaysBeforeMonth(y, 4) == 92 + f;
    assert DaysBeforeMonth(y, 5) == 123 + f;
    assert DaysBeforeMonth(y, 6) == 153 + f;
    assert DaysBeforeMonth(y, 7) == 184 + f;
    assert DaysBeforeMonth(y, 8) == 215 + f;
    assert DaysBeforeMonth(y, 9) == 245 + f;
    assert DaysBeforeMonth(y, 10) == 276 + f;
    assert DaysBeforeMonth(y, 11) == 306 + f;
    assert DaysBeforeMonth(y, 12) == 337 + f;
  }

  lemma {:induction false} DaysBeforeYearMonotone(y1: int, y2: int)
    requires y1 < y2
    ensures DaysBeforeYear(y1) + DaysInYear(y1) <= DaysBeforeYear(y2)
    decreases y2 - y1
  {
    DaysBeforeYearStep(y1);
    if y1 + 1 < y2 {
      DaysBeforeYearMonotone(y1 + 1, y2);
    }
  }

  lemma {:induction false} DaysBeforeMonthMonotone(y: int, m1: int, m2: int)
    requires 0 <= m1 < m2 <= 12
    ensures DaysBeforeMonth(y, m1) + DaysInMonth(y, m1) <= DaysBeforeMonth(y, m2)
    decreases m2
  {
    if m1 + 1 < m2 {
      DaysBeforeMonthMonotone(y, m1, m2 - 1);
    }
  }

  /** The day of the year lies inside the year. */
  lemma DayOfYearBounds(d: Date)
    ensures 0 <= DaysBeforeMonth(d.year, d.month) + d.day - 1 < DaysInYear(d.year)
  {
    DaysBeforeMonthMonotone(d.year, d.month, 12);
    DaysBeforeMonthYear(d.year);
  }

  /** Day numbers follow the calendar order of the fields. */
  lemma DayNumberOrder(a: Date, b: Date)
    ensures DayBefore(a, b) ==> DayNumber(a) < DayNumber(b)
    ensures SameDay(a, b) ==> DayNumber(a) == DayNumber(b)
  {
    if a.year < b.year {
      DaysBeforeYearMonotone(a.year, b.year);
      DayOfYearBounds(a);
      DayOfYearBounds(b);
    } else if a.year == b.year && a.month < b.month {
      DaysBeforeMonthMonotone(a.year, a.month, b.month);
    }
  }

  /** Two dates agree on day, month and year exactly when they fall on the same absolute day. */
  lemma SameDayIff(a: Date, b: Date)
    ensures SameDay(a, b) <==> DayNumber(a) == DayNumber(b)
  {
    DayNumberOrder(a, b);
    DayNumberOrder(b, a);
  }

  /** Comparing timestamps is comparing the calendar fields lexicographically, and `getTime()` is injective. */
  lemma TimeOrder(a: Date, b: Date)
    ensures Time(a) < Time(b) <==> Before(a, b)
    ensures Time(a) == Time(b) <==> a == b
  {
    DayNumberOrder(a, b);
    DayNumberOrder(b, a);
  }

  /** An instant lies on the absolute day of `d` when it is at most a day's worth of milliseconds past `d`'s midnight. */
  lemma SameDayByTime(a: Date, d: Date)
    ensures SameDay(a, d) <==> Time(d) - d.msOfDay <= Time(a) < Time(d) - d.msOfDay + MsPerDay
  {
    SameDayIff(a, d);
  }

  /**
   `d.setDate(v)` for a day value `v >= 1`: day `v` counted from the first of
   `d`'s month, rolling over into the following months (and years) when `v`
   passes the end of the month; the time of day is kept.
   */
  function SetDate(d: Date, v: int): (r: Date)
    requires v >= 1
    ensures r.msOfDay == d.msOfDay
    ensures DayNumber(r) == DayNumber(d) - d.day + v
    decreases v
  {
    var n := DaysInMonth(d.year, d.month);
    if v <= n then Civil(d.year, d.month, v, d.msOfDay)
    else if d.month == 11 then
      DaysBeforeYearStep(d.year);
      DaysBeforeMonthYear(d.year);
      SetDate(Civil(d.year + 1, 0, 1, d.msOfDay), v - n)
    else
      SetDate(Civil(d.year, d.month + 1, 1, d.msOfDay), v - n)
  }

  /** `nextWeek.setDate(today.getDate() + 7)` on a copy of `today`: seven days later, same time of day. */
  function NextWeek(today: Date): (r: Date)
    ensures r.msOfDay == today.msOfDay
    ensures DayNumber(r) == DayNumber(today) + 7
    ensures Time(r) == Time(today) + 7 * MsPerDay
  {
    SetDate(today, today.day + 7)
  }
}
