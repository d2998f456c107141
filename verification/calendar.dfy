/**
 * Dates as the server sees them. A JavaScript Date is a count of milliseconds since
 * 1970-01-01T00:00:00Z; the model assumes one fixed timezone (UTC), so local midnight,
 * `toISOString` and `getFullYear` all agree. A day number counts whole days from
 * 1970-01-01 (day 0, a Thursday); a civil date is its proleptic Gregorian year, month, day.
 */
module Calendar {

  const MsPerDay: int := 86_400_000

  /** The day a timestamp falls on (floor division: timestamps before 1970 round down). */
  function DayNumber(t: int): int
  {
    t / MsPerDay
  }

  /** `d.setHours(0, 0, 0, 0)`: the start of the day t falls on. */
  function Midnight(t: int): (m: int)
    ensures m <= t < m + MsPerDay
    ensures m % MsPerDay == 0
    ensures m == DayNumber(t) * MsPerDay
  {
    t - t % MsPerDay
  }

  predicate IsMidnight(t: int)
  {
    t % MsPerDay == 0
  }

  /** `getDay()` of a day number: 0 is Sunday, day 0 (1970-01-01) is a Thursday. */
  function Weekday(d: int): (w: nat)
    ensures w < 7
  {
    (d + 4) % 7
  }

  /** The Sunday on or before day d: `date.setDate(date.getDate() - date.getDay())`. */
  function WeekStart(d: int): (s: int)
    ensures s <= d <= s + 6
    ensures Weekday(s) == 0
  {
    d - Weekday(d)
  }

  /** There is exactly one Sunday among the seven days ending at d, and WeekStart finds it. */
  lemma WeekStartUnique(d: int, s: int)
    requires Weekday(s) == 0 && s <= d <= s + 6
    ensures WeekStart(d) == s
  {
    var k := d - s;
    assert (d + 4) % 7 == ((s + 4) + k) % 7;
  }

  predicate IsLeapYear(y: int)
  {
    y % 4 == 0 && (y % 100 != 0 || y % 400 == 0)
  }

  function YearLength(y: int): nat
  {
    if IsLeapYear(y) then 366 else 365
  }

  function MonthLength(y: int, m: int): nat
    requires 1 <= m <= 12
  {
    if m == 2 then (if IsLeapYear(y) then 29 else 28)
    else if m == 4 || m == 6 || m == 9 || m == 11 then 30
    else 31
  }

  /** Days of year y before the first of month m; m == 13 gives the whole year. */
  function DaysBeforeMonth(y: int, m: int): (n: nat)
    requires 1 <= m <= 13
    ensures m == 13 ==> n == YearLength(y)
  {
    var leap := if IsLeapYear(y) then 1 else 0;
    if m == 1 then 0 else if m == 2 then 31
    else [59, 90, 120, 151, 181, 212, 243, 273, 304, 334, 365][m - 3] + leap
  }

  /** Each month spans exactly its length. */
  lemma MonthSpan(y: int, m: int)
    requires 1 <= m <= 12
    ensures DaysBeforeMonth(y, m + 1) == DaysBeforeMonth(y, m) + MonthLength(y, m)
  {
  }

  /** Day number of January 1 of year y. */
  function DaysBeforeYear(y: int): int
    decreases if y < 1970 then 1970 - y else y - 1970
  {
    if y == 1970 then 0
    else if y > 1970 then DaysBeforeYear(y - 1) + YearLength(y - 1)
    else DaysBeforeYear(y + 1) - YearLength(y)
  }

  lemma NextYear(y: int)
    ensures DaysBeforeYear(y + 1) == DaysBeforeYear(y) + YearLength(y)
  {
  }

  /** The year that contains day d, searching from year y. */
  function LocateYear(y: int, d: int): (year: int)
    ensures DaysBeforeYear(year) <= d < DaysBeforeYear(year) + YearLength(year)
    decreases if d < DaysBeforeYear(y) then DaysBeforeYear(y) - d + 366 else d - DaysBeforeYear(y)
  {
    NextYear(y - 1);
    NextYear(y);
    if d < DaysBeforeYear(y) then LocateYear(y - 1, d)
    else if d < DaysBeforeYear(y) + YearLength(y) then y
    else LocateYear(y + 1, d)
  }

  /** The month of year y that contains day-of-year doy, searching downwards from month m. */
  function LocateMonth(y: int, doy: int, m: int): (month: int)
    requires 1 <= m <= 12
    requires 0 <= doy < DaysBeforeMonth(y, m + 1)
    ensures 1 <= month <= m
    ensures DaysBeforeMonth(y, month) <= doy < DaysBeforeMonth(y, month + 1)
  {
    if m == 1 || DaysBeforeMonth(y, m) <= doy then m else LocateMonth(y, doy, m - 1)
  }

  datatype Civil = Civil(year: int, month: int, day: int)

  predicate ValidCivil(c: Civil)
  {
    1 <= c.month <= 12 && 1 <= c.day <= MonthLength(c.year, c.month)
  }

  /** The calendar date of day number d. */
  function CivilFromDays(d: int): (c: Civil)
    ensures ValidCivil(c)
    ensures DaysFromCivil(c) == d
  {
    var y := LocateYear(1970, d);
    var doy := d - DaysBeforeYear(y);
    var m := LocateMonth(y, doy, 12);
    MonthSpan(y, m);
    Civil(y, m, doy - DaysBeforeMonth(y, m) + 1)
  }

  /**
   * The day number of a calendar date. Months lie in 1..12; a day past the end of its
   * month runs on into the next, as `Date` does.
   */
  function DaysFromCivil(c: Civil): int
    requires 1 <= c.month <= 12
  {
    DaysBeforeYear(c.year) + DaysBeforeMonth(c.year, c.month) + c.day - 1
  }

  /** Different days have different calendar dates, so date keys never merge two days. */
  lemma CivilInjective(d1: int, d2: int)
    requires CivilFromDays(d1) == CivilFromDays(d2)
    ensures d1 == d2
  {
  }

  /** The first of the month of day d lies 0..30 days before d. */
  lemma FirstOfMonthBefore(d: int)
    ensures var c := CivilFromDays(d);
            d - 30 <= DaysFromCivil(Civil(c.year, c.month, 1)) <= d
  {
  }

  /**
   * Day number of the first of the month `index` months after January of year y; the
   * index may be negative or past December, and carries into the year as `setMonth` does.
   */
  function MonthFirst(y: int, index: int): int
  {
    DaysFromCivil(Civil(y + index / 12, index % 12 + 1, 1))
  }

  /** Each month starts after the one before it. */
  lemma MonthFirstStep(y: int, index: int)
    ensures MonthFirst(y, index) < MonthFirst(y, index + 1)
  {
    var year := y + index / 12;
    var m := index % 12 + 1;
    if m < 12 {
      assert (index + 1) / 12 == index / 12 && (index + 1) % 12 + 1 == m + 1;
      MonthSpan(year, m);
    } else {
      assert (index + 1) / 12 == index / 12 + 1 && (index + 1) % 12 == 0;
      NextYear(year);
    }
  }

  /** Later months start later. */
  lemma {:induction false} MonthFirstIncreasing(y: int, i: int, j: int)
    requires i < j
    ensures MonthFirst(y, i) < MonthFirst(y, j)
    decreases j - i
  {
    MonthFirstStep(y, i);
    if i + 1 < j {
      MonthFirstIncreasing(y, i + 1, j);
    }
  }

  /**
   * `setMonth(getMonth() - k)` followed by `setHours(0, 0, 0, 0)`: the same day of the
   * month k months earlier, overflowing into the following month when that month is shorter.
   */
  function MonthsBefore(t: int, k: int): (m: int)
    ensures IsMidnight(m)
  {
    var c := CivilFromDays(DayNumber(t));
    (MonthFirst(c.year, c.month - 1 - k) + c.day - 1) * MsPerDay
  }

  /**
   * Going back no months is today's midnight, and going back further starts strictly
   * earlier: the month window grows with its lookback.
   */
  lemma MonthsBeforeOrder(t: int, k1: int, k2: int)
    ensures MonthsBefore(t, 0) == Midnight(t)
    ensures k1 < k2 ==> MonthsBefore(t, k2) < MonthsBefore(t, k1)
  {
    var c := CivilFromDays(DayNumber(t));
    assert (c.month - 1) / 12 == 0 && (c.month - 1) % 12 == c.month - 1;
    if k1 < k2 {
      MonthFirstIncreasing(c.year, c.month - 1 - k2, c.month - 1 - k1);
    }
  }

  /** `setFullYear(getFullYear() - k)` followed by `setHours(0, 0, 0, 0)`. */
  function YearsBefore(t: int, k: int): (m: int)
    ensures IsMidnight(m)
  {
    var c := CivilFromDays(DayNumber(t));
    (DaysFromCivil(Civil(c.year - k, c.month, 1)) + c.day - 1) * MsPerDay
  }

  /** Going back k years is going back 12k months: the same day and month, k years earlier. */
  lemma YearsAreTwelveMonths(t: int, k: int)
    ensures YearsBefore(t, k) == MonthsBefore(t, 12 * k)
  {
    var c := CivilFromDays(DayNumber(t));
    var index := c.month - 1 - 12 * k;
    assert index == 12 * (-k) + (c.month - 1);
    assert index / 12 == -k && index % 12 == c.month - 1;
  }
}
