/**
 * The proleptic Gregorian calendar, counted in whole days since 1970-01-01,
 * as used to turn a frame's UTC timestamp into a calendar date
 * (src/timelapse.py:108). Dates are built from two independent tables (the
 * length of each month and the days before each month) that are proved to
 * agree, and conversion from a day count is proved to be the inverse of
 * the day count of a date.
 */
module Calendar {

  /** Milliseconds in one UTC day. */
  const MillisPerDay: int := 86_400_000

  datatype Date = Date(year: int, month: int, day: int)

  predicate IsLeap(y: int)
  {
    y % 4 == 0 && (y % 100 != 0 || y % 400 == 0)
  }

  function YearLength(y: int): nat
  {
    if IsLeap(y) then 366 else 365
  }

  /** Days in month `m` of year `y`. */
  function DaysInMonth(y: int, m: int): nat
    requires 1 <= m <= 12
  {
    if m == 2 then (if IsLeap(y) then 29 else 28)
    else if m in {4, 6, 9, 11} then 30
    else 31
  }

  /** Days of year `y` before the first day of month `m` (`m == 13`: the whole year). */
  function DaysBeforeMonth(y: int, m: int): nat
    requires 1 <= m <= 13
  {
    [0, 31, 59, 90, 120, 151, 181, 212, 243, 273, 304, 334, 365][m - 1]
      + (if m > 2 && IsLeap(y) then 1 else 0)
  }

  /** The cumulative table is the running sum of the month lengths and ends with the year. */
  lemma MonthTablesAgree(y: int, m: int)
    requires 1 <= m <= 12
    ensures DaysBeforeMonth(y, m + 1) == DaysBeforeMonth(y, m) + DaysInMonth(y, m)
    ensures DaysBeforeMonth(y, 1) == 0 && DaysBeforeMonth(y, 13) == YearLength(y)
  {
  }

  /** The cumulative table never decreases. */
  lemma MonthsIncrease(y: int, a: int, b: int)
    requires 1 <= a <= b <= 13
    ensures DaysBeforeMonth(y, a) <= DaysBeforeMonth(y, b)
  {
  }

  /** Number of leap years among 1..x (negated count of the years x+1..0 when x < 0). */
  function Leaps(x: int): int
  {
    x / 4 - x / 100 + x / 400
  }

  /** Day number of January 1st of year `y`; 1970 is day 0. */
  function DaysBeforeYear(y: int): int
  {
    365 * (y - 1970) + Leaps(y - 1) - Leaps(1969)
  }

  /** Consecutive years are one year length apart. */
  lemma YearStep(y: int)
    ensures DaysBeforeYear(y + 1) == DaysBeforeYear(y) + YearLength(y)
  {
    assert y / 4 - (y - 1) / 4 == (if y % 4 == 0 then 1 else 0);
    assert y / 100 - (y - 1) / 100 == (if y % 100 == 0 then 1 else 0);
    assert y / 400 - (y - 1) / 400 == (if y % 400 == 0 then 1 else 0);
    assert y % 400 == 0 ==> y % 100 == 0;
    assert y % 100 == 0 ==> y % 4 == 0;
  }

  /** `DaysBeforeYear` is strictly increasing. */
  lemma {:induction false} YearsIncrease(y: int, z: int)
    requires y < z
    ensures DaysBeforeYear(y) + 365 * (z - y) <= DaysBeforeYear(z)
    decreases z - y
  {
    YearStep(y);
    if y + 1 < z {
      YearsIncrease(y + 1, z);
    }
  }

  predicate ValidDate(d: Date)
  {
    1 <= d.month <= 12 && 1 <= d.day <= DaysInMonth(d.year, d.month)
  }

  /** Days since 1970-01-01 of a date. */
  function DaysFromCivil(d: Date): int
    requires 1 <= d.month <= 12
  {
    DaysBeforeYear(d.year) + DaysBeforeMonth(d.year, d.month) + d.day - 1
  }

  /** A valid date falls inside its own year. */
  lemma DateInsideYear(d: Date)
    requires ValidDate(d)
    ensures DaysBeforeYear(d.year) <= DaysFromCivil(d) < DaysBeforeYear(d.year + 1)
  {
    MonthTablesAgree(d.year, d.month);
    assert DaysBeforeMonth(d.year, d.month + 1) <= DaysBeforeMonth(d.year, 13);
    YearStep(d.year);
  }

  /** Searching upward from year `y` for the year that holds day `days`. */
  function YearUp(days: int, y: int): (r: int)
    requires DaysBeforeYear(y) <= days
    ensures DaysBeforeYear(r) <= days < DaysBeforeYear(r + 1)
    decreases days - DaysBeforeYear(y)
  {
    YearStep(y);
    if days < DaysBeforeYear(y + 1) then y else YearUp(days, y + 1)
  }

  /** Searching downward from year `y` for the year that holds day `days`. */
  function YearDown(days: int, y: int): (r: int)
    requires days < DaysBeforeYear(y + 1)
    ensures DaysBeforeYear(r) <= days < DaysBeforeYear(r + 1)
    decreases DaysBeforeYear(y + 1) - days
  {
    YearStep(y);
    if DaysBeforeYear(y) <= days then y else YearDown(days, y - 1)
  }

  /** The year holding day `days`. */
  function YearOf(days: int): (r: int)
    ensures DaysBeforeYear(r) <= days < DaysBeforeYear(r + 1)
  {
    if days >= 0 then YearUp(days, 1970) else YearDown(days, 1969)
  }

  /** Searching upward from month `m` for the month of year `y` that holds day-of-year `doy`. */
  function MonthFrom(y: int, doy: int, m: int): (r: int)
    requires 1 <= m <= 12
    requires DaysBeforeMonth(y, m) <= doy < YearLength(y)
    ensures m <= r <= 12
    ensures DaysBeforeMonth(y, r) <= doy < DaysBeforeMonth(y, r + 1)
    decreases 12 - m
  {
    MonthTablesAgree(y, m);
    if doy < DaysBeforeMonth(y, m + 1) then m else MonthFrom(y, doy, m + 1)
  }

  /**
   * The calendar date of day `days`: a valid date whose day count is
   * `days`, so this is a right inverse of `DaysFromCivil`.
   */
  function CivilFromDays(days: int): (d: Date)
    ensures ValidDate(d)
    ensures DaysFromCivil(d) == days
  {
    var y := YearOf(days);
    YearStep(y);
    var doy := days - DaysBeforeYear(y);
    MonthTablesAgree(y, 1);
    var m := MonthFrom(y, doy, 1);
    MonthTablesAgree(y, m);
    Date(y, m, doy - DaysBeforeMonth(y, m) + 1)
  }

  /** Only one year can hold a given day. */
  lemma YearUnique(days: int, y: int, z: int)
    requires DaysBeforeYear(y) <= days < DaysBeforeYear(y + 1)
    requires DaysBeforeYear(z) <= days < DaysBeforeYear(z + 1)
    ensures y == z
  {
    if y + 1 < z { YearsIncrease(y + 1, z); }
    if z + 1 < y { YearsIncrease(z + 1, y); }
  }

  /**
   * The other direction of the round trip: every valid date is the one
   * `CivilFromDays` gives for its own day count.
   */
  lemma CivilRoundTrip(d: Date)
    requires ValidDate(d)
    ensures CivilFromDays(DaysFromCivil(d)) == d
  {
    var days := DaysFromCivil(d);
    var e := CivilFromDays(days);
    DateInsideYear(d);
    DateInsideYear(e);
    YearUnique(days, d.year, e.year);
    MonthTablesAgree(d.year, d.month);
    MonthTablesAgree(d.year, e.month);
    if d.month < e.month {
      MonthsIncrease(d.year, d.month + 1, e.month);
    } else if e.month < d.month {
      MonthsIncrease(d.year, e.month + 1, d.month);
    }
  }

  /** The UTC day of an epoch-millisecond timestamp (floor division, also before 1970). */
  function DayOfMillis(ms: int): (days: int)
    ensures days * MillisPerDay <= ms < (days + 1) * MillisPerDay
  {
    ms / MillisPerDay
  }

  /** The UTC calendar date of an epoch-millisecond timestamp. */
  function DateOfMillis(ms: int): (d: Date)
    ensures ValidDate(d)
    ensures DaysFromCivil(d) * MillisPerDay <= ms < (DaysFromCivil(d) + 1) * MillisPerDay
  {
    CivilFromDays(DayOfMillis(ms))
  }
}
