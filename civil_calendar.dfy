/**
 * The proleptic Gregorian calendar on day numbers, as the UTC date arithmetic
 * of the shift-schedule engine uses it: day 0 is 1970-01-01, every day has a
 * number, negative before the epoch. DaysFromCivil and CivilFromDays convert
 * between (year, month, day) triples and day numbers and are proved inverse.
 */
module CivilCalendar {

  /** A calendar date as a (year, month, day) triple; month and day are 1-based. */
  datatype Date = Date(year: int, month: int, day: int)

  predicate IsLeapYear(y: int) {
    y % 4 == 0 && (y % 100 != 0 || y % 400 == 0)
  }

  function DaysInYear(y: int): int {
    if IsLeapYear(y) then 366 else 365
  }

  function DaysInMonth(y: int, m: int): int
    requires 1 <= m <= 12
  {
    if m == 2 then (if IsLeapYear(y) then 29 else 28)
    else if m == 4 || m == 6 || m == 9 || m == 11 then 30
    else 31
  }

  predicate ValidDate(d: Date) {
    1 <= d.month <= 12 && 1 <= d.day <= DaysInMonth(d.year, d.month)
  }

  /** Days of year y before the first of month m; m == 13 gives the whole year. */
  function DaysBeforeMonth(y: int, m: int): int
    requires 1 <= m <= 13
  {
    var common :=
      if m == 1 then 0 else if m == 2 then 31 else if m == 3 then 59
      else if m == 4 then 90 else if m == 5 then 120 else if m == 6 then 151
      else if m == 7 then 181 else if m == 8 then 212 else if m == 9 then 243
      else if m == 10 then 273 else if m == 11 then 304 else if m == 12 then 334
      else 365;
    common + (if m >= 3 && IsLeapYear(y) then 1 else 0)
  }

  /** Leap years strictly before year y, counted from a fixed origin (floor division). */
  function LeapYearsBefore(y: int): int {
    (y - 1) / 4 - (y - 1) / 100 + (y - 1) / 400
  }

  /** Day number of January 1 of year y. */
  function YearStart(y: int): int {
    365 * (y - 1970) + LeapYearsBefore(y) - LeapYearsBefore(1970)
  }

  /** Day number of a valid date: days since 1970-01-01. */
  function DaysFromCivil(d: Date): int
    requires ValidDate(d)
  {
    YearStart(d.year) + DaysBeforeMonth(d.year, d.month) + d.day - 1
  }

  /** Weekday of a day number, 0 = Sunday (1970-01-01 was a Thursday). */
  function Weekday(z: int): (w: int)
    ensures 0 <= w < 7
  {
    (z + 4) % 7
  }

  // ---------------------------------------------------------------------------
  // Year and month structure

  lemma FloorStep4(y: int)
    ensures y / 4 - (y - 1) / 4 == if y % 4 == 0 then 1 else 0
  {
  }

  lemma FloorStep100(y: int)
    ensures y / 100 - (y - 1) / 100 == if y % 100 == 0 then 1 else 0
  {
  }

  lemma FloorStep400(y: int)
    ensures y / 400 - (y - 1) / 400 == if y % 400 == 0 then 1 else 0
  {
  }

  /** One more leap year is counted exactly when the year passed over is a leap year. */
  lemma YearStartStep(y: int)
    ensures YearStart(y + 1) == YearStart(y) + DaysInYear(y)
  {
    FloorStep4(y);
    FloorStep100(y);
    FloorStep400(y);
  }

  /** YearStartStep read backwards: the year before y ends where y starts. */
  lemma YearStartStepBack(y: int)
    ensures YearStart(y - 1) + DaysInYear(y - 1) == YearStart(y)
  {
    YearStartStep(y - 1);
  }

  lemma {:induction false} YearStartMonotone(a: int, b: int)
    requires a < b
    ensures YearStart(a) + 365 * (b - a) <= YearStart(b)
    decreases b - a
  {
    YearStartStep(a);
    if a + 1 < b {
      YearStartMonotone(a + 1, b);
    }
  }

  lemma DaysBeforeMonthStep(y: int, m: int)
    requires 1 <= m <= 12
    ensures DaysBeforeMonth(y, m + 1) == DaysBeforeMonth(y, m) + DaysInMonth(y, m)
    ensures DaysBeforeMonth(y, 13) == DaysInYear(y)
  {
  }

  // ---------------------------------------------------------------------------
  // From a day number back to a date

  /** The year containing day z, searching upwards from year y. */
  function YearUp(z: int, y: int): (r: int)
    requires YearStart(y) <= z
    ensures YearStart(r) <= z < YearStart(r + 1)
    decreases z - YearStart(y)
  {
    YearStartStep(y);
    if z < YearStart(y + 1) then y else YearUp(z, y + 1)
  }

  /** The year containing day z, searching downwards from year y. */
  function YearDown(z: int, y: int): (r: int)
    requires z < YearStart(y)
    ensures YearStart(r) <= z < YearStart(r + 1)
    decreases YearStart(y) - z
  {
    YearStartStepBack(y);
    if YearStart(y - 1) <= z then y - 1 else YearDown(z, y - 1)
  }

  /** The year containing day z. */
  function YearOfDay(z: int): (r: int)
    ensures YearStart(r) <= z < YearStart(r + 1)
  {
    if 0 <= z then YearUp(z, 1970) else YearDown(z, 1970)
  }

  /** The month of year y containing day-of-year r (0-based), searching from month m. */
  function MonthOfDay(y: int, r: int, m: int): (res: int)
    requires 1 <= m <= 12
    requires DaysBeforeMonth(y, m) <= r < DaysInYear(y)
    ensures m <= res <= 12
    ensures DaysBeforeMonth(y, res) <= r < DaysBeforeMonth(y, res) + DaysInMonth(y, res)
    decreases 12 - m
  {
    DaysBeforeMonthStep(y, m);
    if r < DaysBeforeMonth(y, m) + DaysInMonth(y, m) then m else MonthOfDay(y, r, m + 1)
  }

  /** The date of day number z (what getUTCFullYear/getUTCMonth/getUTCDate report). */
  function CivilFromDays(z: int): (d: Date)
    ensures ValidDate(d) && DaysFromCivil(d) == z
  {
    var y := YearOfDay(z);
    YearStartStep(y);
    var r := z - YearStart(y);
    var m := MonthOfDay(y, r, 1);
    Date(y, m, r - DaysBeforeMonth(y, m) + 1)
  }

  // ---------------------------------------------------------------------------
  // Uniqueness: every valid date is recovered from its day number

  /** A later year starts no earlier than the end of an earlier one. */
  lemma YearStartLess(a: int, b: int)
    requires a < b
    ensures YearStart(a + 1) <= YearStart(b)
  {
    if a + 1 < b {
      YearStartMonotone(a + 1, b);
    }
  }

  lemma YearOfDayUnique(z: int, y: int)
    requires YearStart(y) <= z < YearStart(y + 1)
    ensures YearOfDay(z) == y
  {
    var r := YearOfDay(z);
    if r < y {
      YearStartLess(r, y);
    } else if y < r {
      YearStartLess(y, r);
    }
  }

  lemma MonthOfDayUnique(y: int, r: int, m0: int, m: int)
    requires 1 <= m0 <= m <= 12
    requires DaysBeforeMonth(y, m) <= r < DaysBeforeMonth(y, m) + DaysInMonth(y, m)
    ensures DaysBeforeMonth(y, m0) <= r < DaysInYear(y)
    ensures MonthOfDay(y, r, m0) == m
  {
    MonthStartsBefore(y, m0, m);
    MonthEndsInYear(y, m);
    MonthContainingUnique(y, r, MonthOfDay(y, r, m0), m);
  }

  /** At most one month contains a given day of the year. */
  lemma MonthContainingUnique(y: int, r: int, a: int, b: int)
    requires 1 <= a <= 12 && 1 <= b <= 12
    requires DaysBeforeMonth(y, a) <= r < DaysBeforeMonth(y, a) + DaysInMonth(y, a)
    requires DaysBeforeMonth(y, b) <= r < DaysBeforeMonth(y, b) + DaysInMonth(y, b)
    ensures a == b
  {
    if a < b {
      DaysBeforeMonthStep(y, a);
      MonthStartsBefore(y, a + 1, b);
    } else if b < a {
      DaysBeforeMonthStep(y, b);
      MonthStartsBefore(y, b + 1, a);
    }
  }

  /** Months start in calendar order. */
  lemma {:induction false} MonthStartsBefore(y: int, m0: int, m: int)
    requires 1 <= m0 <= m <= 13
    ensures DaysBeforeMonth(y, m0) <= DaysBeforeMonth(y, m)
    decreases m - m0
  {
    if m0 < m {
      DaysBeforeMonthStep(y, m0);
      MonthStartsBefore(y, m0 + 1, m);
    }
  }

  /** A month ends no later than its year. */
  lemma MonthEndsInYear(y: int, m: int)
    requires 1 <= m <= 12
    ensures DaysBeforeMonth(y, m) + DaysInMonth(y, m) <= DaysInYear(y)
  {
  }

  /** Round trip: a valid date comes back from its own day number. */
  lemma CivilFromDaysOfDate(d: Date)
    requires ValidDate(d)
    ensures CivilFromDays(DaysFromCivil(d)) == d
  {
    var z := DaysFromCivil(d);
    DayInItsYear(d);
    YearOfDayUnique(z, d.year);
    MonthOfDayUnique(d.year, z - YearStart(d.year), 1, d.month);
  }

  /** Two valid dates with the same day number are the same date. */
  lemma DaysFromCivilInjective(d1: Date, d2: Date)
    requires ValidDate(d1) && ValidDate(d2)
    requires DaysFromCivil(d1) == DaysFromCivil(d2)
    ensures d1 == d2
  {
    CivilFromDaysOfDate(d1);
    CivilFromDaysOfDate(d2);
  }

  /** A date's day number lies within its own year. */
  lemma DayInItsYear(d: Date)
    requires ValidDate(d)
    ensures YearStart(d.year) <= DaysFromCivil(d) < YearStart(d.year + 1)
  {
    YearStartStep(d.year);
    DaysBeforeMonthStep(d.year, d.month);
    assert d.month <= 12 ==> DaysBeforeMonth(d.year, d.month + 1) <= DaysInYear(d.year);
  }

  /** A day number lying between the starts of years lo and hi belongs to a year in [lo, hi). */
  lemma YearWithin(d: Date, lo: int, hi: int)
    requires ValidDate(d)
    requires YearStart(lo) <= DaysFromCivil(d) < YearStart(hi)
    ensures lo <= d.year < hi
  {
    DayInItsYear(d);
    if d.year < lo {
      YearStartLess(d.year, lo);
    }
    if hi <= d.year {
      if hi < d.year { YearStartMonotone(hi, d.year); }
    }
  }

  /** A date on or after the start of year y0 is in year y0 or later. */
  lemma DateYearFrom(d: Date, y0: int)
    requires ValidDate(d) && YearStart(y0) <= DaysFromCivil(d)
    ensures y0 <= d.year
  {
    DayInItsYear(d);
    if d.year < y0 {
      YearStartLess(d.year, y0);
    }
  }

  /** The weekday n days after a day whose weekday is w. */
  function WeekdayAfter(w: int, n: int): (r: int)
    ensures 0 <= r < 7
  {
    (w + n) % 7
  }

  /** The weekday of day z + n is the weekday n days after that of z. */
  lemma WeekdayShift(z: int, n: int, s: int)
    requires s == z + n
    ensures Weekday(s) == WeekdayAfter(Weekday(z), n)
  {
    var w := Weekday(z);
    var q := (z + 4) / 7;
    var t := WeekdayAfter(w, n);
    var k := (w + n) / 7;
    assert s + 4 == 7 * (q + k) + t;
    RemainderUnique(s + 4, q + k, t);
  }

  /** The remainder by 7 is the only r in [0, 7) with a == 7 * q + r. */
  lemma RemainderUnique(a: int, q: int, r: int)
    requires a == 7 * q + r && 0 <= r < 7
    ensures a % 7 == r
  {
  }

  /** From a Sunday, the weekday after n < 7 days is n. */
  lemma WeekdayAfterSunday(w: int, n: int)
    requires w == 0 && 0 <= n < 7
    ensures WeekdayAfter(w, n) == n
  {
  }
}
