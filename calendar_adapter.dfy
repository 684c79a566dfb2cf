/**
 * The calendar adapter of the shift-schedule engine: date text to a UTC-midnight
 * instant (held here as a day number), the weekday of a date, adding days with
 * month and year roll-over, and the Sunday that starts a date's week.
 */
module CalendarAdapter {
  import opened CivilCalendar
  import opened IsoDateText

  /**
   * ECMAScript MakeDay in days: the day Date.UTC(year, month - 1, day) computes
   * after its own step that reads a year in 0..99 as 1900 + year, and the step
   * setUTCDate calls directly. A month outside 1..12 rolls into the year, and a
   * day outside the month rolls into the neighbouring months. Taking the year
   * literally is the corrected reading; CreateUtcDateFromIsoAsWritten adds the
   * two-digit-year step.
   */
  function MakeDay(year: int, month: int, day: int): (z: int)
    ensures ValidDate(Date(year, month, day)) ==> z == DaysFromCivil(Date(year, month, day))
  {
    var y := year + (month - 1) / 12;
    var m := (month - 1) % 12 + 1;
    YearStart(y) + DaysBeforeMonth(y, m) + day - 1
  }

  /** A day past the end of the month rolls on: day + n is n days later (what setUTCDate relies on). */
  lemma MakeDayRollsDays(year: int, month: int, day: int, n: int)
    ensures MakeDay(year, month, day + n) == MakeDay(year, month, day) + n
  {
  }

  /** A month past December rolls into the next year: month + 12 is the same month a year later. */
  lemma MakeDayRollsMonths(year: int, month: int, day: int)
    ensures MakeDay(year, month + 12, day) == MakeDay(year + 1, month, day)
  {
    assert (month + 12 - 1) / 12 == (month - 1) / 12 + 1;
    assert (month + 12 - 1) % 12 == (month - 1) % 12;
  }

  /** createUtcDateFromIso, with the year taken literally (the corrected reading). */
  function CreateUtcDateFromIso(text: string): (z: int)
    requires ParseIsoDateString(text).Some?
    ensures var d := ParseIsoDateString(text).value;
      ValidDate(d) ==> z == DaysFromCivil(d)
  {
    var d := ParseIsoDateString(text).value;
    MakeDay(d.year, d.month, d.day)
  }

  /** Date.UTC reads a year in 0..99 as 1900 + year. */
  function FullYearAsWritten(year: int): int {
    if 0 <= year <= 99 then 1900 + year else year
  }

  /** createUtcDateFromIso as written, with Date.UTC's two-digit year mapping. */
  function CreateUtcDateFromIsoAsWritten(text: string): (z: int)
    requires ParseIsoDateString(text).Some?
    ensures var d := ParseIsoDateString(text).value;
      d.year < 0 || 99 < d.year ==> z == CreateUtcDateFromIso(text)
  {
    var d := ParseIsoDateString(text).value;
    MakeDay(FullYearAsWritten(d.year), d.month, d.day)
  }

  /**
   * As written, the text of a date in years 0..99 is taken for the same day
   * 1900 years later: the instant differs, and so does the date that
   * addDaysToIsoDate(text, 0) would format back.
   */
  lemma TwoDigitYearMisread(d: Date)
    requires ValidDate(d) && 0 <= d.year <= 99
    requires ValidDate(Date(1900 + d.year, d.month, d.day))
    ensures ParseIsoDateString(FormatDate(d)) == Some(d)
    ensures CreateUtcDateFromIsoAsWritten(FormatDate(d)) == DaysFromCivil(Date(1900 + d.year, d.month, d.day))
    ensures CreateUtcDateFromIsoAsWritten(FormatDate(d)) != CreateUtcDateFromIso(FormatDate(d))
    ensures CivilFromDays(CreateUtcDateFromIsoAsWritten(FormatDate(d))) != d
  {
    ParseFormat(d.year, d.month, d.day);
    MisreadDay(d);
  }

  /** The day Date.UTC gives for a two-digit year is not the day of the date itself. */
  lemma MisreadDay(d: Date)
    requires ValidDate(d) && 0 <= d.year <= 99
    requires ValidDate(Date(1900 + d.year, d.month, d.day))
    ensures MakeDay(FullYearAsWritten(d.year), d.month, d.day) == DaysFromCivil(Date(1900 + d.year, d.month, d.day))
    ensures MakeDay(FullYearAsWritten(d.year), d.month, d.day) != DaysFromCivil(d)
    ensures CivilFromDays(MakeDay(FullYearAsWritten(d.year), d.month, d.day)) != d
  {
    var late := Date(1900 + d.year, d.month, d.day);
    assert FullYearAsWritten(d.year) == late.year;
    CivilFromDaysOfDate(late);
    DayInItsYear(d);
    DayInItsYear(late);
    YearStartLess(d.year, late.year);
  }

  /** The misread also moves the weekday: 0050-03-01 was a Tuesday, 1950-03-01 a Wednesday. */
  lemma TwoDigitYearWeekday()
    ensures Weekday(DaysFromCivil(Date(50, 3, 1))) == 2
    ensures Weekday(DaysFromCivil(Date(1950, 3, 1))) == 3
  {
    assert LeapYearsBefore(50) == 12;
    assert LeapYearsBefore(1950) == 472;
    assert LeapYearsBefore(1970) == 477;
    assert DaysFromCivil(Date(50, 3, 1)) == -701206;
    assert DaysFromCivil(Date(1950, 3, 1)) == -7246;
  }

  /** getDayOfWeekInIsrael: the UTC weekday of the date, 0 = Sunday. */
  function DayOfWeekInIsrael(text: string): (w: int)
    requires ParseIsoDateString(text).Some?
    ensures 0 <= w < 7
  {
    Weekday(CreateUtcDateFromIso(text))
  }

  /**
   * The text addDaysToIsoDate produces for the instant n days after day z:
   * the UTC date fields of that instant, zero-padded and joined by '-'.
   */
  function DayText(z: int, n: int): string {
    FormatDate(CivilFromDays(z + n))
  }

  /** addDaysToIsoDate: move the UTC instant by n days and format its date fields. */
  function AddDaysToIsoDate(text: string, n: int): string
    requires ParseIsoDateString(text).Some?
  {
    DayText(CreateUtcDateFromIso(text), n)
  }

  /**
   * The instant setUTCDate(getUTCDate() + n) leaves on the instant of day z:
   * Date.UTC of the same year and month with the day-of-month moved by n.
   */
  function SetUtcDate(z: int, n: int): int {
    var d := CivilFromDays(z);
    MakeDay(d.year, d.month, d.day + n)
  }

  /**
   * Moving the day-of-month by n lands exactly n days later, whatever month
   * or year boundary it crosses; addDaysToIsoDate's instant is therefore z + n.
   */
  lemma SetUtcDateMovesDays(z: int, n: int)
    ensures SetUtcDate(z, n) == z + n
  {
    var d := CivilFromDays(z);
    MakeDayRollsDays(d.year, d.month, d.day, n);
  }

  /** The text of any day can be parsed again. */
  lemma DayTextParses(z: int, n: int)
    ensures ParseIsoDateString(DayText(z, n)).Some?
  {
    var d := CivilFromDays(z + n);
    FormatAlwaysParses(d.year, d.month, d.day);
  }

  /** From year 0 on, the text of a day parses back to the date of that day. */
  lemma DayTextParsesBack(z: int, n: int)
    requires YearStart(0) <= z + n
    ensures ParseIsoDateString(DayText(z, n)) == Some(CivilFromDays(z + n))
  {
    var d := CivilFromDays(z + n);
    DateYearFrom(d, 0);
    ParseFormatDate(d);
  }

  /** From year 0 on, the text of a day converts back to the day itself. */
  lemma DayTextRoundTrip(z: int, n: int)
    requires YearStart(0) <= z + n
    ensures ParseIsoDateString(DayText(z, n)).Some?
    ensures CreateUtcDateFromIso(DayText(z, n)) == z + n
  {
    DayTextParsesBack(z, n);
  }

  /** Between years 0 and 9999 the text of a day is RFC 3339 full-date text. */
  lemma DayTextFullDate(z: int, n: int)
    requires YearStart(0) <= z + n < YearStart(10000)
    ensures IsFullDate(DayText(z, n))
  {
    var d := CivilFromDays(z + n);
    YearWithin(d, 0, 10000);
    FormatIsFullDate(d);
  }

  /** The text depends only on the day reached. */
  lemma DayTextSame(z1: int, n1: int, z2: int, n2: int)
    requires z1 + n1 == z2 + n2
    ensures DayText(z1, n1) == DayText(z2, n2)
  {
    DaysFromCivilInjective(CivilFromDays(z1 + n1), CivilFromDays(z2 + n2));
  }

  /**
   * DayTextSame with the second offset kept as the sum a + b, so that the
   * solver matches it against a text built with offset a + b.
   */
  lemma DayTextSum(z1: int, n1: int, z2: int, a: int, b: int)
    requires z1 + n1 == z2 + a + b
    ensures DayText(z1, n1) == DayText(z2, a + b)
  {
    DaysFromCivilInjective(CivilFromDays(z1 + n1), CivilFromDays(z2 + (a + b)));
  }

  /** RFC 3339 full-date text is the text of its own day. */
  lemma DayTextOfFullDate(text: string)
    requires ParseIsoDateString(text).Some? && IsFullDate(text)
    ensures DayText(CreateUtcDateFromIso(text), 0) == text
  {
    FormatParse(text);
    CivilFromDaysOfDate(ParseIsoDateString(text).value);
  }

  /**
   * The result of addDaysToIsoDate always parses. From year 0 on it names the
   * valid date n days on, whose weekday is n further on; up to year 9999 it
   * is RFC 3339 full-date text.
   */
  lemma AddDaysToIsoDateSpec(text: string, n: int)
    requires ParseIsoDateString(text).Some?
    ensures ParseIsoDateString(AddDaysToIsoDate(text, n)).Some?
    ensures YearStart(0) <= CreateUtcDateFromIso(text) + n ==>
      && CreateUtcDateFromIso(AddDaysToIsoDate(text, n)) == CreateUtcDateFromIso(text) + n
      && DayOfWeekInIsrael(AddDaysToIsoDate(text, n)) == WeekdayAfter(DayOfWeekInIsrael(text), n)
    ensures YearStart(0) <= CreateUtcDateFromIso(text) + n < YearStart(10000) ==>
      IsFullDate(AddDaysToIsoDate(text, n))
  {
    DayTextParses(CreateUtcDateFromIso(text), n);
    if YearStart(0) <= CreateUtcDateFromIso(text) + n {
      DayTextRoundTrip(CreateUtcDateFromIso(text), n);
      WeekdayShift(CreateUtcDateFromIso(text), n, CreateUtcDateFromIso(AddDaysToIsoDate(text, n)));
      if CreateUtcDateFromIso(text) + n < YearStart(10000) {
        DayTextFullDate(CreateUtcDateFromIso(text), n);
      }
    }
  }

  /** Two dates moved to the same day give the same text. */
  lemma AddDaysSame(t1: string, n1: int, t2: string, n2: int)
    requires ParseIsoDateString(t1).Some? && ParseIsoDateString(t2).Some?
    requires CreateUtcDateFromIso(t1) + n1 == CreateUtcDateFromIso(t2) + n2
    ensures AddDaysToIsoDate(t1, n1) == AddDaysToIsoDate(t2, n2)
  {
    DayTextSame(CreateUtcDateFromIso(t1), n1, CreateUtcDateFromIso(t2), n2);
  }

  /** AddDaysSame with the second offset kept as the sum a + b (see DayTextSum). */
  lemma AddDaysSum(t1: string, n1: int, t2: string, a: int, b: int)
    requires ParseIsoDateString(t1).Some? && ParseIsoDateString(t2).Some?
    requires CreateUtcDateFromIso(t1) + n1 == CreateUtcDateFromIso(t2) + a + b
    ensures AddDaysToIsoDate(t1, n1) == AddDaysToIsoDate(t2, a + b)
  {
    DayTextSum(CreateUtcDateFromIso(t1), n1, CreateUtcDateFromIso(t2), a, b);
  }

  /** The step from a date whose weekday is w back to the Sunday that starts its week. */
  function DaysBackToSunday(w: int): int {
    -w
  }

  /** Stepping back by DaysBackToSunday moves at most six days and lands on a Sunday. */
  lemma DaysBackReachesSunday(w: int)
    requires 0 <= w < 7
    ensures -6 <= DaysBackToSunday(w) <= 0
    ensures WeekdayAfter(w, DaysBackToSunday(w)) == 0
  {
  }

  /** getWeekStartDate: step back to the Sunday that starts the date's week. */
  function WeekStartDate(text: string): string
    requires ParseIsoDateString(text).Some?
  {
    AddDaysToIsoDate(text, DaysBackToSunday(DayOfWeekInIsrael(text)))
  }

  /** The week start is a Sunday, at most six days before the date and never after it. */
  lemma WeekStartIsSunday(text: string)
    requires ParseIsoDateString(text).Some?
    requires YearStart(0) <= CreateUtcDateFromIso(text) - DayOfWeekInIsrael(text)
    ensures ParseIsoDateString(WeekStartDate(text)).Some?
    ensures DayOfWeekInIsrael(WeekStartDate(text)) == 0
    ensures CreateUtcDateFromIso(WeekStartDate(text)) == CreateUtcDateFromIso(text) - DayOfWeekInIsrael(text)
    ensures CreateUtcDateFromIso(text) - 6 <= CreateUtcDateFromIso(WeekStartDate(text)) <= CreateUtcDateFromIso(text)
  {
    AddDaysToIsoDateSpec(text, DaysBackToSunday(DayOfWeekInIsrael(text)));
    DaysBackReachesSunday(DayOfWeekInIsrael(text));
  }

  // ---------------------------------------------------------------------------
  // Day arithmetic on text

  /** Adding no days to RFC 3339 full-date text gives the same text back. */
  lemma AddZeroDays(text: string)
    requires ParseIsoDateString(text).Some? && IsFullDate(text)
    ensures AddDaysToIsoDate(text, 0) == text
  {
    DayTextOfFullDate(text);
  }

  /** Adding a days and then b days is adding a + b days. */
  lemma AddDaysCompose(text: string, a: int, b: int)
    requires ParseIsoDateString(text).Some?
    requires YearStart(0) <= CreateUtcDateFromIso(text) + a
    ensures ParseIsoDateString(AddDaysToIsoDate(text, a)).Some?
    ensures AddDaysToIsoDate(AddDaysToIsoDate(text, a), b) == AddDaysToIsoDate(text, a + b)
  {
    AddDaysToIsoDateSpec(text, a);
    AddDaysSum(AddDaysToIsoDate(text, a), b, text, a, b);
  }

  /** Going back to the week start and forward by the weekday returns to the date. */
  lemma WeekStartReturns(text: string)
    requires ParseIsoDateString(text).Some? && IsFullDate(text)
    requires YearStart(0) <= CreateUtcDateFromIso(text) - DayOfWeekInIsrael(text)
    ensures ParseIsoDateString(WeekStartDate(text)).Some?
    ensures AddDaysToIsoDate(WeekStartDate(text), DayOfWeekInIsrael(text)) == text
  {
    WeekStartIsSunday(text);
    AddZeroDays(text);
    AddDaysSame(WeekStartDate(text), DayOfWeekInIsrael(text), text, 0);
  }

  /** Every day of a week starting on a Sunday has that Sunday as its week start. */
  lemma WeekStartOfWeekDay(sunday: string, i: int)
    requires ParseIsoDateString(sunday).Some? && IsFullDate(sunday)
    requires DayOfWeekInIsrael(sunday) == 0 && YearStart(0) <= CreateUtcDateFromIso(sunday)
    requires 0 <= i < 7
    ensures ParseIsoDateString(AddDaysToIsoDate(sunday, i)).Some?
    ensures WeekStartDate(AddDaysToIsoDate(sunday, i)) == sunday
  {
    AddDaysToIsoDateSpec(sunday, i);
    WeekdayAfterSunday(DayOfWeekInIsrael(sunday), i);
    AddZeroDays(sunday);
    var t := AddDaysToIsoDate(sunday, i);
    AddDaysSame(t, DaysBackToSunday(DayOfWeekInIsrael(t)), sunday, 0);
  }
}
