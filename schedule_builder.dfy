/**
 * The weekly view of the shift-schedule engine: generateWeeklySchedule lists
 * the seven days from a week start, each with its label, its date text, the
 * unit on each shift and the noon time preset. The view is given a Sunday
 * (the week start of the selected date), and the lemmas here tie each row to
 * the calendar and to the rota.
 */
module ScheduleBuilder {
  import opened CivilCalendar
  import opened IsoDateText
  import opened CalendarAdapter
  import opened RotationEngine

  /** HEBREW_DAYS: the day labels, Sunday first. */
  const HebrewDays: seq<string> := ["ראשון", "שני", "שלישי", "רביעי", "חמישי", "שישי", "שבת"]

  /**
   * One row of the weekly table. noonTime keeps the key of the noon time
   * preset rather than its display text; the locale display of the date is
   * not modelled.
   */
  datatype DayRecord = DayRecord(day: string, date: string, morning: int, noon: int, night: int, noonTime: ShiftsKey)

  /** The row the weekly table holds for day i of the week starting at weekStartDate. */
  function ScheduledDay(weekStartDate: string, i: int): DayRecord
    requires ParseIsoDateString(weekStartDate).Some? && 0 <= i < 7
  {
    var date := AddDaysToIsoDate(weekStartDate, i);
    AddDaysToIsoDateSpec(weekStartDate, i);
    var z := CreateUtcDateFromIso(date);
    DayRecord(HebrewDays[i], date, RosterUnit(z, Morning), RosterUnit(z, Noon), RosterUnit(z, Night), NoonShiftForDay(date))
  }

  method GenerateWeeklySchedule(weekStartDate: string) returns (schedule: seq<DayRecord>)
    requires ParseIsoDateString(weekStartDate).Some?
    ensures |schedule| == 7
    ensures forall i :: 0 <= i < 7 ==> schedule[i] == ScheduledDay(weekStartDate, i)
  {
    schedule := [];
    var i := 0;
    while i < 7
      invariant 0 <= i <= 7
      invariant |schedule| == i
      invariant forall j :: 0 <= j < i ==> schedule[j] == ScheduledDay(weekStartDate, j)
    {
      var row := DayRow(weekStartDate, i);
      ghost var before := schedule;
      schedule := schedule + [row];
      forall j | 0 <= j < i + 1
        ensures schedule[j] == ScheduledDay(weekStartDate, j)
      {
        if j < i {
          assert schedule[j] == before[j];
        } else {
          assert j == i;
        }
      }
      i := i + 1;
    }
  }

  /** The body of the loop in generateWeeklySchedule: the row for day i. */
  method DayRow(weekStartDate: string, i: int) returns (row: DayRecord)
    requires ParseIsoDateString(weekStartDate).Some? && 0 <= i < 7
    ensures row == ScheduledDay(weekStartDate, i)
  {
    var dateStr := AddDaysToIsoDate(weekStartDate, i);
    AddDaysToIsoDateSpec(weekStartDate, i);
    var noonShiftKey := NoonShiftForDay(dateStr);
    var morning := UnitOnShift(dateStr, Morning);
    var noon := UnitOnShift(dateStr, Noon);
    var night := UnitOnShift(dateStr, Night);
    row := DayRecord(HebrewDays[i], dateStr, morning, noon, night, noonShiftKey);
  }

  /**
   * In a week that starts on a Sunday, row i is dated on weekday i, carries
   * that weekday's label, and has the late noon preset exactly on Sunday,
   * Tuesday and Thursday.
   */
  lemma ScheduledDayWeekday(sunday: string, i: int)
    requires ParseIsoDateString(sunday).Some? && DayOfWeekInIsrael(sunday) == 0
    requires YearStart(0) <= CreateUtcDateFromIso(sunday) && 0 <= i < 7
    ensures ParseIsoDateString(ScheduledDay(sunday, i).date).Some?
    ensures DayOfWeekInIsrael(ScheduledDay(sunday, i).date) == i
    ensures HebrewDays[DayOfWeekInIsrael(ScheduledDay(sunday, i).date)] == ScheduledDay(sunday, i).day
    ensures ScheduledDay(sunday, i).noonTime == if i % 2 == 0 && i < 6 then NoonLateKey else NoonKey
  {
    AddDaysToIsoDateSpec(sunday, i);
    WeekdayAfterSunday(DayOfWeekInIsrael(sunday), i);
    NoonShiftOfWeekDay(sunday, i);
  }

  /** Every row names a different unit on each of its three shifts. */
  lemma ScheduledDayUnitsDistinct(weekStartDate: string, i: int)
    requires ParseIsoDateString(weekStartDate).Some? && 0 <= i < 7
    ensures ScheduledDay(weekStartDate, i).morning != ScheduledDay(weekStartDate, i).noon
    ensures ScheduledDay(weekStartDate, i).noon != ScheduledDay(weekStartDate, i).night
    ensures ScheduledDay(weekStartDate, i).morning != ScheduledDay(weekStartDate, i).night
  {
    AddDaysToIsoDateSpec(weekStartDate, i);
    RosterUnitsDistinct(CreateUtcDateFromIso(AddDaysToIsoDate(weekStartDate, i)));
  }

  /** Each row is dated the day after the previous one. */
  lemma ScheduledDaysConsecutive(weekStartDate: string, i: int)
    requires ParseIsoDateString(weekStartDate).Some? && 0 <= i < 6
    requires YearStart(0) <= CreateUtcDateFromIso(weekStartDate)
    ensures ParseIsoDateString(ScheduledDay(weekStartDate, i).date).Some?
    ensures ScheduledDay(weekStartDate, i + 1).date == AddDaysToIsoDate(ScheduledDay(weekStartDate, i).date, 1)
  {
    AddDaysCompose(weekStartDate, i, 1);
  }

  /** Every row of a week that starts on a Sunday has that Sunday as its week start. */
  lemma ScheduledDayInWeek(sunday: string, i: int)
    requires ParseIsoDateString(sunday).Some? && IsFullDate(sunday)
    requires DayOfWeekInIsrael(sunday) == 0 && YearStart(0) <= CreateUtcDateFromIso(sunday)
    requires 0 <= i < 7
    ensures ParseIsoDateString(ScheduledDay(sunday, i).date).Some?
    ensures WeekStartDate(ScheduledDay(sunday, i).date) == sunday
  {
    WeekStartOfWeekDay(sunday, i);
  }

  /**
   * The weekly table built from the selected date's week start shows the
   * selected date in the row of its weekday, with the units the rota gives
   * that date.
   */
  lemma SelectedDateInWeeklySchedule(text: string)
    requires ParseIsoDateString(text).Some? && IsFullDate(text)
    requires YearStart(0) <= CreateUtcDateFromIso(text) - DayOfWeekInIsrael(text)
    ensures ParseIsoDateString(WeekStartDate(text)).Some?
    ensures ScheduledDay(WeekStartDate(text), DayOfWeekInIsrael(text)).date == text
    ensures ScheduledDay(WeekStartDate(text), DayOfWeekInIsrael(text)).morning == RosterUnit(CreateUtcDateFromIso(text), Morning)
    ensures ScheduledDay(WeekStartDate(text), DayOfWeekInIsrael(text)).noon == RosterUnit(CreateUtcDateFromIso(text), Noon)
    ensures ScheduledDay(WeekStartDate(text), DayOfWeekInIsrael(text)).night == RosterUnit(CreateUtcDateFromIso(text), Night)
  {
    WeekStartReturns(text);
  }
}
