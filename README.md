# Shift rotation and calendar engine

This project models the rotation and calendar engine of the shift-schedule app (`shift-schedule.jsx`). For a `YYYY-MM-DD` date and one of the shifts `morning`, `noon` or `night`, the engine decides which of three duty units (1 to 3) is on duty. Units follow a three-week rota anchored at Sunday 2026-02-22. The engine also decides whether the noon shift uses its early or its late time preset. It builds the seven rows of the weekly table from the Sunday that starts the selected date's week.

The model has five modules:

- `CivilCalendar` (`civil_calendar.dfy`) is the proleptic Gregorian calendar on day numbers.
  - Day 0 is 1970-01-01, as in JavaScript's `Date.UTC`.
  - `DaysFromCivil` and `CivilFromDays` are proved inverse on valid dates.
  - The weekday of day `z` is `(z + 4) mod 7`, with 0 = Sunday.
- `IsoDateText` (`iso_date_text.dfy`) holds `formatDatePartsToIso` and `parseIsoDateString` over strings.
  - The fields are written with `toString` and `padStart`.
  - The text is split on `'-'`, and the fields are read back as `Number` reads a string of digits.
- `CalendarAdapter` (`calendar_adapter.dfy`) holds the calendar helpers over day numbers:
  - `createUtcDateFromIso`, with the month and day roll-over of `Date.UTC`, and with the year taken literally (the corrected reading; see "## Findings" for the years 0..99);
  - `getDayOfWeekInIsrael`;
  - `addDaysToIsoDate`, with its `setUTCDate` step;
  - `getWeekStartDate`.
- `RotationEngine` (`rotation_engine.dfy`) holds `getNoonShiftForDay`, `getUnitByOffset` and `getUnitOnShift`.
  - The rota is also written as a table indexed by the day of the 21-day cycle (`RosterUnit`).
  - The method that follows the source's arithmetic and if/else chain is proved to agree with that table on every date.
- `ScheduleBuilder` (`schedule_builder.dfy`) holds `generateWeeklySchedule` as a method whose loop appends one record per day.
  - Every record is proved equal to the record the rota gives for that day.

A JavaScript `Date` at UTC midnight is modelled by its day number. `timeDiff / DAY_IN_MS` between two such instants is therefore the exact difference of their day numbers.

## Model

| member | source | states |
|---|---|---|
| CivilCalendar.CivilFromDays | shift-schedule.jsx:49-51 | The UTC year, month and day of an instant form a valid date whose day number is that instant's. |
| CivilCalendar.CivilFromDaysOfDate | shift-schedule.jsx:49-51 | Every valid date comes back unchanged from its own day number. |
| CivilCalendar.DaysFromCivilInjective | shift-schedule.jsx:34 | Two valid dates with the same day number are the same date. |
| CivilCalendar.WeekdayShift | shift-schedule.jsx:42 | The weekday of the day n days after z is the weekday of z moved on by n, modulo 7. |
| IsoDateText.NatToStringValue | shift-schedule.jsx:10 | `Number` reads back exactly the value that `toString` wrote for a non-negative integer, as a string of digits. |
| IsoDateText.PadStartZeros | shift-schedule.jsx:10 | `padStart(width, '0')` prepends exactly the missing zeros, and leaves a string that is long enough unchanged. |
| IsoDateText.SplitThree | shift-schedule.jsx:13 | Splitting three dash-free fields joined by '-' gives back exactly those three fields. |
| IsoDateText.FormatAlwaysParses | shift-schedule.jsx:9-15 | The text formatDatePartsToIso writes for any integer fields always parses: its first three '-'-separated parts are digit strings. A negative field adds parts (year -1 gives "00-1-01-01"), so the parsed date need not be the formatted one. |
| IsoDateText.ParseFormat | shift-schedule.jsx:9-15 | Parsing the formatted text of non-negative year, month and day gives back exactly that triple. |
| IsoDateText.FormatIsFullDate | shift-schedule.jsx:9-10 | A valid date in years 0..9999 is formatted as RFC 3339 full-date text: 4, 2 and 2 digits with dashes at positions 4 and 7. |
| IsoDateText.FormatParse | shift-schedule.jsx:9-15 | Full-date text parses to a valid date, and formatting that date gives the same text back. |
| CalendarAdapter.MakeDay | shift-schedule.jsx:34 | ECMAScript MakeDay: the day `Date.UTC(year, month - 1, day)` computes after its 0..99 → 1900 + year step, and the step `setUTCDate` calls directly. For a valid date it is that date's day number. This is the corrected reading of the year; see "## Findings". |
| CalendarAdapter.MakeDayRollsDays | shift-schedule.jsx:34 | A day-of-month outside the month rolls into the neighbouring months: day + n is n days later. |
| CalendarAdapter.MakeDayRollsMonths | shift-schedule.jsx:34 | In ECMAScript MakeDay (the step after `Date.UTC`'s two-digit-year step), month + 12 is the same month of the next year. |
| CalendarAdapter.CreateUtcDateFromIso | shift-schedule.jsx:32-35 | The instant of text that parses to a valid date is that date's day number. |
| CalendarAdapter.CreateUtcDateFromIsoAsWritten | shift-schedule.jsx:32-35 | As written, with `Date.UTC`'s two-digit years; it agrees with the corrected version outside years 0..99. |
| CalendarAdapter.TwoDigitYearMisread | shift-schedule.jsx:34 | The text of a date in years 0..99 is taken as the same day 1900 years later: a different instant, which maps back to a different date. |
| CalendarAdapter.TwoDigitYearWeekday | shift-schedule.jsx:34 | The misread can change the weekday: 0050-03-01 is a Tuesday and 1950-03-01 a Wednesday. |
| CalendarAdapter.DayOfWeekInIsrael | shift-schedule.jsx:42 | The weekday of a date is in 0..6, 0 = Sunday. |
| CalendarAdapter.SetUtcDateMovesDays | shift-schedule.jsx:45-46 | `setUTCDate(getUTCDate() + n)` moves the instant exactly n days, across any month or year boundary. |
| CalendarAdapter.DayTextParsesBack | shift-schedule.jsx:48-52 | From year 0 on, the text addDaysToIsoDate formats for a day parses back to that day's date. |
| CalendarAdapter.DayTextRoundTrip | shift-schedule.jsx:44-53 | From year 0 on, the text addDaysToIsoDate formats for a day converts back to that same instant. |
| CalendarAdapter.AddDaysToIsoDateSpec | shift-schedule.jsx:44-53 | The result always parses. From year 0 on it is the instant n days later, and its weekday is n days further on. Up to year 9999 it is full-date text naming a valid date. |
| CalendarAdapter.AddDaysSame | shift-schedule.jsx:44-53 | Any two dates moved to the same day give the same text. |
| CalendarAdapter.AddZeroDays | shift-schedule.jsx:44-53 | Adding zero days to full-date text gives the same text back. |
| CalendarAdapter.AddDaysCompose | shift-schedule.jsx:44-53 | From year 0 on (the day after the first a days), adding a days and then b days gives the same text as adding a + b days. |
| CalendarAdapter.WeekStartIsSunday | shift-schedule.jsx:129-132 | When the week start is from year 0 on, it is a Sunday, at most six days before the date and never after it. |
| CalendarAdapter.WeekStartReturns | shift-schedule.jsx:129-132 | For full-date text whose week start is from year 0 on, adding the date's weekday to its week start gives the date back. |
| CalendarAdapter.WeekStartOfWeekDay | shift-schedule.jsx:129-132 | For a full-date Sunday from year 0 on, every day of its week has that Sunday as its week start. |
| RotationEngine.NoonShiftOfWeekDay | shift-schedule.jsx:66-73 | In a week starting on a Sunday from year 0 on, day i gets `noonLate` exactly when i is 0, 2 or 4, and `noon` otherwise. |
| RotationEngine.UnitByOffset | shift-schedule.jsx:75-83 | Every offset and shift give a unit in 1..3. |
| RotationEngine.UnitsAreDistinct | shift-schedule.jsx:75-83 | Under any offset, noon, morning and night go to three different units, which are exactly {1, 2, 3}. |
| RotationEngine.UnitByOffsetRotates | shift-schedule.jsx:75-83 | Noon goes to unit offset + 1; morning and night follow it around the three units. |
| RotationEngine.CycleStartFacts | shift-schedule.jsx:87-88 | The anchor text parses to 2026-02-22, which is day 20506 and a Sunday. |
| RotationEngine.NormalizedTotalDaysSpec | shift-schedule.jsx:91 | The normalised day count is non-negative and congruent to the difference modulo 21. A non-negative difference is kept unchanged; a negative one lands in [0, 21). |
| RotationEngine.WeekPhaseOfCycleDay | shift-schedule.jsx:92 | W is the week, 0 to 2, of the day's place in the 21-day cycle. |
| RotationEngine.WeekdayOfCycleDay | shift-schedule.jsx:87-93 | Because the anchor is a Sunday, the weekday is the day's place in the cycle modulo 7. |
| RotationEngine.RosterPeriodic | shift-schedule.jsx:85-111 | The rota repeats every 21 days. |
| RotationEngine.RosterUnitsDistinct | shift-schedule.jsx:85-111 | On every day the three shifts are held by three different units. |
| RotationEngine.AnchorUnits | shift-schedule.jsx:87-110 | On the anchor Sunday, noon, morning and night are held by units 1, 2 and 3. |
| RotationEngine.TuesdayAfterAnchorUnits | shift-schedule.jsx:99-101 | Two days after the anchor, noon, morning and night are held by units 3, 1 and 2. |
| RotationEngine.DayBeforeAnchor | shift-schedule.jsx:91 | The day before the anchor has the units of the day 20 days after it. |
| RotationEngine.UnitOnShift | shift-schedule.jsx:85-111 | getUnitOnShift returns, for every parseable date, the unit the 21-day rota table gives that date and shift. |
| RotationEngine.UnitForDayDiff | shift-schedule.jsx:89-110 | Normalising, the week phase, the block if/else chain and getUnitByOffset together give the rota table's unit. |
| RotationEngine.UnitsRepeatAfterThreeWeeks | shift-schedule.jsx:85-111 | From year 0 on, the date 21 days later has the same unit on every shift. |
| RotationEngine.AnchorDateUnits | shift-schedule.jsx:87-88 | The anchor date's text is held by units 1, 2 and 3 on noon, morning and night. |
| ScheduleBuilder.GenerateWeeklySchedule | shift-schedule.jsx:134-157 | Returns exactly 7 records. Record i has label `HEBREW_DAYS[i]`, the date i days after the week start, that date's rota units and its noon preset. |
| ScheduleBuilder.DayRow | shift-schedule.jsx:138-153 | The record pushed for day i is the rota's record for that day. |
| ScheduleBuilder.ScheduledDayWeekday | shift-schedule.jsx:137-142 | From a Sunday from year 0 on, record i is dated on weekday i. Its label is that weekday's Hebrew name. It has the late noon preset exactly on days 0, 2 and 4. |
| ScheduleBuilder.ScheduledDayUnitsDistinct | shift-schedule.jsx:149-151 | Every record has three different units on its three shifts. |
| ScheduleBuilder.ScheduledDaysConsecutive | shift-schedule.jsx:137-138 | From a week start from year 0 on, each record is dated one day after the previous one. |
| ScheduleBuilder.ScheduledDayInWeek | shift-schedule.jsx:129-138 | For a full-date Sunday from year 0 on, every record of its week has that Sunday as its week start. |
| ScheduleBuilder.SelectedDateInWeeklySchedule | shift-schedule.jsx:159-161 | For full-date text whose week start is from year 0 on, the weekly table built from that week start shows the date in the row of its weekday, with its rota units. |

## Left out

- The React component is not modelled: state, rendering, event handlers and styling.
- `getIsraelTodayIsoDate` is not modelled. It reads the wall clock and the time-zone data of `Intl.DateTimeFormat`. Today's date is an input instead.
- `createDisplayDateForIsrael`, `formatDate`, the `dateDisplay` field and `getDayOfWeekHebrew` are not modelled. `formatDate` and `dateDisplay` are `toLocaleDateString('he-IL')` text of the noon-UTC `Date` that `createDisplayDateForIsrael` returns. `getDayOfWeekHebrew` is a label used only by the component; the weekly records take their label from `HEBREW_DAYS` by position instead.
- The shift names, time texts and icons in `shifts` are not modelled. A record keeps the key of its noon preset (`ShiftsKey`) instead of its time text.
- Dates are day numbers, not milliseconds. The limit of JavaScript's time values (about 10^8 days either side of 1970) is not modelled, so every day number is treated as valid.
- `Number` is modelled only on strings of decimal digits; the empty string gives 0. Any other field makes the parse `None`, where JavaScript gives `NaN`. Callers must pass text that parses, so the `NaN` path is not modelled. Whitespace, signs, exponents and hexadecimal that `Number` would also accept are not modelled.
- An unknown shift key is not modelled. The shift is a datatype with the three source keys, so `undefined` positions cannot arise.
- `addDaysToIsoDate` is modelled as formatting the date of day z + n. `SetUtcDateMovesDays` proves that this is the instant `setUTCDate` leaves. The in-place mutation of the `Date` object is not modelled.
- AddDaysToIsoDateSpec: the round trip and the weekday shift are proved only from year 0 on. Before year 0, `padStart` writes the year's minus sign inside the padded field (for example "00-1"), so the text no longer splits into year, month and day.
- UnitsRepeatAfterThreeWeeks: is proved only from year 0 on, for the same reason. So are AddDaysCompose, WeekStartIsSunday, WeekStartReturns, WeekStartOfWeekDay, NoonShiftOfWeekDay, ScheduledDayWeekday, ScheduledDaysConsecutive, ScheduledDayInWeek and SelectedDateInWeeklySchedule, whose rows say so. RosterPeriodic states the 21-day period on day numbers without that bound.
- The lemmas about week starts (WeekStartReturns, WeekStartOfWeekDay, ScheduledDayInWeek, SelectedDateInWeeklySchedule) need full-date text. Other spellings that parse to the same date ("2026-2-22") are formatted back in canonical form, so they do not come back unchanged.
- GenerateWeeklySchedule does not require its argument to be a Sunday; the source does not either. The weekday properties of its records are stated for a Sunday in ScheduledDayWeekday.
- DayOfWeekInIsrael, AddDaysToIsoDate, WeekStartDate, NoonShiftForDay, UnitOnShift and GenerateWeeklySchedule are built on the corrected CreateUtcDateFromIso. On text with a year in 0..99 they therefore differ from the source, which takes such a year as 1900 + year. For example, `addDaysToIsoDate("0050-03-01", 0)` gives "1950-03-01", a Wednesday, with the units of 1950. The model gives "0050-03-01", a Tuesday, with the units of that day. Only CreateUtcDateFromIsoAsWritten and TwoDigitYearMisread model the source's reading.
- MakeDay: models ECMAScript MakeDay only, without the step of `Date.UTC` that reads a year in 0..99 as 1900 + year. That step appears only in CreateUtcDateFromIsoAsWritten (see "## Findings").
- MakeDayRollsMonths: holds for MakeDay, not for `Date.UTC` across the two-digit-year boundary. For example, `Date.UTC(99, 12, 1)` is 2000-01-01, while `Date.UTC(100, 0, 1)` is 0100-01-01.
- The shift datatype has the source's three keys `morning`, `noon` and `night`.
- NormalizedTotalDays keeps a non-negative difference unreduced and brings only a negative one into [0, 21), as shift-schedule.jsx:91 does. NormalizedTotalDaysSpec and WeekPhaseOfCycleDay show that W is the week of the difference reduced modulo 21.

## Findings

| source | as written | input that shows it | evidently intended | confidence | as-written member | corrected member |
|---|---|---|---|---|---|---|
| shift-schedule.jsx:34 | `Date.UTC` reads a year in 0..99 as 1900 + year, so `createUtcDateFromIso` gives the instant of a date 1900 years later | "0050-03-01" gives the instant of 1950-03-01, a Wednesday; 0050-03-01 was a Tuesday. `addDaysToIsoDate("0050-03-01", 0)` then yields "1950-03-01" | the date's own year (for example by calling `setUTCFullYear(year)` after `Date.UTC`) | low impact: only years 0..99 are affected; not executed | CalendarAdapter.TwoDigitYearMisread | CalendarAdapter.CreateUtcDateFromIso |
