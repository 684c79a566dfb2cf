/**
 * The rotation rule of the shift-schedule engine: three duty units share the
 * morning, noon and night shifts on a 21-day rota anchored at Sunday
 * 2026-02-22. The rota is specified here as a table indexed by the day of the
 * cycle (RosterUnit); getUnitOnShift, which gets there through a day
 * difference, a normalisation and an if/else chain over weekday blocks, is
 * proved to agree with it on every date.
 */
module RotationEngine {
  import opened CivilCalendar
  import opened IsoDateText
  import opened CalendarAdapter

  /** The three shifts of a day. */
  datatype Shift = Morning | Noon | Night

  /** The keys of the shift time presets; the noon shift has an early and a late preset. */
  datatype ShiftsKey = MorningKey | NoonKey | NoonLateKey | NightKey

  /** getNoonShiftForDay: the late noon preset on Sundays, Tuesdays and Thursdays. */
  function NoonShiftForDay(text: string): ShiftsKey
    requires ParseIsoDateString(text).Some?
  {
    var dayOfWeek := DayOfWeekInIsrael(text);
    if dayOfWeek == 0 || dayOfWeek == 2 || dayOfWeek == 4 then NoonLateKey else NoonKey
  }

  /** The position of each shift in the rotation: noon 0, morning 1, night 2. */
  function ShiftPosition(shift: Shift): nat {
    match shift
    case Noon => 0
    case Morning => 1
    case Night => 2
  }

  /** getUnitByOffset: the unit, 1 to 3, holding a shift under a rotation offset. */
  function UnitByOffset(offset: nat, shift: Shift): (unit: int)
    ensures 1 <= unit <= 3
  {
    ((offset + ShiftPosition(shift)) % 3) + 1
  }

  /** Under any offset the three shifts go to three different units, so every unit has one shift. */
  lemma UnitsAreDistinct(offset: nat)
    ensures UnitByOffset(offset, Noon) != UnitByOffset(offset, Morning)
    ensures UnitByOffset(offset, Morning) != UnitByOffset(offset, Night)
    ensures UnitByOffset(offset, Noon) != UnitByOffset(offset, Night)
    ensures {UnitByOffset(offset, Noon), UnitByOffset(offset, Morning), UnitByOffset(offset, Night)} == {1, 2, 3}
  {
  }

  /** Noon goes to unit offset + 1; morning and night follow it around the three units. */
  lemma UnitByOffsetRotates(offset: nat)
    requires offset < 3
    ensures UnitByOffset(offset, Noon) == offset + 1
    ensures UnitByOffset(offset, Morning) == UnitByOffset(offset, Noon) % 3 + 1
    ensures UnitByOffset(offset, Night) == UnitByOffset(offset, Morning) % 3 + 1
  {
  }

  // ---------------------------------------------------------------------------
  // The day difference and its normalisation

  /** The rota's anchor: Sunday 2026-02-22, the first day of week phase 0. */
  const CycleStart: string := "2026-02-22"

  /** Day number of the anchor (days since 1970-01-01). */
  const CycleStartDay: int := 20506

  /** The anchor text splits at its two dashes into three fields. */
  lemma CycleStartSplits()
    ensures Split(CycleStart, '-') == ["2026", "02", "22"]
  {
    assert CycleStart == "2026" + ['-'] + "02" + ['-'] + "22";
    SplitThree("2026", "02", "22", '-');
  }

  /** The anchor's fields are digit strings denoting 2026, 2 and 22. */
  lemma CycleStartFields()
    ensures AllDigits("2026") && DigitsValue("2026") == 2026
    ensures AllDigits("02") && DigitsValue("02") == 2
    ensures AllDigits("22") && DigitsValue("22") == 22
  {
    assert "2026"[..3] == "202" && "202"[..2] == "20" && "20"[..1] == "2" && "2"[..0] == "";
    assert "02"[..1] == "0" && "0"[..0] == "";
    assert "22"[..1] == "2";
  }

  /** 2026-02-22 is day CycleStartDay, and that day is a Sunday. */
  lemma CycleStartDayOfDate()
    ensures MakeDay(2026, 2, 22) == CycleStartDay && Weekday(CycleStartDay) == 0
  {
    assert LeapYearsBefore(2026) == 491;
    assert LeapYearsBefore(1970) == 477;
  }

  /** The anchor text parses to 2026-02-22, which is day CycleStartDay and a Sunday. */
  lemma CycleStartFacts()
    ensures ParseIsoDateString(CycleStart) == Some(Date(2026, 2, 22))
    ensures CreateUtcDateFromIso(CycleStart) == CycleStartDay
    ensures Weekday(CycleStartDay) == 0
  {
    CycleStartSplits();
    CycleStartFields();
    CycleStartDayOfDate();
  }

  /** Math.ceil(a / b) for a >= 0 and b > 0. */
  function CeilDiv(a: nat, b: nat): nat
    requires b > 0
  {
    (a + b - 1) / b
  }

  /**
   * totalDays: a day difference as it is, or, when negative, moved up by the
   * smallest whole number of 21-day cycles that makes it non-negative.
   */
  function NormalizedTotalDays(daysDiff: int): int {
    if daysDiff >= 0 then daysDiff else daysDiff + CeilDiv(-daysDiff, 21) * 21
  }

  /**
   * The normalised day count is never negative and lies in the same place of
   * the 21-day cycle; a non-negative difference is kept and a negative one
   * lands in [0, 21).
   */
  lemma NormalizedTotalDaysSpec(daysDiff: int)
    ensures NormalizedTotalDays(daysDiff) >= 0
    ensures NormalizedTotalDays(daysDiff) % 21 == daysDiff % 21
    ensures daysDiff >= 0 ==> NormalizedTotalDays(daysDiff) == daysDiff
    ensures daysDiff < 0 ==> NormalizedTotalDays(daysDiff) < 21
  {
    if daysDiff < 0 {
      var a := -daysDiff;
      var q := (a + 20) / 21;
      assert 21 * q <= a + 20 < 21 * q + 21;
      assert NormalizedTotalDays(daysDiff) == daysDiff + 21 * q;
    }
  }

  /** W: the week of the three-week cycle, floor(totalDays / 7) mod 3. */
  function WeekPhase(totalDays: nat): (w: nat)
    ensures w < 3
  {
    (totalDays / 7) % 3
  }

  /** The week phase is the week within the 21-day cycle. */
  lemma {:induction false} WeekPhaseOfCycleDay(t: nat)
    ensures WeekPhase(t) == (t % 21) / 7
  {
    var q := t / 21;
    var r := t % 21;
    assert t == 21 * q + r;
    assert t / 7 == 3 * q + r / 7 by {
      assert t == 7 * (3 * q + r / 7) + r % 7;
    }
  }

  // ---------------------------------------------------------------------------
  // The rota as a table

  /** The place of day z in the 21-day cycle: 0 on the anchor Sunday. */
  function CycleDay(z: int): (c: int)
    ensures 0 <= c < 21
  {
    (z - CycleStartDay) % 21
  }

  /** Because the anchor is a Sunday, the weekday is the place of the day within its week of the cycle. */
  lemma WeekdayOfCycleDay(z: int)
    ensures Weekday(z) == CycleDay(z) % 7
  {
    var k := (z - CycleStartDay) / 21;
    assert z == CycleStartDay + 21 * k + CycleDay(z);
    assert z + 4 == 7 * (2930 + 3 * k) + CycleDay(z);
  }

  /** The weekday blocks: Sunday-Monday 0, Tuesday-Wednesday 1, Thursday-Friday 2, Saturday with Sunday-Monday. */
  const WeekdayBlock: seq<nat> := [0, 0, 1, 1, 2, 2, 0]

  /** The rotation offset of each weekday block (column) in each week phase (row). */
  const OffsetTable: seq<seq<nat>> := [[0, 2, 1], [2, 1, 0], [1, 0, 2]]

  /** The unit on a shift on day z according to the rota table. */
  function RosterUnit(z: int, shift: Shift): (unit: int)
    ensures 1 <= unit <= 3
  {
    var c := CycleDay(z);
    UnitByOffset(OffsetTable[c / 7][WeekdayBlock[c % 7]], shift)
  }

  /** The rota repeats every 21 days. */
  lemma RosterPeriodic(z: int, shift: Shift, later: int)
    requires later == z + 21
    ensures RosterUnit(later, shift) == RosterUnit(z, shift)
  {
    assert CycleDay(later) == CycleDay(z);
  }

  /** On any day the three shifts are held by three different units. */
  lemma RosterUnitsDistinct(z: int)
    ensures RosterUnit(z, Noon) != RosterUnit(z, Morning)
    ensures RosterUnit(z, Morning) != RosterUnit(z, Night)
    ensures RosterUnit(z, Noon) != RosterUnit(z, Night)
  {
    var c := CycleDay(z);
    UnitsAreDistinct(OffsetTable[c / 7][WeekdayBlock[c % 7]]);
  }

  /** On the anchor Sunday noon, morning and night are held by units 1, 2 and 3. */
  lemma AnchorUnits()
    ensures RosterUnit(CycleStartDay, Noon) == 1
    ensures RosterUnit(CycleStartDay, Morning) == 2
    ensures RosterUnit(CycleStartDay, Night) == 3
  {
    assert CycleDay(CycleStartDay) == 0;
    assert OffsetTable[0][WeekdayBlock[0]] == 0;
  }

  /** On the Tuesday two days after the anchor (week phase 0, Tuesday-Wednesday block) noon, morning and night are held by units 3, 1 and 2. */
  lemma TuesdayAfterAnchorUnits()
    ensures RosterUnit(CycleStartDay + 2, Noon) == 3
    ensures RosterUnit(CycleStartDay + 2, Morning) == 1
    ensures RosterUnit(CycleStartDay + 2, Night) == 2
  {
    assert CycleDay(CycleStartDay + 2) == 2;
    assert OffsetTable[0][WeekdayBlock[2]] == 2;
  }

  /** The day before the anchor has the units of the anchor's twentieth day after. */
  lemma DayBeforeAnchor(shift: Shift)
    ensures RosterUnit(CycleStartDay - 1, shift) == RosterUnit(CycleStartDay + 20, shift)
  {
    RosterPeriodic(CycleStartDay - 1, shift, CycleStartDay + 20);
  }

  // ---------------------------------------------------------------------------
  // getUnitOnShift

  /**
   * getUnitOnShift: the whole-day distance from the anchor and the weekday of
   * the date, handed to UnitForDayDiff. It agrees with the rota table on
   * every date.
   */
  method UnitOnShift(date: string, shift: Shift) returns (unit: int)
    requires ParseIsoDateString(date).Some?
    ensures unit == RosterUnit(CreateUtcDateFromIso(date), shift)
  {
    CycleStartFacts();
    var targetDate := CreateUtcDateFromIso(date);
    var cycleStartDate := CreateUtcDateFromIso(CycleStart);
    var daysDiff := targetDate - cycleStartDate;
    var dayOfWeek := DayOfWeekInIsrael(date);
    unit := UnitForDayDiff(targetDate, daysDiff, dayOfWeek, shift);
  }

  /**
   * The arithmetic of getUnitOnShift for day z, daysDiff days after the
   * anchor, with weekday dayOfWeek: the difference normalised into the cycle
   * gives the week phase W, the weekday's block picks the offset formula, and
   * the offset and the shift give the unit.
   */
  method UnitForDayDiff(ghost z: int, daysDiff: int, dayOfWeek: int, shift: Shift) returns (unit: int)
    requires daysDiff == z - CycleStartDay && dayOfWeek == Weekday(z)
    ensures unit == RosterUnit(z, shift)
  {
    NormalizedTotalDaysSpec(daysDiff);
    var totalDays := NormalizedTotalDays(daysDiff);
    var w: int := WeekPhase(totalDays);
    WeekPhaseOfCycleDay(totalDays);
    WeekdayOfCycleDay(z);
    assert totalDays % 21 == CycleDay(z);

    var offset: nat;
    if dayOfWeek == 0 || dayOfWeek == 1 {
      offset := (w * 2) % 3;
    } else if dayOfWeek == 2 || dayOfWeek == 3 {
      offset := (2 - w + 3) % 3;
    } else if dayOfWeek == 4 || dayOfWeek == 5 {
      offset := (1 - w + 3) % 3;
    } else {
      offset := (w * 2) % 3;
    }
    assert offset == OffsetTable[w][WeekdayBlock[dayOfWeek]];

    unit := UnitByOffset(offset, shift);
  }

  /** Sunday, Tuesday and Thursday are the even weekdays before Saturday. */
  lemma LateNoonWeekday(w: int)
    requires 0 <= w < 7
    ensures (w == 0 || w == 2 || w == 4) == (w % 2 == 0 && w < 6)
  {
  }

  /** In a week that starts on a Sunday, the noon preset of day i is late exactly when i is even and before Saturday. */
  lemma NoonShiftOfWeekDay(sunday: string, i: int)
    requires ParseIsoDateString(sunday).Some? && DayOfWeekInIsrael(sunday) == 0
    requires YearStart(0) <= CreateUtcDateFromIso(sunday) && 0 <= i < 7
    ensures ParseIsoDateString(AddDaysToIsoDate(sunday, i)).Some?
    ensures NoonShiftForDay(AddDaysToIsoDate(sunday, i)) == if i % 2 == 0 && i < 6 then NoonLateKey else NoonKey
  {
    AddDaysToIsoDateSpec(sunday, i);
    WeekdayAfterSunday(DayOfWeekInIsrael(sunday), i);
    LateNoonWeekday(i);
  }

  /** Three weeks on, every shift is held by the same unit again (from year 0 on). */
  lemma UnitsRepeatAfterThreeWeeks(text: string, shift: Shift)
    requires ParseIsoDateString(text).Some?
    requires YearStart(0) <= CreateUtcDateFromIso(text) + 21
    ensures ParseIsoDateString(AddDaysToIsoDate(text, 21)).Some?
    ensures RosterUnit(CreateUtcDateFromIso(AddDaysToIsoDate(text, 21)), shift)
      == RosterUnit(CreateUtcDateFromIso(text), shift)
  {
    AddDaysToIsoDateSpec(text, 21);
    RosterPeriodic(CreateUtcDateFromIso(text), shift, CreateUtcDateFromIso(AddDaysToIsoDate(text, 21)));
  }

  /** The anchor date's text is held by units 1, 2 and 3 on noon, morning and night. */
  lemma AnchorDateUnits()
    ensures ParseIsoDateString(CycleStart).Some?
    ensures RosterUnit(CreateUtcDateFromIso(CycleStart), Noon) == 1
    ensures RosterUnit(CreateUtcDateFromIso(CycleStart), Morning) == 2
    ensures RosterUnit(CreateUtcDateFromIso(CycleStart), Night) == 3
  {
    CycleStartFacts();
    AnchorUnits();
  }
}
