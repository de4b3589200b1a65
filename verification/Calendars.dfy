/** Two more calendar computations of the firmware, compared with the one of TimeLib: the weekday and day of the year
    that the type system fills in (agenttypesystem.c), and the daylight saving rule of the NTP client. */
module Calendars {
  import opened Calendar
  import TimeLib

  // ---- fill_tm_yday_and_tm_wday ----------------------------------------------------------------------------------

  // The lengths of the months before month, 0 for January, as if there were no leap years.
  method DaysInAllPreviousMonths(month: nat) returns (result: nat)
    requires month < 12
    ensures forall y | !IsLeap(y) :: result == DaysBeforeMonth(y, month + 1)
    ensures forall y | IsLeap(y) :: result == DaysBeforeMonth(y, month + 1) - if month > 1 then 1 else 0
  {
    result := 0;
    for i := 0 to month
      invariant forall y | !IsLeap(y) :: result == DaysBeforeMonth(y, i + 1)
      invariant forall y | IsLeap(y) :: result == DaysBeforeMonth(y, i + 1) - if i > 1 then 1 else 0
    {
      match i
      case 0 => result := result + 31;
      case 2 => result := result + 31;
      case 4 => result := result + 31;
      case 6 => result := result + 31;
      case 7 => result := result + 31;
      case 9 => result := result + 31;
      case 1 => result := result + 28;
      case _ => result := result + 30;
    }
  }

  // Lines 2982 to 2985, with the struct tm's conventions: tmYear from 1900, tmMon from 0.
  method FillYdayWday(tmYear: int, tmMon: nat, tmMday: nat) returns (yday: int, wday: int)
    requires ValidDate(tmYear + 1900, tmMon + 1, tmMday)
    ensures DaysBeforeYear(tmYear + 1900) + yday == DayNumber(tmYear + 1900, tmMon + 1, tmMday)
    ensures wday == Weekday(DayNumber(tmYear + 1900, tmMon + 1, tmMday))
  {
    var year := tmYear + 1900 + 10000;
    var leapYears := (year - 1) / 4 - (year - 1) / 100 + (year - 1) / 400;
    var previous := DaysInAllPreviousMonths(tmMon);
    LeapIsPeriodic(tmYear + 1900);
    yday := previous + (tmMday - 1) + if tmMon > 1 && IsLeap(year) then 1 else 0;
    wday := (365 * year + leapYears + yday) % 7;
    DaysBeforeYearClosed(tmYear + 1900);
    assert leapYears == LeapYears(year - 1);
    ShiftedWeekday(DayNumber(tmYear + 1900, tmMon + 1, tmMday), 365 * year + leapYears + yday);
  }

  lemma ShiftedWeekday(day: int, count: int)
    requires count == day + 365
    ensures count % 7 == Weekday(day)
  {
  }

  // breakTime and the type system agree on the weekday and the day of the year of every 32-bit time.
  method FillAgreesWithBreakTime(t: nat) returns (tm: TimeLib.TmElements, yday: int, wday: int)
    requires t < 0x1_0000_0000
    ensures tm == TimeLib.Broken(t)
    ensures wday == tm.Wday - 1
    ensures DaysBeforeYear(1970 + tm.Year) + yday == EPOCH + t / SECS_PER_DAY
  {
    tm := TimeLib.BreakTime(t);
    hide TimeLib.Broken;
    yday, wday := FillYdayWday(tm.Year + 70, tm.Month - 1, tm.Day);
    assert TimeLib.DaysSince1970(tm) == t / SECS_PER_DAY;
  }

  // ---- summertime ------------------------------------------------------------------------------------------------

  predicate Summertime(year: nat, month: nat, day: nat, hour: nat, tzHours: nat)
  {
    if month < 3 || month > 10 then false
    else if month > 3 && month < 10 then true
    else
      (month == 3 && hour + 24 * day >= 1 + tzHours + 24 * MarchFormula(year))
      || (month == 10 && hour + 24 * day < 1 + tzHours + 24 * OctoberFormula(year))
  }

  function MarchFormula(year: nat): int { 31 - (5 * year / 4 + 4) % 7 }
  function OctoberFormula(year: nat): int { 31 - (5 * year / 4 + 1) % 7 }

  function LastSunday(year: int, month: nat): (d: nat)
    requires year >= -9999 && (month == 3 || month == 10)
    ensures 25 <= d <= 31 && Weekday(DayNumber(year, month, d)) == 0
  {
    SundayBefore(DayNumber(year, month, 31));
    31 - Weekday(DayNumber(year, month, 31))
  }

  lemma SundayBefore(day: int)
    ensures Weekday(day - Weekday(day)) == 0
  {
    var n := day - EPOCH + 4;
    assert n - n % 7 == 7 * (n / 7);
  }

  // The European rule: summer time runs from 01:00 UTC on the last Sunday of March to 01:00 UTC on that of October.
  // Hours are counted in UTC; the date and hour are local standard time, tzHours ahead of it.
  predicate EuropeanSummer(year: nat, month: nat, day: nat, hour: nat, tzHours: nat)
    requires ValidDate(year, month, day)
  {
    var utc := 24 * DayNumber(year, month, day) + hour - tzHours;
    24 * DayNumber(year, 3, LastSunday(year, 3)) + 1 <= utc < 24 * DayNumber(year, 10, LastSunday(year, 10)) + 1
  }

  // Years whose centuries have skipped as many leap days, modulo 7, as the formula is made for.
  predicate FormulaYear(year: nat)
  {
    (year / 100 - year / 400) % 7 == 1
  }

  lemma FormulaYears(year: nat)
    ensures 1900 <= year <= 2099 ==> FormulaYear(year)
    ensures 2100 <= year <= 2199 ==> !FormulaYear(year)
  {
  }

  lemma LeapDaysThrough(year: nat)
    ensures DaysBeforeYear(year) + DaysBeforeMonth(year, 3) == 365 * (year + 9999) + LeapYears(year) + 2425 + 59
  {
    DaysBeforeYearClosed(year);
    LeapYearsStep(year + 9999);
    LeapIsPeriodic(year);
    MonthStarts(year);
    assert LeapYears(year + 10000) == LeapYears(year) + 2425;
  }

  // The formulas find the last Sundays in exactly these years.
  lemma FormulasExactlyInFormulaYears(year: nat)
    ensures MarchFormula(year) == LastSunday(year, 3) <==> FormulaYear(year)
    ensures OctoberFormula(year) == LastSunday(year, 10) <==> FormulaYear(year)
  {
    LeapDaysThrough(year);
    MonthStarts(year);
    var c := year / 100 - year / 400;
    var march, october := DayNumber(year, 3, 31), DayNumber(year, 10, 31);
    hide DaysBeforeYear, DaysBeforeMonth, Weekday;
    assert 5 * year / 4 == year + year / 4;
    assert march - EPOCH + 4 == 5 * year / 4 + 4 + 1 - c + 7 * (52 * year - 102777);
    WeekdayFromFormula(march, 5 * year / 4 + 4, c, 52 * year - 102777);
    assert october - EPOCH + 4 == 5 * year / 4 + 1 + 1 - c + 7 * (52 * year - 102746);
    WeekdayFromFormula(october, 5 * year / 4 + 1, c, 52 * year - 102746);
  }

  lemma WeekdayFromFormula(day: int, f: nat, c: int, weeks: int)
    requires day - EPOCH + 4 == f + 1 - c + 7 * weeks
    ensures Weekday(day) == f % 7 <==> c % 7 == 1
  {
  }

  // With the right Sundays, the rule is the European one for the whole year exactly when the switch, in local standard
  // time, still falls into March and October. Zones less than a day ahead of UTC always meet that.
  predicate SwitchesInMonth(year: nat, tzHours: nat)
  {
    1 + tzHours + 24 * LastSunday(year, 3) <= 24 * 32 && 1 + tzHours + 24 * LastSunday(year, 10) <= 24 * 32
  }

  ghost predicate AgreesAllYear(year: nat, tzHours: nat)
  {
    forall month, day, hour: nat :: ValidDate(year, month, day) && hour < 24
      ==> (Summertime(year, month, day, hour, tzHours) <==> EuropeanSummer(year, month, day, hour, tzHours))
  }

  lemma SummertimeExactlyWhenSwitchesInMonth(year: nat, tzHours: nat)
    requires year <= 9999 && tzHours < 256
    ensures AgreesAllYear(year, tzHours) <==> FormulaYear(year) && SwitchesInMonth(year, tzHours)
    ensures tzHours <= 23 ==> SwitchesInMonth(year, tzHours)
  {
    hide LastSunday, FormulaYear, Summertime, EuropeanSummer;
    if FormulaYear(year) && SwitchesInMonth(year, tzHours) {
      forall month, day, hour: nat | ValidDate(year, month, day) && hour < 24
        ensures Summertime(year, month, day, hour, tzHours) <==> EuropeanSummer(year, month, day, hour, tzHours)
      {
        SummertimeInMonth(year, month, day, hour, tzHours);
      }
    } else if !FormulaYear(year) {
      var month, day, hour := WrongSundays(year, tzHours);
    } else {
      var month, day, hour := SwitchOutsideMonth(year, tzHours);
    }
  }

  // When a switch leaves its month, the first hour of the next month tells.
  lemma SwitchOutsideMonth(year: nat, tzHours: nat) returns (month: nat, day: nat, hour: nat)
    requires year <= 9999 && tzHours < 256 && !SwitchesInMonth(year, tzHours)
    ensures ValidDate(year, month, day) && hour < 24
    ensures Summertime(year, month, day, hour, tzHours) != EuropeanSummer(year, month, day, hour, tzHours)
  {
    MonthStarts(year);
    hide DaysBeforeYear, DaysBeforeMonth, LastSunday, MarchFormula, OctoberFormula;
    if 1 + tzHours + 24 * LastSunday(year, 3) > 24 * 32 {
      month, day, hour := 4, 1, 0;
    } else {
      month, day, hour := 11, 1, 0;
    }
  }

  // Where the formula has the wrong Sundays, one of the two switches is noticed: if not where the earlier of the right
  // and the wrong one lies within the month, then at the first hour of the next month. Only a right one exactly at that
  // hour would hide it, and the two last Sundays are never the same day of their months.
  lemma WrongSundays(year: nat, tzHours: nat) returns (month: nat, day: nat, hour: nat)
    requires year <= 9999 && tzHours < 256 && !FormulaYear(year)
    ensures ValidDate(year, month, day) && hour < 24
    ensures Summertime(year, month, day, hour, tzHours) != EuropeanSummer(year, month, day, hour, tzHours)
  {
    hide DaysBeforeYear, DaysBeforeMonth, LastSunday, MarchFormula, OctoberFormula, FormulaYear, EuropeanSummer, Summertime,
         SwitchesInMonth;
    FormulasExactlyInFormulaYears(year);
    FormulaRange(year);
    DifferentSundays(year);
    if Right(year, 3, tzHours) > 24 * 32 || Right(year, 10, tzHours) > 24 * 32 {
      LeavesMonth(year, tzHours);
      month, day, hour := SwitchOutsideMonth(year, tzHours);
    } else if Right(year, 3, tzHours) < 24 * 32 {
      month, day, hour := 3, Earlier(year, 3, tzHours) / 24, Earlier(year, 3, tzHours) % 24;
      InMarch(year, day, hour, tzHours);
    } else {
      month, day, hour := 10, Earlier(year, 10, tzHours) / 24, Earlier(year, 10, tzHours) % 24;
      InOctober(year, day, hour, tzHours);
    }
  }

  // The hour of its month, in local standard time, at which the rule switches and at which the program does.
  function Right(year: nat, month: nat, tzHours: nat): int
    requires month == 3 || month == 10
  {
    1 + tzHours + 24 * LastSunday(year, month)
  }

  function Programmed(year: nat, month: nat, tzHours: nat): int
  {
    1 + tzHours + 24 * if month == 3 then MarchFormula(year) else OctoberFormula(year)
  }

  function Earlier(year: nat, month: nat, tzHours: nat): int
    requires month == 3 || month == 10
  {
    if Right(year, month, tzHours) < Programmed(year, month, tzHours) then Right(year, month, tzHours)
    else Programmed(year, month, tzHours)
  }

  lemma LeavesMonth(year: nat, tzHours: nat)
    requires Right(year, 3, tzHours) > 24 * 32 || Right(year, 10, tzHours) > 24 * 32
    ensures !SwitchesInMonth(year, tzHours)
  {
  }

  lemma FormulaRange(year: nat)
    ensures 25 <= MarchFormula(year) <= 31 && 25 <= OctoberFormula(year) <= 31
  {
  }

  lemma DifferentSundays(year: nat)
    ensures LastSunday(year, 3) != LastSunday(year, 10)
  {
    MonthStarts(year);
    hide DaysBeforeYear, DaysBeforeMonth;
    var march := DayNumber(year, 3, 31);
    assert DayNumber(year, 10, 31) == march + 214;
    WeekdayAfter214Days(march);
  }

  lemma WeekdayAfter214Days(day: int)
    ensures Weekday(day + 214) != Weekday(day)
  {
    var n := day - EPOCH + 4;
    assert n + 214 == n + 4 + 7 * 30;
  }

  lemma InMarch(year: nat, day: nat, hour: nat, tzHours: nat)
    requires year <= 9999 && 1 <= day <= 31 && hour < 24 && tzHours < 256
    ensures ValidDate(year, 3, day)
    ensures Summertime(year, 3, day, hour, tzHours) <==> hour + 24 * day >= Programmed(year, 3, tzHours)
    ensures EuropeanSummer(year, 3, day, hour, tzHours) <==> hour + 24 * day >= Right(year, 3, tzHours)
  {
    MonthStarts(year);
    hide DaysBeforeYear, DaysBeforeMonth, LastSunday, MarchFormula, OctoberFormula;
  }

  lemma InOctober(year: nat, day: nat, hour: nat, tzHours: nat)
    requires year <= 9999 && 1 <= day <= 31 && hour < 24 && tzHours < 256
    ensures ValidDate(year, 10, day)
    ensures Summertime(year, 10, day, hour, tzHours) <==> hour + 24 * day < Programmed(year, 10, tzHours)
    ensures EuropeanSummer(year, 10, day, hour, tzHours) <==> hour + 24 * day < Right(year, 10, tzHours)
  {
    MonthStarts(year);
    hide DaysBeforeYear, DaysBeforeMonth, LastSunday, MarchFormula, OctoberFormula;
  }

  lemma SummertimeInMonth(year: nat, month: nat, day: nat, hour: nat, tzHours: nat)
    requires FormulaYear(year) && tzHours < 256 && SwitchesInMonth(year, tzHours)
    requires ValidDate(year, month, day) && hour < 24
    ensures Summertime(year, month, day, hour, tzHours) <==> EuropeanSummer(year, month, day, hour, tzHours)
  {
    FormulasExactlyInFormulaYears(year);
    MonthStarts(year);
    hide DaysBeforeYear, LastSunday, MarchFormula, OctoberFormula, FormulaYear;
  }
}
