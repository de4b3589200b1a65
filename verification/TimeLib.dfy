/** breakTime and makeTime of Time.cpp, in the 32-bit arithmetic of the source. */
module TimeLib {
  import opened Calendar

  // The struct tmElements_t: seven bytes, Year counted from 1970, Wday 1 for Sunday.
  datatype TmElements = TmElements(Second: nat, Minute: nat, Hour: nat, Wday: nat, Day: nat, Month: nat, Year: nat)

  predicate ValidTm(tm: TmElements)
  {
    && tm.Second < 60 && tm.Minute < 60 && tm.Hour < 24
    && 1 <= tm.Month <= 12 && 1 <= tm.Day <= MonthLength(1970 + tm.Year, tm.Month)
  }

  function DaysSince1970(tm: TmElements): int
    requires tm.Month <= 13
  {
    DayNumber(1970 + tm.Year, tm.Month, tm.Day) - EPOCH
  }

  // What broken-down time means, without any bound on its size.
  function Seconds(tm: TmElements): int
    requires tm.Month <= 13
  {
    DaysSince1970(tm) * SECS_PER_DAY + tm.Hour * SECS_PER_HOUR + tm.Minute * SECS_PER_MIN + tm.Second
  }

  ghost predicate BrokenDown(tm: TmElements, t: nat)
  {
    && ValidTm(tm) && Seconds(tm) == t
    && tm.Wday == Weekday(DaysSince1970(tm) + EPOCH) + 1
  }

  // ---- every moment has one broken-down form ---------------------------------------------------------------------

  lemma {:induction false} DaysBeforeYearMonotone(y: int, z: int)
    requires -9999 <= y <= z
    ensures DaysBeforeYear(y) + 365 * (z - y) <= DaysBeforeYear(z)
    decreases z - y
  {
    hide YearLength;
    if y < z {
      DaysBeforeYearMonotone(y, z - 1);
    }
  }

  lemma {:induction false} DaysBeforeMonthMonotone(y: int, m: nat, k: nat)
    requires 1 <= m <= k <= 13
    ensures DaysBeforeMonth(y, m) <= DaysBeforeMonth(y, k)
    ensures m < k ==> DaysBeforeMonth(y, m) + MonthLength(y, m) <= DaysBeforeMonth(y, k)
    decreases k - m
  {
    if m < k {
      DaysBeforeMonthMonotone(y, m, k - 1);
    }
  }

  lemma DayInYear(y: int, m: nat, d: nat)
    requires 1 <= m <= 12 && 1 <= d <= MonthLength(y, m)
    ensures 0 <= DaysBeforeMonth(y, m) + d - 1 < YearLength(y)
  {
    DaysBeforeMonthMonotone(y, m, 13);
    MonthStarts(y);
  }

  lemma SameDaySameDate(y: int, m: nat, d: nat, y': int, m': nat, d': nat)
    requires -9999 <= y && -9999 <= y' && 1 <= m <= 12 && 1 <= m' <= 12
    requires 1 <= d <= MonthLength(y, m) && 1 <= d' <= MonthLength(y', m')
    requires DayNumber(y, m, d) == DayNumber(y', m', d')
    ensures y == y' && m == m' && d == d'
  {
    hide DaysBeforeYear, DaysBeforeMonth, MonthLength, YearLength;
    DayInYear(y, m, d);
    DayInYear(y', m', d');
    if y < y' {
      NextYearStarts(y, y');
    } else if y' < y {
      NextYearStarts(y', y);
    } else if m < m' {
      DaysBeforeMonthMonotone(y, m, m');
    } else if m' < m {
      DaysBeforeMonthMonotone(y, m', m);
    }
  }

  lemma NextYearStarts(y: int, z: int)
    requires -9999 <= y < z
    ensures DaysBeforeYear(y) + YearLength(y) <= DaysBeforeYear(z)
  {
    DaysBeforeYearMonotone(y + 1, z);
  }

  lemma BrokenDownIsUnique(tm: TmElements, other: TmElements, t: nat)
    requires BrokenDown(tm, t) && BrokenDown(other, t)
    ensures tm == other
  {
    hide DayNumber;
    var x := tm.Hour * SECS_PER_HOUR + tm.Minute * SECS_PER_MIN + tm.Second;
    var y := other.Hour * SECS_PER_HOUR + other.Minute * SECS_PER_MIN + other.Second;
    assert 0 <= x < SECS_PER_DAY && 0 <= y < SECS_PER_DAY;
    assert DaysSince1970(tm) == t / SECS_PER_DAY == DaysSince1970(other);
    SameDaySameDate(1970 + tm.Year, tm.Month, tm.Day, 1970 + other.Year, other.Month, other.Day);
  }

  function YearOf(n: nat, y: int): int
    decreases n
  {
    if n < YearLength(y) then y else YearOf(n - YearLength(y), y + 1)
  }

  function MonthOf(n: nat, y: int, m: nat): nat
    requires 1 <= m <= 12
    decreases 12 - m
  {
    if m == 12 || n < MonthLength(y, m) then m else MonthOf(n - MonthLength(y, m), y, m + 1)
  }

  lemma {:induction false} YearOfBrackets(n: nat, y: int)
    requires y >= -9999
    ensures var r := YearOf(n, y);
            y <= r && DaysBeforeYear(r) <= DaysBeforeYear(y) + n < DaysBeforeYear(r + 1)
    decreases n
  {
    hide YearLength;
    if n >= YearLength(y) {
      YearOfBrackets(n - YearLength(y), y + 1);
    }
  }

  lemma {:induction false} MonthOfBrackets(n: nat, y: int, m: nat)
    requires 1 <= m <= 12 && DaysBeforeMonth(y, m) + n < YearLength(y)
    ensures var r := MonthOf(n, y, m);
            1 <= r <= 12 && DaysBeforeMonth(y, r) <= DaysBeforeMonth(y, m) + n < DaysBeforeMonth(y, r + 1)
    decreases 12 - m
  {
    hide MonthLength, YearLength;
    if m == 12 {
      MonthStarts(y);
    } else if n >= MonthLength(y, m) {
      MonthOfBrackets(n - MonthLength(y, m), y, m + 1);
    }
  }

  datatype Date = Date(y: int, m: nat, d: nat)

  // The date of a day, found by counting off years and then months.
  function DateOf(day: nat): (r: Date)
    ensures r.y >= 1970 && 1 <= r.m <= 12 && 1 <= r.d <= MonthLength(r.y, r.m)
    ensures DayNumber(r.y, r.m, r.d) == day + EPOCH
  {
    EpochIs1970();
    YearOfBrackets(day, 1970);
    var y := YearOf(day, 1970);
    var n := day + EPOCH - DaysBeforeYear(y);
    MonthOfBrackets(n, y, 1);
    var m := MonthOf(n, y, 1);
    Date(y, m, n - DaysBeforeMonth(y, m) + 1)
  }

  lemma ClockFields(t: nat)
    ensures t / 86400 * 86400 + t / 3600 % 24 * 3600 + t / 60 % 60 * 60 + t % 60 == t
    ensures t / 60 / 60 == t / 3600 && t / 60 / 60 / 24 == t / 86400
  {
    var m := t / 60;
    var h := m / 60;
    DivideTwice(t, 60, 60, m, h);
    DivideTwice(t, 3600, 24, h, h / 24);
  }

  // q and p are the quotients by a and then by b, so p is the quotient by both at once.
  lemma DivideTwice(t: nat, a: nat, b: nat, q: nat, p: nat)
    requires (a == 60 && b == 60) || (a == 3600 && b == 24)
    requires a * q <= t < a * (q + 1) && b * p <= q < b * (p + 1)
    ensures t / (a * b) == p
  {
  }

  // The broken-down form of a moment.
  function Broken(t: nat): (tm: TmElements)
    ensures BrokenDown(tm, t)
  {
    var date := DateOf(t / SECS_PER_DAY);
    ClockFields(t);
    TmElements(t % 60, t / 60 % 60, t / 3600 % 24, Weekday(t / SECS_PER_DAY + EPOCH) + 1, date.d, date.m, date.y - 1970)
  }

  // makeTime takes every 32-bit time apart and puts it together again.
  lemma MakeUndoesBreak(t: nat)
    requires t < 0x1_0000_0000
    ensures Seconds(Broken(t)) % 0x1_0000_0000 == t
  {
    hide Broken, Seconds;
    var tm := Broken(t);
    assert Seconds(tm) == t;
  }

  // breakTime finds the fields again, and the weekday besides, exactly when the moment fits 32 bits.
  lemma BreakUndoesMakeExactlyIn32Bits(tm: TmElements)
    requires ValidTm(tm)
    ensures Broken(Seconds(tm) % 0x1_0000_0000).(Wday := tm.Wday) == tm <==> 0 <= Seconds(tm) < 0x1_0000_0000
    ensures 0 <= Seconds(tm) < 0x1_0000_0000 ==> Broken(Seconds(tm)).Wday == Weekday(DaysSince1970(tm) + EPOCH) + 1
  {
    hide Broken, DaysSince1970, MonthLength, Weekday;
    var t := Seconds(tm);
    if 0 <= t < 0x1_0000_0000 {
      assert t % 0x1_0000_0000 == t;
      var w := tm.(Wday := Weekday(DaysSince1970(tm) + EPOCH) + 1);
      WdayIsFree(tm, w.Wday);
      hide Seconds;
      BrokenDownIsUnique(w, Broken(t), t);
    } else {
      var back := Broken(t % 0x1_0000_0000);
      WdayIsFree(back, tm.Wday);
      hide Seconds;
      assert Seconds(back) == t % 0x1_0000_0000;
    }
  }

  lemma WdayIsFree(tm: TmElements, wday: nat)
    requires tm.Month <= 13
    ensures DaysSince1970(tm.(Wday := wday)) == DaysSince1970(tm) && Seconds(tm.(Wday := wday)) == Seconds(tm)
  {
  }

  // ---- breakTime -------------------------------------------------------------------------------------------------

  method BreakTime(timeInput: nat) returns (tm: TmElements)
    requires timeInput < 0x1_0000_0000
    ensures tm == Broken(timeInput) && tm.Year <= 136
  {
    hide Broken, DaysSince1970, MonthLength;
    var time := timeInput;
    var second := time % 60;
    time := time / 60;
    var minute := time % 60;
    time := time / 60;
    var hour := time % 24;
    time := time / 24;
    var wday := (time + 4) % 7 + 1;
    ghost var day := time;
    ClockFields(timeInput);
    var year, dayOfYear := SplitYear(time);
    var month, dayOfMonth := SplitMonth(year, dayOfYear);
    tm := TmElements(second, minute, hour, wday, dayOfMonth + 1, month + 1, year);
    SplitIsDay(tm, dayOfYear, day);
    BrokenDownIsUnique(tm, Broken(timeInput), timeInput);
  }

  // The day number of a date whose year and month have been split off it.
  lemma SplitIsDay(tm: TmElements, dayOfYear: nat, day: nat)
    requires 1 <= tm.Month <= 12 && 1 <= tm.Day
    requires DaysBeforeYear(1970 + tm.Year) + dayOfYear == day + EPOCH
    requires DaysBeforeMonth(1970 + tm.Year, tm.Month) + (tm.Day - 1) == dayOfYear
    ensures DaysSince1970(tm) == day
  {
    hide DaysBeforeYear, DaysBeforeMonth;
  }

  // Lines 170 to 178: the year by repeated addition of year lengths, in a byte and an unsigned long.
  method SplitYear(time: nat) returns (year: nat, dayOfYear: nat)
    requires time < 0x1_0000_0000 / SECS_PER_DAY + 1
    ensures year <= 136 && dayOfYear < YearLength(1970 + year)
    ensures DaysBeforeYear(1970 + year) + dayOfYear == time + EPOCH
  {
    EpochIs1970();
    assert DaysBeforeYear(1971) == EPOCH + YearLength(1970);
    hide DaysBeforeYear;
    year := 0;
    var days := 0;
    days := (days + YearLength(1970 + year)) % 0x1_0000_0000;
    while days <= time
      invariant year <= 136 && days == DaysBeforeYear(1970 + year + 1) - EPOCH
      invariant DaysBeforeYear(1970 + year) - EPOCH <= time
      decreases 137 - year
    {
      YearFits(year, days, time);
      year := (year + 1) % 256;
      days := (days + YearLength(1970 + year)) % 0x1_0000_0000;
    }
    days := days - YearLength(1970 + year);
    dayOfYear := time - days;
  }

  lemma YearFits(year: nat, days: int, time: nat)
    requires time < 0x1_0000_0000 / SECS_PER_DAY + 1 && days <= time
    requires days == DaysBeforeYear(1970 + year + 1) - EPOCH
    ensures year < 136 && days >= 0
    ensures DaysBeforeYear(1970 + year + 2) == DaysBeforeYear(1970 + year + 1) + YearLength(1970 + year + 1)
  {
    DaysBeforeYearClosed(1970 + year + 1);
  }

  // Lines 180 to 199: the month, by taking off month lengths while they fit.
  method SplitMonth(year: nat, dayOfYear: nat) returns (month: nat, dayOfMonth: nat)
    requires dayOfYear < YearLength(1970 + year)
    ensures month < 12 && dayOfMonth < MonthLength(1970 + year, month + 1)
    ensures DaysBeforeMonth(1970 + year, month + 1) + dayOfMonth == dayOfYear
  {
    MonthStarts(1970 + year);
    var time := dayOfYear;
    month := 0;
    while month < 12
      invariant month < 12 && time >= 0
      invariant DaysBeforeMonth(1970 + year, month + 1) + time == dayOfYear
    {
      var monthLength := MonthLength(1970 + year, month + 1);
      if time >= monthLength {
        time := time - monthLength;
      } else {
        break;
      }
      month := month + 1;
    }
    dayOfMonth := time;
  }

  // ---- makeTime --------------------------------------------------------------------------------------------------

  lemma AddWrapped(x: int, k: int)
    ensures (x % 0x1_0000_0000 + k) % 0x1_0000_0000 == (x + k) % 0x1_0000_0000
  {
  }

  function LeapDays(years: nat): nat
  {
    if years == 0 then 0 else LeapDays(years - 1) + if IsLeap(1970 + years - 1) then 1 else 0
  }

  lemma {:induction false} LeapDaysAreTheRest(years: nat)
    ensures DaysBeforeYear(1970 + years) - EPOCH == 365 * years + LeapDays(years)
  {
    if years == 0 {
      EpochIs1970();
    } else {
      LeapDaysAreTheRest(years - 1);
    }
  }

  // Total on every content of the struct that keeps the month table in bounds; all sums wrap at 32 bits.
  method MakeTime(tm: TmElements) returns (t: nat)
    requires tm.Month <= 13
    ensures t == Seconds(tm) % 0x1_0000_0000
  {
    hide DaysBeforeYear, IsLeap;
    ghost var total: int := tm.Year * (SECS_PER_DAY * 365);
    var seconds := tm.Year * (SECS_PER_DAY * 365) % 0x1_0000_0000;
    for i := 0 to tm.Year
      invariant total == (365 * tm.Year + LeapDays(i)) * SECS_PER_DAY
      invariant seconds == total % 0x1_0000_0000
    {
      if IsLeap(1970 + i) {
        AddWrapped(total, SECS_PER_DAY);
        seconds := (seconds + SECS_PER_DAY) % 0x1_0000_0000;
        total := total + SECS_PER_DAY;
      }
    }
    LeapDaysAreTheRest(tm.Year);
    ghost var january := total;
    var i := 1;
    while i < tm.Month
      invariant 1 <= i && (i <= tm.Month || i == 1)
      invariant total == january + DaysBeforeMonth(1970 + tm.Year, i) * SECS_PER_DAY
      invariant seconds == total % 0x1_0000_0000
    {
      AddWrapped(total, SECS_PER_DAY * MonthLength(1970 + tm.Year, i));
      seconds := (seconds + SECS_PER_DAY * MonthLength(1970 + tm.Year, i)) % 0x1_0000_0000;
      total := total + SECS_PER_DAY * MonthLength(1970 + tm.Year, i);
      i := i + 1;
    }
    AddWrapped(total, (tm.Day - 1) * SECS_PER_DAY);
    seconds := (seconds + (tm.Day - 1) * SECS_PER_DAY) % 0x1_0000_0000;
    total := total + (tm.Day - 1) * SECS_PER_DAY;
    AddWrapped(total, tm.Hour * SECS_PER_HOUR);
    seconds := (seconds + tm.Hour * SECS_PER_HOUR) % 0x1_0000_0000;
    total := total + tm.Hour * SECS_PER_HOUR;
    AddWrapped(total, tm.Minute * SECS_PER_MIN);
    seconds := (seconds + tm.Minute * SECS_PER_MIN) % 0x1_0000_0000;
    total := total + tm.Minute * SECS_PER_MIN;
    AddWrapped(total, tm.Second);
    seconds := (seconds + tm.Second) % 0x1_0000_0000;
    t := seconds;
  }
}
