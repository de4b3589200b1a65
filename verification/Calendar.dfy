/** The proleptic Gregorian calendar over the years -9999 to 9999 that the type system accepts, defined by counting
    days, and the two conversions of Time.cpp between seconds since 1970 and broken-down time. */
module Calendar {
  const SECS_PER_MIN := 60
  const SECS_PER_HOUR := 3600
  const SECS_PER_DAY := 86400

  // ---- the calendar ----------------------------------------------------------------------------------------------

  predicate IsLeap(y: int)
  {
    y % 4 == 0 && (y % 100 != 0 || y % 400 == 0)
  }

  function YearLength(y: int): (n: nat)
    ensures 365 <= n <= 366
  {
    if IsLeap(y) then 366 else 365
  }

  function MonthLength(y: int, m: nat): nat
    requires 1 <= m <= 12
  {
    if m == 2 then (if IsLeap(y) then 29 else 28)
    else if m == 4 || m == 6 || m == 9 || m == 11 then 30
    else 31
  }

  // Days from 1 January of the year -9999 to 1 January of year y.
  function DaysBeforeYear(y: int): nat
    requires y >= -9999
    decreases y + 9999
  {
    if y == -9999 then 0 else DaysBeforeYear(y - 1) + YearLength(y - 1)
  }

  // Days from 1 January to the first of month m; month 13 stands for the end of the year.
  function DaysBeforeMonth(y: int, m: nat): nat
    requires m <= 13
  {
    if m <= 1 then 0 else DaysBeforeMonth(y, m - 1) + MonthLength(y, m - 1)
  }

  predicate ValidDate(y: int, m: nat, d: nat)
  {
    -9999 <= y <= 9999 && 1 <= m <= 12 && 1 <= d <= MonthLength(y, m)
  }

  // Days since 1 January of the year -9999.
  function DayNumber(y: int, m: nat, d: nat): int
    requires y >= -9999 && m <= 13
  {
    DaysBeforeYear(y) + DaysBeforeMonth(y, m) + d - 1
  }

  const EPOCH: nat := 4371587

  // Days of the week go round in sevens, 0 for Sunday, and 1 January 1970 was a Thursday.
  function Weekday(dayNumber: int): nat
  {
    (dayNumber - EPOCH + 4) % 7
  }

  // ---- closed forms ----------------------------------------------------------------------------------------------

  // Leap years among the years 1 to n.
  function LeapYears(n: nat): int
  {
    n / 4 - n / 100 + n / 400
  }

  lemma LeapYearsStep(n: nat)
    ensures LeapYears(n + 1) == LeapYears(n) + if IsLeap(n + 1) then 1 else 0
  {
    QuotientStep(n, 4);
    QuotientStep(n, 100);
    QuotientStep(n, 400);
  }

  lemma QuotientStep(n: nat, d: nat)
    requires d == 4 || d == 100 || d == 400
    ensures (n + 1) / d == n / d + if (n + 1) % d == 0 then 1 else 0
  {
  }

  lemma {:induction false} DaysBeforeYearClosed(y: int)
    requires y >= -9999
    ensures DaysBeforeYear(y) == 365 * (y + 9999) + LeapYears(y + 9999)
    decreases y + 9999
  {
    if y > -9999 {
      DaysBeforeYearClosed(y - 1);
      LeapYearsStep(y + 9998);
      LeapIsPeriodic(y - 1);
    }
  }

  lemma LeapIsPeriodic(y: int)
    ensures IsLeap(y) <==> IsLeap(y + 10000)
  {
    SameRemainder(y, 2500, 4);
    SameRemainder(y, 100, 100);
    SameRemainder(y, 25, 400);
  }

  lemma SameRemainder(y: int, k: int, d: nat)
    requires d == 4 || d == 100 || d == 400
    ensures (y + d * k) % d == y % d
  {
  }

  lemma EpochIs1970()
    ensures DaysBeforeYear(1970) == EPOCH
  {
    DaysBeforeYearClosed(1970);
  }

  // Two days whose place in the week everybody knows: the first of January of 1970 and of 2000.
  lemma KnownDays(a: int, b: int)
    requires a == 1970 && b == 2000
    ensures Weekday(DayNumber(a, 1, 1)) == 4 && Weekday(DayNumber(b, 1, 1)) == 6
    ensures DayNumber(b, 1, 1) - DayNumber(a, 1, 1) == 10957
  {
    hide DayNumber;
    FirstOfJanuary(a);
    FirstOfJanuary(b);
  }

  lemma FirstOfJanuary(y: int)
    requires y >= -9999
    ensures DayNumber(y, 1, 1) == 365 * (y + 9999) + LeapYears(y + 9999)
  {
    DaysBeforeYearClosed(y);
    hide DaysBeforeYear;
  }

  lemma MonthStarts(y: int)
    ensures var l := if IsLeap(y) then 1 else 0;
            && DaysBeforeMonth(y, 2) == 31 && DaysBeforeMonth(y, 3) == 59 + l && DaysBeforeMonth(y, 4) == 90 + l
            && DaysBeforeMonth(y, 5) == 120 + l && DaysBeforeMonth(y, 6) == 151 + l && DaysBeforeMonth(y, 7) == 181 + l
            && DaysBeforeMonth(y, 8) == 212 + l && DaysBeforeMonth(y, 9) == 243 + l && DaysBeforeMonth(y, 10) == 273 + l
            && DaysBeforeMonth(y, 11) == 304 + l && DaysBeforeMonth(y, 12) == 334 + l
            && DaysBeforeMonth(y, 13) == YearLength(y)
  {
  }
}
