/** EDM_DATETIMEOFFSET of agenttypesystem.c. */
module EdmDateTimes {
  import opened Basics
  import opened Calendar
  import opened EdmNumbers
  import opened EdmDates

  // struct tm and EDM_DATE_TIME_OFFSET, whose two byte flags are truth values here.
  datatype Tm = Tm(sec: int, min: int, hour: int, mday: int, mon: int, year: int, wday: int, yday: int, isdst: int)

  datatype DateTimeOffset = DateTimeOffset(dateTime: Tm, hasFraction: bool, fraction: nat,
                                           hasZone: bool, zoneHour: int, zoneMinute: nat)

  // Create_AGENT_DATA_TYPE_from_EDM_DATE_TIME_OFFSET: what it lets pass.
  predicate Valid(v: DateTimeOffset)
  {
    var t := v.dateTime;
    && ValidateDate(t.year + 1900, t.mon + 1, t.mday) == 0
    && 0 <= t.hour <= 23 && 0 <= t.min <= 59 && 0 <= t.sec <= 59
    && (v.hasFraction ==> v.fraction <= 999_999_999_999)
    && (v.hasZone ==> -23 <= v.zoneHour <= 23 && v.zoneMinute <= 59)
  }

  // ---- printing --------------------------------------------------------------------------------------------------

  // printf's %+.2d, which always writes a sign.
  function Forced(n: int): string { (if n < 0 then "-" else "+") + Padded(Magnitude(n), 2) }

  function FractionText(v: DateTimeOffset): string { if v.hasFraction then "." + Padded(v.fraction, 12) else "" }

  function ZoneText(v: DateTimeOffset): string
  {
    if v.hasZone then Forced(v.zoneHour) + ":" + Padded(v.zoneMinute, 2) + "\"" else "Z\""
  }

  // The four formats of lines 1428 to 1653.
  function ToString(v: DateTimeOffset): string
    requires Valid(v)
  {
    var t := v.dateTime;
    ValidateDateExactlyCalendarDates(t.year + 1900, t.mon + 1, t.mday);
    "\"" + (DateText(t.year + 1900, t.mon + 1, t.mday)
            + ("T" + (Padded(t.hour, 2) + (":" + (Padded(t.min, 2) + (":" + (Padded(t.sec, 2)
                                                                            + (FractionText(v) + ZoneText(v)))))))))
  }

  // ---- parsing ---------------------------------------------------------------------------------------------------

  // Seconds are optional: 0 without them.
  function ScanSeconds(s: string): Option<(nat, string)>
  {
    if s != [] && s[0] == ':' then Scan(s[1..], 2) else Some((0, s))
  }

  function DropDigits(s: string): string { s[|TakeDigits(s)|..] }

  // So are fractions, which strtoull reads, sign and white space included; the digits are then skipped, and something
  // must follow them.
  function ScanFraction(s: string): Option<(bool, nat, string)>
  {
    if s == [] || s[0] != '.' then Some((false, 0, s))
    else match Strtoul(s[1..], ULLONG_MAX)
         case None => None
         case Some(f) => if DropDigits(s[1..]) == [] then None else Some((true, f, DropDigits(s[1..])))
  }

  // sscanf3d2d: three characters for the hours, the sign among them, if there is one.
  function ScanZone(s: string): Option<(int, nat)>
  {
    var signed := s != [] && (s[0] == '+' || s[0] == '-');
    match Field(if signed then s[1..] else s, if signed then 2 else 3, ':')
    case None => None
    case Some(h) =>
      match Scan(h.1, 2)
      case None => None
      case Some(m) => Some((if signed && s[0] == '-' then 0 - h.0 else h.0, m.0))
  }

  function YearDay(year: int, month: nat, day: nat): int
    requires ValidDate(year, month, day)
  {
    DayNumber(year, month, day) - DaysBeforeYear(year)
  }

  // Lines 3551 to 3582: the checks, and the value with weekday and day of the year filled in.
  function Build(d: YearMonthDay, hour: nat, min: nat, sec: nat, hasFraction: bool, fraction: nat,
                 hasZone: bool, zoneHour: int, zoneMinute: nat): (v: Option<DateTimeOffset>)
    ensures v.Some? ==> Valid(v.value)
  {
    ValidateDateExactlyCalendarDates(d.year, d.month, d.day);
    if ValidateDate(d.year, d.month, d.day) != 0 || hour > 23 || min > 59 || sec > 59 || fraction > 999_999_999_999
       || zoneHour < -23 || zoneHour > 23 || zoneMinute > 59 then None
    else Some(DateTimeOffset(
                Tm(sec, min, hour, d.day, d.month - 1, d.year - 1900,
                   Weekday(DayNumber(d.year, d.month, d.day)), YearDay(d.year, d.month, d.day), -1),
                hasFraction, fraction, hasZone, zoneHour, zoneMinute))
  }

  // After the minutes: s is what follows the first colon and the two characters behind it.
  function ParseTail(d: YearMonthDay, hour: nat, min: nat, s: string): Option<DateTimeOffset>
  {
    match ScanSeconds(s)
    case None => None
    case Some(sec) =>
      match ScanFraction(sec.1)
      case None => None
      case Some(f) =>
        match ScanZone(f.2)
        case Some(z) => Build(d, hour, min, sec.0, f.0, f.1, true, z.0, z.1)
        case None => if f.2 == "Z\"" then Build(d, hour, min, sec.0, f.0, f.1, false, 0, 0) else None
  }

  function Parse(source: string): Option<DateTimeOffset>
  {
    if !Quoted(source) then None
    else match ScanDate(source[1..])
         case None => None
         case Some(d) =>
           match Expect(d.rest, 'T')
           case None => None
           case Some(t) =>
             match Field(t, 2, ':')
             case None => None
             case Some(hour) =>
               match Scan(hour.1, 2)
               case None => None
               case Some(min) => ParseTail(d, hour.0, min.0, min.1)
  }

  // Whatever is accepted is valid.
  lemma ParsedIsValid(source: string)
    ensures Parse(source).Some? ==> Valid(Parse(source).value)
  {
    hide Valid;
  }

  // ---- the round trip --------------------------------------------------------------------------------------------

  // What the text does not say has the value the parser fills in.
  predicate Normal(v: DateTimeOffset)
    requires Valid(v)
  {
    var t := v.dateTime;
    ValidateDateExactlyCalendarDates(t.year + 1900, t.mon + 1, t.mday);
    && t.wday == Weekday(DayNumber(t.year + 1900, t.mon + 1, t.mday))
    && t.yday == YearDay(t.year + 1900, t.mon + 1, t.mday)
    && t.isdst == -1
    && (!v.hasFraction ==> v.fraction == 0) && (!v.hasZone ==> v.zoneHour == 0 && v.zoneMinute == 0)
  }

  // The ranges of ISO 8601, with twelve digits of a second.
  predicate InRange(v: DateTimeOffset)
  {
    var t := v.dateTime;
    && 0 <= t.mon < 12 && 0 < t.mday && ValidDate(t.year + 1900, t.mon + 1, t.mday)
    && 0 <= t.hour < 24 && 0 <= t.min < 60 && 0 <= t.sec < 60
    && (v.hasFraction ==> v.fraction < 1_000_000_000_000)
    && (v.hasZone ==> -24 < v.zoneHour < 24 && v.zoneMinute < 60)
  }

  lemma ValidExactlyInRange(v: DateTimeOffset)
    ensures Valid(v) <==> InRange(v)
  {
    hide ValidateDate;
    ValidateDateExactlyCalendarDates(v.dateTime.year + 1900, v.dateTime.mon + 1, v.dateTime.mday);
  }

  // A date-time in these ranges is read back from its text exactly when it is in normal form.
  lemma RoundTripExactlyNormal(v: DateTimeOffset)
    requires InRange(v)
    ensures Valid(v)
    ensures Parse(ToString(v)) == Some(v) <==> Normal(v)
    ensures Parse(ToString(v)) == Some(Normalized(v))
  {
    ValidExactlyInRange(v);
    ToStringParses(v);
    hide ToString, Parse;
  }

  // Twelve digits, in pairs.
  function Twelve(n: nat): string
  {
    Two(n / 10000000000) + Two(n / 100000000) + Two(n / 1000000) + Two(n / 10000) + Two(n / 100) + Two(n)
  }

  lemma PaddedIsTwelve(n: nat)
    requires n < 1_000_000_000_000
    ensures Padded(n, 12) == Twelve(n)
  {
    hide Padded, Two;
    PaddedPair(n, 10);
    PaddedPair(n / 100, 8);
    PaddedPair(n / 100 / 100, 6);
    PaddedPair(n / 100 / 100 / 100, 4);
    PaddedPair(n / 100 / 100 / 100 / 100, 2);
    PaddedPair(n / 100 / 100 / 100 / 100 / 100, 0);
    ByHundreds(n);
    PaddedNothing();
  }

  lemma ByHundreds(n: nat)
    requires n < 1_000_000_000_000
    ensures n / 100 / 100 == n / 10000 && n / 10000 / 100 == n / 1000000 && n / 1000000 / 100 == n / 100000000
    ensures n / 100000000 / 100 == n / 10000000000 && n / 10000000000 / 100 == 0
  {
  }

  function FractionAndZone(v: DateTimeOffset): string
  {
    (if v.hasFraction then "." + Twelve(v.fraction) else "")
    + (if !v.hasZone then "Z\""
       else (if v.zoneHour < 0 then "-" else "+") + Two(Magnitude(v.zoneHour)) + ":" + Two(v.zoneMinute) + "\"")
  }

  // The text, character by character.
  lemma TextIs(v: DateTimeOffset)
    requires InRange(v)
    ensures Valid(v)
    ensures var t, year := v.dateTime, v.dateTime.year + 1900;
            ToString(v)
            == "\"" + (((if year < 0 then "-" else "") + Two(Magnitude(year) / 100) + Two(Magnitude(year)) + "-" + Two(t.mon + 1)
                         + "-" + Two(t.mday))
                        + ("T" + (Two(t.hour) + (":" + (Two(t.min) + (":" + (Two(t.sec) + FractionAndZone(v))))))))
  {
    hide Padded, Two, FractionAndZone, FractionText, ZoneText, ValidateDate, DateText, ValidDate;
    ValidExactlyInRange(v);
    DateInRange(v);
    DateTextIs(v.dateTime.year + 1900, v.dateTime.mon + 1, v.dateTime.mday);
    PaddedIsTwo(v.dateTime.hour);
    PaddedIsTwo(v.dateTime.min);
    PaddedIsTwo(v.dateTime.sec);
    FractionAndZoneIs(v);
  }

  lemma FractionAndZoneIs(v: DateTimeOffset)
    requires InRange(v)
    ensures FractionText(v) + ZoneText(v) == FractionAndZone(v)
  {
    hide Padded, Two, Twelve, ValidDate;
    if v.hasFraction {
      PaddedIsTwelve(v.fraction);
    }
    if v.hasZone {
      PaddedIsTwo(Magnitude(v.zoneHour));
      PaddedIsTwo(v.zoneMinute);
    }
  }

  function Normalized(v: DateTimeOffset): (n: DateTimeOffset)
    requires Valid(v)
    ensures Valid(n) && Normal(n)
    ensures n == v <==> Normal(v)
  {
    var t := v.dateTime;
    ValidateDateExactlyCalendarDates(t.year + 1900, t.mon + 1, t.mday);
    DateTimeOffset(t.(wday := Weekday(DayNumber(t.year + 1900, t.mon + 1, t.mday)),
                      yday := YearDay(t.year + 1900, t.mon + 1, t.mday), isdst := -1),
                   v.hasFraction, if v.hasFraction then v.fraction else 0,
                   v.hasZone, if v.hasZone then v.zoneHour else 0, if v.hasZone then v.zoneMinute else 0)
  }

  lemma ZoneSteps(sign: char, s: string, h: nat, rest: string, m: nat, end: string)
    requires sign == '+' || sign == '-'
    requires Field(s, 2, ':') == Some((h, rest)) && Scan(rest, 2) == Some((m, end))
    ensures ScanZone([sign] + s) == Some((if sign == '-' then 0 - h else h, m))
  {
    hide Field, Scan;
    assert ([sign] + s)[1..] == s;
  }

  lemma ZoneScans(v: DateTimeOffset)
    requires Valid(v)
    ensures ScanZone(ZoneText(v)) == if v.hasZone then Some((v.zoneHour, v.zoneMinute)) else None
    ensures !v.hasZone ==> ZoneText(v) == "Z\""
    ensures ZoneText(v) != [] && ZoneText(v)[0] != '.' && ZoneText(v)[0] != ':' && !IsDigit(ZoneText(v)[0])
  {
    if v.hasZone {
      SmallPow10();
      var sign := if v.zoneHour < 0 then '-' else '+';
      var h, m := Padded(Magnitude(v.zoneHour), 2), Padded(v.zoneMinute, 2);
      PaddedField(Magnitude(v.zoneHour), 2, ':', m + "\"");
      PaddedScans(v.zoneMinute, 2, "\"");
      ZoneSteps(sign, h + ([':'] + (m + "\"")), Magnitude(v.zoneHour), m + "\"", v.zoneMinute, "\"");
      hide Padded, Field, Scan, Pow10, ScanZone;
      assert ZoneText(v) == [sign] + (h + ([':'] + (m + "\"")));
    } else {
      assert TakeDigits("Z\"") == "";
    }
  }

  lemma FractionSteps(d: string, rest: string)
    requires d != [] && (forall c :: c in d ==> IsDigit(c)) && rest != [] && !IsDigit(rest[0])
    requires Value(d) <= 999_999_999_999
    ensures ScanFraction("." + (d + rest)) == Some((true, Value(d), rest))
  {
    DigitsThenOther(d, rest);
    NumberThenOther(d, rest);
    hide TakeDigits, Value, SignedText;
    assert ("." + (d + rest))[1..] == d + rest;
    assert (d + rest)[|d|..] == rest;
  }

  lemma FractionScans(v: DateTimeOffset, rest: string)
    requires Valid(v) && rest != [] && rest[0] != '.' && !IsDigit(rest[0])
    ensures ScanFraction(FractionText(v) + rest)
         == Some((v.hasFraction, if v.hasFraction then v.fraction else 0, rest))
  {
    if v.hasFraction {
      hide Padded, Value, ScanFraction, Pow10, TakeDigits;
      var d := Padded(v.fraction, 12);
      assert |d| == 12 && Value(d) == v.fraction by {
        SmallPow10();
        PaddedValue(v.fraction, 12);
      }
      FractionSteps(d, rest);
      assert FractionText(v) + rest == "." + (d + rest);
    } else {
      assert "" + rest == rest;
    }
  }

  lemma NumberThenOther(d: string, rest: string)
    requires d != [] && (forall c :: c in d ==> IsDigit(c)) && (rest == [] || !IsDigit(rest[0]))
    ensures SignedText(d + rest) == Some((false, Value(d)))
  {
    DigitsThenOther(d, rest);
    assert d[0] in d && (d + rest)[0] == d[0];
    hide Value, TakeDigits;
  }

  lemma SecondsScan(sec: nat, rest: string)
    requires sec < 100 && (rest == [] || !IsDigit(rest[0]))
    ensures ScanSeconds(":" + (Padded(sec, 2) + rest)) == Some((sec, rest))
  {
    SmallPow10();
    PaddedScans(sec, 2, rest);
    hide Padded, Scan, Pow10;
    assert (":" + (Padded(sec, 2) + rest))[1..] == Padded(sec, 2) + rest;
  }

  lemma TailSteps(v: DateTimeOffset, d: YearMonthDay, s: string, s1: string, s2: string)
    requires Valid(v)
    requires d.year == v.dateTime.year + 1900 && d.month == v.dateTime.mon + 1 && d.day == v.dateTime.mday
    requires ScanSeconds(s) == Some((v.dateTime.sec, s1))
    requires ScanFraction(s1) == Some((v.hasFraction, if v.hasFraction then v.fraction else 0, s2))
    requires ScanZone(s2) == if v.hasZone then Some((v.zoneHour, v.zoneMinute)) else None
    requires !v.hasZone ==> s2 == "Z\""
    ensures ParseTail(d, v.dateTime.hour, v.dateTime.min, s) == Some(Normalized(v))
  {
    hide ScanSeconds, ScanFraction, ScanZone, DayNumber, YearDay, Weekday;
  }

  lemma TailParses(v: DateTimeOffset, d: YearMonthDay)
    requires Valid(v)
    requires d.year == v.dateTime.year + 1900 && d.month == v.dateTime.mon + 1 && d.day == v.dateTime.mday
    ensures ParseTail(d, v.dateTime.hour, v.dateTime.min,
                      ":" + (Padded(v.dateTime.sec, 2) + (FractionText(v) + ZoneText(v)))) == Some(Normalized(v))
  {
    var s2 := ZoneText(v);
    var s1 := FractionText(v) + s2;
    ZoneScans(v);
    FractionScans(v, s2);
    assert s1 != [] && !IsDigit(s1[0]);
    SecondsScan(v.dateTime.sec, s1);
    hide ScanSeconds, ScanFraction, ScanZone, FractionText, ZoneText, Padded, ParseTail;
    TailSteps(v, d, ":" + (Padded(v.dateTime.sec, 2) + s1), s1, s2);
  }

  lemma ParseSteps(source: string, d: YearMonthDay, t: string, hour: nat, h: string, min: nat, m: string)
    requires Quoted(source) && ScanDate(source[1..]) == Some(d) && Expect(d.rest, 'T') == Some(t)
    requires Field(t, 2, ':') == Some((hour, h)) && Scan(h, 2) == Some((min, m))
    ensures Parse(source) == ParseTail(d, hour, min, m)
  {
    hide Quoted, ScanDate, Expect, Field, Scan, ParseTail;
  }

  lemma ToStringParses(v: DateTimeOffset)
    requires Valid(v)
    ensures Parse(ToString(v)) == Some(Normalized(v))
  {
    hide ScanDate, Field, Scan, ParseTail, Padded, FractionText, ZoneText, DateText, ToString, Parse, Pow10, Quoted, Expect,
         Normalized, ValidateDate;
    var t := v.dateTime;
    DateInRange(v);
    SmallPow10();
    var date := DateText(t.year + 1900, t.mon + 1, t.mday);
    var hour, min, sec := Padded(t.hour, 2), Padded(t.min, 2), Padded(t.sec, 2);
    var m := ":" + (sec + (FractionText(v) + ZoneText(v)));
    var h := min + m;
    var s := hour + ([':'] + h);
    var d := YearMonthDay(t.year + 1900, t.mon + 1, t.mday, ['T'] + s);
    DateTextScans(t.year + 1900, t.mon + 1, t.mday, ['T'] + s);
    PaddedField(t.hour, 2, ':', h);
    PaddedScans(t.min, 2, m);
    TailParses(v, d);
    TextInOrder(v, date, hour, min, sec);
    QuotedText(v);
    OneTaken('T', s);
    assert ToString(v)[1..] == date + (['T'] + s);
    ParseSteps(ToString(v), d, s, t.hour, h, t.min, m);
  }

  lemma DateInRange(v: DateTimeOffset)
    requires Valid(v)
    ensures -10000 < v.dateTime.year + 1900 < 10000 && 0 <= v.dateTime.mon < 12 && 0 < v.dateTime.mday < 100
  {
    ValidateDateExactlyCalendarDates(v.dateTime.year + 1900, v.dateTime.mon + 1, v.dateTime.mday);
    hide ValidateDate;
  }

  lemma OneTaken(c: char, s: string)
    requires c != '\0'
    ensures Expect([c] + s, c) == Some(s)
  {
    assert ([c] + s)[1..] == s;
  }

  lemma TextInOrder(v: DateTimeOffset, date: string, hour: string, min: string, sec: string)
    requires Valid(v) && date == DateText(v.dateTime.year + 1900, v.dateTime.mon + 1, v.dateTime.mday)
    requires hour == Padded(v.dateTime.hour, 2) && min == Padded(v.dateTime.min, 2) && sec == Padded(v.dateTime.sec, 2)
    ensures ToString(v)
         == "\"" + (date + (['T'] + (hour + ([':'] + (min + (":" + (sec + (FractionText(v) + ZoneText(v)))))))))
  {
    hide DateText, Padded, FractionText, ZoneText, ValidateDate;
    assert "T" == ['T'] && ":" == [':'];
  }

  lemma QuotedText(v: DateTimeOffset)
    requires Valid(v)
    ensures Quoted(ToString(v))
  {
    hide DateText, Padded, FractionText, ZoneText, ValidateDate;
    ZoneEndsQuoted(v);
  }

  lemma ZoneEndsQuoted(v: DateTimeOffset)
    ensures ZoneText(v) != "" && ZoneText(v)[|ZoneText(v)| - 1] == '"'
  {
    hide Forced, Padded;
  }
}
