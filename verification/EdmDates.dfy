/** Dates and date-times of agenttypesystem.c: printing, scanning and validating. */
module EdmDates {
  import opened Basics
  import opened Calendar
  import opened EdmNumbers

  // ---- validation ------------------------------------------------------------------------------------------------

  // ValidateDate, branch by branch; 0 is success.
  function ValidateDate(year: int, month: int, day: int): int
  {
    if year <= -10000 || year >= 10000 then 1
    else if day <= 0 then 1
    else if month == 1 || month == 3 || month == 5 || month == 7 || month == 8 || month == 10 || month == 12 then
      if day <= 31 then 0 else 1
    else if month == 4 || month == 6 || month == 9 || month == 11 then
      if day <= 30 then 0 else -1
    else if month == 2 then
      if year % 400 == 0 then (if day <= 29 then 0 else 1)
      else if year % 100 == 0 then (if day <= 28 then 0 else 1)
      else if year % 4 == 0 then (if day <= 29 then 0 else 1)
      else if day <= 28 then 0 else 1
    else 1
  }

  // It accepts exactly the dates of the calendar that is defined by counting days.
  lemma ValidateDateExactlyCalendarDates(year: int, month: int, day: int)
    ensures ValidateDate(year, month, day) == 0 <==> month >= 0 && day >= 0 && ValidDate(year, month, day)
  {
    if year % 400 == 0 {
      FourthsOfFourHundredths(year);
    }
  }

  lemma FourthsOfFourHundredths(year: int)
    requires year % 400 == 0
    ensures year % 4 == 0
  {
    assert year == 4 * (100 * (year / 400));
  }

  // ---- scanning --------------------------------------------------------------------------------------------------

  // Exactly n digits and no digit after them: their value and what follows.
  function Scan(s: string, n: nat): Option<(nat, string)>
  {
    var d := TakeDigits(s);
    if |d| != n then None else Some((Value(d), s[n..]))
  }

  // scanAndReadNDigitsInt: it tries for one digit more than wanted, so as to notice it. The accumulated value stays
  // below 10^(n+1).
  method ScanAndReadNDigits(source: string, position: nat, n: nat) returns (ok: bool, value: nat, next: nat)
    requires position <= |source| && '\0' !in source
    ensures position <= next <= |source| && value < Pow10(n + 1)
    ensures Scan(source[position..], n) == if ok then Some((value, source[next..])) else None
  {
    ghost var d := TakeDigits(source[position..]);
    var left: nat := n + 1;
    value, next := 0, position;
    while IsDigit(At(source, next)) && left > 0
      invariant position <= next <= |source| && left + (next - position) == n + 1 && next - position <= |d|
      invariant value == Value(d[..next - position]) < Pow10(next - position)
      decreases left
    {
      var i := next - position;
      assert i < |d| by {
        assert i < |source[position..]| && source[position..][i] == source[next];
      }
      assert d[..i + 1][..i] == d[..i] && d[i] == source[next];
      value := value * 10 + DigitValue(source[next]);
      next := next + 1;
      left := left - 1;
    }
    ok := left == 1;
    var i := next - position;
    if left > 0 {
      DigitsEnd(source[position..], i);
      assert d[..i] == d;
    }
    MorePow10(i, n + 1);
    assert source[position..][i..] == source[next..];
  }

  lemma {:induction false} DigitsEnd(s: string, i: nat)
    requires i <= |TakeDigits(s)| && (i == |s| || !IsDigit(s[i]))
    ensures i == |TakeDigits(s)|
  {
    if i > 0 {
      DigitsEnd(s[1..], i - 1);
    }
  }

  lemma {:induction false} MorePow10(a: nat, b: nat)
    requires a <= b
    ensures Pow10(a) <= Pow10(b)
    decreases b
  {
    if a < b {
      MorePow10(a, b - 1);
    }
  }

  function Expect(s: string, c: char): Option<string>
    requires c != '\0'
  {
    if s != [] && s[0] == c then Some(s[1..]) else None
  }

  // A field of n digits, then c.
  function Field(s: string, n: nat, c: char): Option<(nat, string)>
    requires c != '\0'
  {
    match Scan(s, n)
    case None => None
    case Some(r) =>
      match Expect(r.1, c)
      case None => None
      case Some(rest) => Some((r.0, rest))
  }

  // Year, month and day, with an optional minus sign in front: what is common to the two parsers.
  datatype YearMonthDay = YearMonthDay(year: int, month: nat, day: nat, rest: string)

  function ScanDate(s: string): Option<YearMonthDay>
  {
    var negative := s != [] && s[0] == '-';
    match Field(if negative then s[1..] else s, 4, '-')
    case None => None
    case Some(y) =>
      match Field(y.1, 2, '-')
      case None => None
      case Some(m) =>
        match Scan(m.1, 2)
        case None => None
        case Some(d) => Some(YearMonthDay(if negative then 0 - y.0 else y.0, m.0, d.0, d.1))
  }

  predicate Quoted(source: string)
  {
    |source| >= 2 && source[0] == '"' && source[|source| - 1] == '"'
  }

  // ---- EDM_DATE --------------------------------------------------------------------------------------------------

  datatype Date = Date(year: int, month: nat, day: nat)

  predicate ValidEdmDate(d: Date) { ValidDate(d.year, d.month, d.day) }

  // Create_AGENT_DATA_TYPE_from_date.
  function CreateDate(year: int, month: int, day: int): (d: Option<Date>)
    ensures d.Some? <==> month >= 0 && day >= 0 && ValidDate(year, month, day)
    ensures d.Some? ==> d.value == Date(year, month, day)
  {
    ValidateDateExactlyCalendarDates(year, month, day);
    if ValidateDate(year, month, day) != 0 then None else Some(Date(year, month, day))
  }

  function ParseDate(source: string): (d: Option<Date>)
    ensures d.Some? ==> ValidEdmDate(d.value)
  {
    if !Quoted(source) then None
    else match ScanDate(source[1..])
         case None => None
         case Some(r) => CreateDate(r.year, r.month, r.day)
  }

  // n with at least w digits, as printf writes it under the precision w.
  function Padded(n: nat, w: nat): (s: string)
    ensures forall c :: c in s ==> IsDigit(c)
  {
    if w == 0 then (if n == 0 then "" else Decimal(n))
    else (if n < 10 then Padded(0, w - 1) + [Digit(n)] else Padded(n / 10, w - 1) + [Digit(n % 10)])
  }

  lemma {:induction false} PaddedValue(n: nat, w: nat)
    requires n < Pow10(w)
    ensures |Padded(n, w)| == w && Value(Padded(n, w)) == n
  {
    if w > 0 {
      var high := if n < 10 then 0 else n / 10;
      PaddedValue(high, w - 1);
      var s := Padded(n, w);
      assert s[..w - 1] == Padded(high, w - 1);
    }
  }

  function DateText(year: int, month: nat, day: nat): string
  {
    Sign(year) + Padded(Magnitude(year), 4) + "-" + Padded(month, 2) + "-" + Padded(day, 2)
  }

  function DateToString(d: Date): string
  {
    "\"" + DateText(d.year, d.month, d.day) + "\""
  }

  lemma PaddedScans(n: nat, w: nat, rest: string)
    requires n < Pow10(w) && (rest == [] || !IsDigit(rest[0]))
    ensures Scan(Padded(n, w) + rest, w) == Some((n, rest))
  {
    PaddedValue(n, w);
    DigitsThenOther(Padded(n, w), rest);
    hide Padded, Value, TakeDigits;
    assert (Padded(n, w) + rest)[w..] == rest;
  }

  lemma PaddedField(n: nat, w: nat, c: char, rest: string)
    requires n < Pow10(w) && !IsDigit(c) && c != '\0'
    ensures Field(Padded(n, w) + ([c] + rest), w, c) == Some((n, rest))
  {
    PaddedScans(n, w, [c] + rest);
    hide Scan, Padded;
    assert ([c] + rest)[1..] == rest;
  }

  lemma SmallPow10()
    ensures Pow10(2) == 100 && Pow10(4) == 10000 && Pow10(12) == 1000000000000
  {
    assert Pow10(6) == 1000000;
  }

  lemma DateSteps(s: string, negative: bool, y: nat, s1: string, m: nat, s2: string, d: nat, rest: string)
    requires Field(s, 4, '-') == Some((y, s1)) && Field(s1, 2, '-') == Some((m, s2)) && Scan(s2, 2) == Some((d, rest))
    requires !negative ==> s != [] && s[0] != '-'
    ensures ScanDate(if negative then "-" + s else s)
         == Some(YearMonthDay(if negative then 0 - y else y, m, d, rest))
  {
    hide Field, Scan;
    assert ("-" + s)[1..] == s;
  }

  lemma DateTextScans(year: int, month: nat, day: nat, rest: string)
    requires -10000 < year < 10000 && month < 100 && day < 100 && (rest == [] || !IsDigit(rest[0]))
    ensures ScanDate(DateText(year, month, day) + rest) == Some(YearMonthDay(year, month, day, rest))
  {
    SmallPow10();
    var y, m, d := Padded(Magnitude(year), 4), Padded(month, 2), Padded(day, 2);
    var s2 := d + rest;
    var s1 := m + (['-'] + s2);
    var s0 := y + (['-'] + s1);
    PaddedField(Magnitude(year), 4, '-', s1);
    PaddedField(month, 2, '-', s2);
    PaddedScans(day, 2, rest);
    PaddedValue(Magnitude(year), 4);
    assert y[0] in y;
    assert s0[0] != '-';
    DateSteps(s0, year < 0, Magnitude(year), s1, month, s2, day, rest);
    DateTextOrder(Sign(year), y, m, d, rest);
    hide Padded, Scan, Field, Pow10, ScanDate;
    assert "" + s0 == s0;
  }

  lemma DateTextOrder(sign: string, y: string, m: string, d: string, rest: string)
    ensures sign + y + "-" + m + "-" + d + rest == sign + (y + (['-'] + (m + (['-'] + (d + rest)))))
  {
  }

  // Every valid date is read back from its text.
  lemma DateRoundTrip(d: Date)
    requires ValidEdmDate(d)
    ensures ParseDate(DateToString(d)) == Some(d)
  {
    hide DateText, ScanDate;
    var text := DateText(d.year, d.month, d.day);
    DateTextScans(d.year, d.month, d.day, "\"");
    assert DateToString(d)[1..] == text + "\"";
  }

  // Lines 1392 to 1417: the digits by division into a buffer of 14, which a signed year fills to the last.
  method DateIntoBuffer(d: Date) returns (buffer: array<char>, length: nat)
    requires ValidEdmDate(d)
    ensures buffer.Length == 14 && length < 14 && buffer[..length] == DateToString(d) && buffer[length] == '\0'
    ensures length == 13 <==> d.year < 0
  {
    buffer := new char[14];
    var year := d.year;
    buffer[0] := '"';
    var pos := 1;
    if year < 0 {
      buffer[pos] := '-';
      pos := pos + 1;
      year := -year;
    }
    ghost var t0 := buffer[..pos];
    assert t0 == "\"" + Sign(d.year);
    DateTextFrom(t0, d);
    hide Padded, Sign, DateToString, DateText;
    pos := PutYear(buffer, pos, year, t0);
    pos := PutTwoDigits(buffer, pos, d.month, t0 + Padded(year, 4));
    pos := PutTwoDigits(buffer, pos, d.day, t0 + Padded(year, 4) + "-" + Padded(d.month, 2));
    pos := PutQuote(buffer, pos, t0 + Padded(year, 4) + "-" + Padded(d.month, 2) + "-" + Padded(d.day, 2));
    Terminate(buffer, pos);
    length := pos;
  }

  lemma DateTextFrom(t0: string, d: Date)
    requires ValidEdmDate(d) && t0 == "\"" + Sign(d.year)
    ensures DateToString(d) == t0 + Padded(Magnitude(d.year), 4) + "-" + Padded(d.month, 2) + "-" + Padded(d.day, 2) + "\""
    ensures d.month < 100 && d.day < 100
  {
    hide Padded, Sign;
    var sign, y, m, k := Sign(d.year), Padded(Magnitude(d.year), 4), Padded(d.month, 2), Padded(d.day, 2);
    assert "\"" + (sign + y + "-" + m + "-" + k) + "\"" == "\"" + sign + y + "-" + m + "-" + k + "\"";
  }

  method PutYear(buffer: array<char>, pos: nat, year: nat, ghost done: string) returns (next: nat)
    requires pos + 4 <= buffer.Length && year < 10000 && buffer[..pos] == done
    modifies buffer
    ensures next == pos + 4 && buffer[..next] == done + Padded(year, 4)
  {
    FourDigits(year);
    hide Padded, Digit;
    next := PutDigit(buffer, pos, year / 1000, done);
    ghost var t2 := buffer[..next];
    next := PutDigit(buffer, next, year % 1000 / 100, t2);
    ghost var t3 := buffer[..next];
    next := PutDigit(buffer, next, year % 100 / 10, t3);
    ghost var t4 := buffer[..next];
    next := PutDigit(buffer, next, year % 10, t4);
  }

  method PutQuote(buffer: array<char>, pos: nat, ghost done: string) returns (next: nat)
    requires pos < buffer.Length && buffer[..pos] == done
    modifies buffer
    ensures next == pos + 1 && buffer[..next] == done + "\""
  {
    buffer[pos] := '"';
    next := pos + 1;
  }

  method PutTwoDigits(buffer: array<char>, pos: nat, n: nat, ghost done: string) returns (next: nat)
    requires pos + 3 <= buffer.Length && n < 100 && buffer[..pos] == done
    modifies buffer
    ensures next == pos + 3 && buffer[..next] == done + "-" + Padded(n, 2)
  {
    TwoDigits(n);
    hide Padded;
    buffer[pos] := '-';
    assert buffer[..pos + 1] == done + "-";
    next := PutDigit(buffer, pos + 1, n / 10, done + "-");
    next := PutDigit(buffer, next, n % 10, done + "-" + [Digit(n / 10)]);
  }

  lemma TwoDigits(n: nat)
    requires n < 100
    ensures Padded(n, 2) == [Digit(n / 10), Digit(n % 10)]
  {
    assert Padded(0, 0) == "";
    if n >= 10 {
      assert Padded(n / 10, 1) == Padded(0, 0) + [Digit(n / 10)];
    } else {
      assert Padded(0, 1) == Padded(0, 0) + [Digit(0)];
    }
  }

  lemma FourDigits(n: nat)
    requires n < 10000
    ensures Padded(n, 4) == [Digit(n / 1000), Digit(n % 1000 / 100), Digit(n % 100 / 10), Digit(n % 10)]
  {
    PaddedTail(n, 3);
    PaddedTail(n / 10, 2);
    TwoDigits(n / 10 / 10);
    assert n / 10 / 10 == n / 100 && n / 100 / 10 == n / 1000;
    assert n / 100 % 10 == n % 1000 / 100 && n / 10 % 10 == n % 100 / 10;
    hide Padded, Digit;
  }

  lemma PaddedTail(n: nat, w: nat)
    ensures Padded(n, w + 1) == Padded(n / 10, w) + [Digit(n % 10)]
  {
  }

  // ---- the layout ------------------------------------------------------------------------------------------------

  function Two(n: nat): string { ["0123456789"[n / 10 % 10], "0123456789"[n % 10]] }

  lemma PaddedPair(n: nat, w: nat)
    ensures Padded(n, w + 2) == Padded(n / 100, w) + Two(n)
  {
    PaddedTail(n, w + 1);
    PaddedTail(n / 10, w);
    DigitIs(n / 10 % 10);
    DigitIs(n % 10);
    hide Padded, Digit;
    assert n / 10 / 10 == n / 100;
  }

  lemma PaddedNothing()
    ensures Padded(0, 0) == ""
  {
  }

  lemma PaddedIsTwo(n: nat)
    requires n < 100
    ensures Padded(n, 2) == Two(n)
  {
    PaddedPair(n, 0);
    PaddedNothing();
    hide Padded, Two;
  }

  lemma PaddedIsFour(n: nat)
    requires n < 10000
    ensures Padded(n, 4) == Two(n / 100) + Two(n)
  {
    PaddedPair(n, 2);
    PaddedIsTwo(n / 100);
  }

  lemma DateTextIs(year: int, month: nat, day: nat)
    requires -10000 < year < 10000 && month < 100 && day < 100
    ensures DateText(year, month, day)
         == (if year < 0 then "-" else "") + Two(Magnitude(year) / 100) + Two(Magnitude(year)) + "-" + Two(month) + "-" + Two(day)
  {
    PaddedIsFour(Magnitude(year));
    PaddedIsTwo(month);
    PaddedIsTwo(day);
    hide Padded, Two;
  }

  // ---- exactly what is read as a date ----------------------------------------------------------------------------

  predicate Digits(s: string, n: nat, v: int)
  {
    |s| == n && (forall c :: c in s ==> '0' <= c <= '9') && Value(s) == v
  }

  lemma ScanExactly(s: string, n: nat, v: nat, rest: string)
    ensures Scan(s, n) == Some((v, rest))
       <==> exists d :: s == d + rest && Digits(d, n, v) && (rest == "" || !('0' <= rest[0] <= '9'))
  {
    hide Value, TakeDigits;
    if Scan(s, n) == Some((v, rest)) {
      var d := TakeDigits(s);
      assert s == d + rest && Digits(d, n, v);
    }
    if d :| s == d + rest && Digits(d, n, v) && (rest == "" || !('0' <= rest[0] <= '9')) {
      DigitsThenOther(d, rest);
      assert s[n..] == rest;
    }
  }

  // Year, month and day in digits, with hyphens between, a minus sign before or none, and no digit behind.
  ghost predicate DateAt(s: string, date: YearMonthDay, sign: string, y: string, m: string, d: string)
  {
    && s == sign + (y + ("-" + (m + ("-" + (d + date.rest)))))
    && (sign == "" || sign == "-") && Digits(y, 4, if sign == "-" then 0 - date.year else date.year)
    && Digits(m, 2, date.month) && Digits(d, 2, date.day)
    && (date.rest == "" || !('0' <= date.rest[0] <= '9'))
  }

  lemma FieldExactly(s: string, n: nat, v: nat, rest: string)
    ensures Field(s, n, '-') == Some((v, rest)) <==> exists d :: s == d + ("-" + rest) && Digits(d, n, v)
  {
    hide Value, Digits, Scan;
    var after := "-" + rest;
    assert after[1..] == rest;
    ScanExactly(s, n, v, after);
    if Field(s, n, '-') == Some((v, rest)) {
      var r := Scan(s, n).value;
      assert r.1 == [r.1[0]] + r.1[1..];
    }
  }

  lemma ScanDateRead(s: string, date: YearMonthDay, sign: string, y: string, m: string, d: string)
    requires DateAt(s, date, sign, y, m, d)
    ensures ScanDate(s) == Some(date)
  {
    hide Value, Scan, Field;
    var s2 := d + date.rest;
    var s1 := m + ("-" + s2);
    var s0 := y + ("-" + s1);
    FieldExactly(s0, 4, if sign == "-" then 0 - date.year else date.year, s1);
    FieldExactly(s1, 2, date.month, s2);
    ScanExactly(s2, 2, date.day, date.rest);
    assert y[0] in y && s0[0] == y[0];
    assert sign == "" ==> s == s0;
    assert sign == "-" ==> s[1..] == s0;
  }

  lemma ScanDateFields(s: string)
    requires ScanDate(s).Some?
    ensures var r, negative := ScanDate(s).value, s != [] && s[0] == '-';
            exists s1, s2 :: Field(if negative then s[1..] else s, 4, '-') == Some((if negative then 0 - r.year else r.year, s1))
                             && Field(s1, 2, '-') == Some((r.month, s2)) && Scan(s2, 2) == Some((r.day, r.rest))
  {
    hide Field, Scan;
    var fy := Field(if s != [] && s[0] == '-' then s[1..] else s, 4, '-').value;
    var fm := Field(fy.1, 2, '-').value;
    assert Field(fy.1, 2, '-') == Some((fm.0, fm.1));
  }

  lemma ReadScanDate(s: string)
    requires ScanDate(s).Some?
    ensures exists sign, y, m, d :: DateAt(s, ScanDate(s).value, sign, y, m, d)
  {
    hide ScanDate, Value, Scan, Field, Digits, DateAt;
    ScanDateFields(s);
    var r, negative := ScanDate(s).value, s != [] && s[0] == '-';
    var s0, year := if negative then s[1..] else s, if negative then 0 - r.year else r.year;
    var s1, s2 :| Field(s0, 4, '-') == Some((year, s1)) && Field(s1, 2, '-') == Some((r.month, s2)) && Scan(s2, 2) == Some((r.day, r.rest));
    FieldExactly(s0, 4, year, s1);
    FieldExactly(s1, 2, r.month, s2);
    ScanExactly(s2, 2, r.day, r.rest);
    var y :| s0 == y + ("-" + s1) && Digits(y, 4, year);
    var m :| s1 == m + ("-" + s2) && Digits(m, 2, r.month);
    var d :| s2 == d + r.rest && Digits(d, 2, r.day);
    var sign := if negative then "-" else "";
    WithSign(s);
    RestNoDigit(s2, 2, r.day, r.rest);
    DateAtOf(r, sign, y, m, d);
  }

  lemma WithSign(s: string)
    ensures s == if s != [] && s[0] == '-' then "-" + s[1..] else "" + s
  {
  }

  lemma RestNoDigit(s: string, n: nat, v: nat, rest: string)
    requires Scan(s, n) == Some((v, rest))
    ensures rest == "" || !('0' <= rest[0] <= '9')
  {
    hide Value;
    assert s == TakeDigits(s) + rest;
  }

  lemma DateAtOf(date: YearMonthDay, sign: string, y: string, m: string, d: string)
    requires sign == "" || sign == "-"
    requires Digits(y, 4, if sign == "-" then 0 - date.year else date.year)
    requires Digits(m, 2, date.month) && Digits(d, 2, date.day) && (date.rest == "" || !('0' <= date.rest[0] <= '9'))
    ensures DateAt(sign + (y + ("-" + (m + ("-" + (d + date.rest))))), date, sign, y, m, d)
  {
    hide Digits;
  }

  // An EDM_DATE is read exactly from a valid date in this form between quotes; more may stand behind it.
  lemma ParseDateExactly(source: string, date: Date)
    ensures ParseDate(source) == Some(date)
       <==> && |source| >= 2 && source[0] == '"' && source[|source| - 1] == '"'
            && ValidDate(date.year, date.month, date.day)
            && exists rest, sign, y, m, d :: DateAt(source[1..], YearMonthDay(date.year, date.month, date.day, rest), sign, y, m, d)
  {
    hide DateAt, ScanDate;
    if |source| >= 2 {
      if ScanDate(source[1..]).Some? {
        var r := ScanDate(source[1..]).value;
        ReadScanDate(source[1..]);
        assert r == YearMonthDay(r.year, r.month, r.day, r.rest);
      }
      if rest, sign, y, m, d :| DateAt(source[1..], YearMonthDay(date.year, date.month, date.day, rest), sign, y, m, d) {
        ScanDateRead(source[1..], YearMonthDay(date.year, date.month, date.day, rest), sign, y, m, d);
      }
    }
  }
}
