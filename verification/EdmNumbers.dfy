/** Integers of agenttypesystem.c: the printers of AgentDataTypes_ToString, which find the digits from the highest rank
    down, and the parsers of CreateAgentDataType_From_String. */
module EdmNumbers {
  import opened Basics

  // ---- decimal text ----------------------------------------------------------------------------------------------

  predicate IsDigit(c: char) { '0' <= c <= '9' }

  function Digit(d: nat): (c: char)
    requires d < 10
    ensures IsDigit(c) && DigitValue(c) == d
  {
    '0' + d as char
  }

  function DigitValue(c: char): (d: nat)
    requires IsDigit(c)
    ensures d < 10
  {
    c as int - '0' as int
  }

  lemma DigitIs(d: nat)
    requires d < 10
    ensures Digit(d) == "0123456789"[d] && DigitValue("0123456789"[d]) == d
  {
  }

  // The canonical decimal form: no leading zeros.
  function Decimal(n: nat): (s: string)
    ensures |s| >= 1 && forall c :: c in s ==> IsDigit(c)
  {
    if n < 10 then [Digit(n)] else Decimal(n / 10) + [Digit(n % 10)]
  }

  // The number that digits stand for.
  function Value(s: string): nat
    requires forall c :: c in s ==> IsDigit(c)
  {
    if s == [] then 0 else Value(s[..|s| - 1]) * 10 + DigitValue(s[|s| - 1])
  }

  lemma {:induction false} ValueOfDecimal(n: nat)
    ensures Value(Decimal(n)) == n
    ensures Decimal(n)[0] == '0' ==> n == 0
  {
    if n < 10 {
      assert Decimal(n)[..0] == [];
    } else {
      ValueOfDecimal(n / 10);
      assert Decimal(n)[..|Decimal(n)| - 1] == Decimal(n / 10);
    }
  }

  function Pow10(k: nat): (p: nat)
    ensures p >= 1
  {
    if k == 0 then 1 else 10 * Pow10(k - 1)
  }

  lemma {:induction false} DecimalFits(n: nat, k: nat)
    requires k >= 1 && n < Pow10(k)
    ensures |Decimal(n)| <= k
  {
    if n >= 10 {
      DecimalFits(n / 10, k - 1);
    }
  }

  function Magnitude(n: int): nat { if n < 0 then -n else n }

  function Sign(n: int): string { if n < 0 then "-" else "" }

  function Printed(n: int): string
  {
    Sign(n) + Decimal(Magnitude(n))
  }

  // ---- printing --------------------------------------------------------------------------------------------------

  // Nothing before the first digit other than zero.
  function Leading(high: nat): string
  {
    if high == 0 then "" else Decimal(high)
  }

  lemma LeadingStep(high: nat, d: nat)
    requires d < 10
    ensures Leading(high * 10 + d) == if high == 0 && d == 0 then "" else Leading(high) + [Digit(d)]
    ensures Leading(high) + [Digit(d)] == Decimal(high * 10 + d)
  {
    Tens(high, d);
    var n := high * 10 + d;
    if high > 0 {
      assert Decimal(n) == Decimal(n / 10) + [Digit(n % 10)];
    }
  }

  lemma Tens(high: nat, d: nat)
    requires d < 10
    ensures (high * 10 + d) / 10 == high && (high * 10 + d) % 10 == d
  {
  }

  // The number of which the digits high have been found, down to the rank, and low is left.
  function Assembled(high: nat, rank: nat, low: nat): nat { high * (10 * rank) + low }

  // Unsigned division.
  function Quotient(a: nat, b: nat): nat
    requires b > 0
  {
    a / b
  }

  function Remainder(a: nat, b: nat): nat
    requires b > 0
  {
    a % b
  }

  lemma NextDigit(high: nat, k: nat, rank: nat, low: nat)
    requires rank == Pow10(k) >= 10 && low < 10 * rank
    ensures Quotient(low, rank) < 10 && Remainder(low, rank) < 10 * (Quotient(rank, 10))
    ensures k >= 1 && Quotient(rank, 10) == Pow10(k - 1)
    ensures Assembled(high, rank, low) == Assembled(high * 10 + Quotient(low, rank), Quotient(rank, 10), Remainder(low, rank))
  {
    hide Pow10, Quotient, Remainder;
    RankBelow(k);
    Divided(low, rank);
    var d := Quotient(low, rank);
    SmallerFactor(d, 10, rank);
    calc {
      (high * 10 + d) * rank;
      (high * 10) * rank + d * rank;
      high * (10 * rank) + d * rank;
    }
  }

  lemma RankBelow(k: nat)
    requires Pow10(k) >= 10
    ensures k >= 1 && Pow10(k) == 10 * Pow10(k - 1) && Quotient(Pow10(k), 10) == Pow10(k - 1)
  {
  }

  lemma Divided(a: nat, b: nat)
    requires b > 0
    ensures a == Quotient(a, b) * b + Remainder(a, b) && Remainder(a, b) < b
  {
  }

  lemma LastDigit(high: nat, k: nat, rank: nat, low: nat)
    requires rank == Pow10(k) < 10
    ensures rank == 1 && Assembled(high, rank, low) == high * 10 + low
  {
  }

  lemma SmallerFactor(a: nat, b: nat, c: nat)
    requires a * c < b * c
    ensures a < b
  {
  }

  method PutDigit(buffer: array<char>, pos: nat, d: nat, ghost done: string) returns (next: nat)
    requires pos < buffer.Length && d < 10 && buffer[..pos] == done
    modifies buffer
    ensures next == pos + 1 && buffer[..next] == done + [Digit(d)]
  {
    buffer[pos] := Digit(d);
    next := pos + 1;
  }

  // A number part of which has been found has no more digits than the whole.
  lemma NotSmaller(a: nat, b: nat)
    requires b > 0
    ensures a <= a * b
  {
    assert a * b == a + a * (b - 1);
  }

  lemma HighFits(high: nat, rank: nat, low: nat, digits: nat)
    requires rank > 0 && Assembled(high, rank, low) < Pow10(digits) && digits > 0
    ensures |Leading(high)| <= digits
  {
    hide Pow10, Decimal;
    NotSmaller(high, 10 * rank);
    DecimalFits(high, digits);
  }

  // The digits high of n have been found, and the ranks from 10^left down are still to come.
  ghost predicate Found(n: int, high: nat, left: nat, rank: nat, low: nat)
  {
    rank == Pow10(left) && Magnitude(n) == Assembled(high, rank, low) && low < 10 * rank
  }

  lemma FoundStep(n: int, digits: nat, high: nat, left: nat, rank: nat, low: nat)
    requires Found(n, high, left, rank, low) && rank >= 10 && Magnitude(n) < Pow10(digits) && digits > 0
    ensures left >= 1 && Quotient(low, rank) < 10
    ensures var d := Quotient(low, rank);
            && Found(n, high * 10 + d, left - 1, Quotient(rank, 10), Remainder(low, rank))
            && Leading(high * 10 + d) == (if high == 0 && d == 0 then "" else Leading(high) + [Digit(d)])
            && |Leading(high * 10 + d)| <= digits
  {
    NextDigit(high, left, rank, low);
    var d := Quotient(low, rank);
    LeadingStep(high, d);
    HighFits(high * 10 + d, Quotient(rank, 10), Remainder(low, rank), digits);
    hide Leading, Pow10, Quotient, Remainder, Assembled;
  }

  lemma FoundAll(n: int, digits: nat, high: nat, left: nat, rank: nat, low: nat)
    requires Found(n, high, left, rank, low) && rank < 10 && Magnitude(n) < Pow10(digits) && digits > 0
    ensures low < 10 && Printed(n) == Sign(n) + Leading(high) + [Digit(low)] && |Printed(n)| <= 1 + digits
  {
    hide Leading, Decimal, Pow10, Assembled;
    LastDigit(high, left, rank, low);
    LeadingStep(high, low);
    DecimalFits(Magnitude(n), digits);
    assert Sign(n) + (Leading(high) + [Digit(low)]) == Sign(n) + Leading(high) + [Digit(low)];
  }

  // Lines 1672 to 1700, 1715 to 1743 and 1758 to 1785: they differ in the first rank 10^k and in the buffer, which
  // holds a sign, the digits and the terminator. The negation is that of a machine word and so is right for the least
  // integer too.
  method PrintInteger(n: int, k: nat, ghost digits: nat, buffer: array<char>) returns (length: nat)
    requires Magnitude(n) < Pow10(k + 1) && Magnitude(n) < Pow10(digits) && digits > 0 && buffer.Length >= digits + 2
    modifies buffer
    ensures length < buffer.Length && buffer[..length] == Printed(n) && buffer[length] == '\0'
  {
    var pos := 0;
    if n < 0 {
      buffer[pos] := '-';
      pos := pos + 1;
    }
    assert buffer[..pos] == Sign(n) + Leading(0) && |Sign(n)| <= 1;
    var low, rank, found := Magnitude(n), Pow10(k), false;
    ghost var high: nat, left: nat := 0, k;
    assert Found(n, high, left, rank, low);
    hide Found, Leading, Pow10, Decimal, Sign, Magnitude, Printed, Quotient, Remainder;
    while rank >= 10
      invariant Found(n, high, left, rank, low) && (found <==> high > 0)
      invariant pos <= buffer.Length && buffer[..pos] == Sign(n) + Leading(high)
      decreases left
    {
      FoundStep(n, digits, high, left, rank, low);
      var d := Quotient(low, rank);
      if found || d > 0 {
        Regrouped(Sign(n), Leading(high), [Digit(d)]);
        pos := PutDigit(buffer, pos, d, Sign(n) + Leading(high));
        found := true;
      }
      low, rank := Remainder(low, rank), Quotient(rank, 10);
      high, left := high * 10 + d, left - 1;
    }
    FoundAll(n, digits, high, left, rank, low);
    pos := PutDigit(buffer, pos, low, Sign(n) + Leading(high));
    Terminate(buffer, pos);
    length := pos;
  }

  method Int16ToString(n: int) returns (buffer: array<char>, length: nat)
    requires -0x8000 <= n < 0x8000
    ensures buffer.Length == 7 && length < 7 && buffer[..length] == Printed(n) && buffer[length] == '\0'
  {
    buffer := new char[7];
    assert Pow10(5) == 100000;
    length := PrintInteger(n, 4, 5, buffer);
  }

  method Int32ToString(n: int) returns (buffer: array<char>, length: nat)
    requires -0x8000_0000 <= n < 0x8000_0000
    ensures buffer.Length == 12 && length < 12 && buffer[..length] == Printed(n) && buffer[length] == '\0'
  {
    buffer := new char[12];
    assert Pow10(10) == 10000000000;
    length := PrintInteger(n, 9, 10, buffer);
  }

  method Int64ToString(n: int) returns (buffer: array<char>, length: nat)
    requires -0x8000_0000_0000_0000 <= n < 0x8000_0000_0000_0000
    ensures buffer.Length == 21 && length < 21 && buffer[..length] == Printed(n) && buffer[length] == '\0'
  {
    buffer := new char[21];
    assert Pow10(10) == 10000000000;
    assert Pow10(19) == 10000000000000000000;
    length := PrintInteger(n, 19, 19, buffer);
  }

  // Lines 1370 to 1377 and 1800 to 1814: up to three digits, each under a test of its own.
  method PrintByte(n: int, buffer: array<char>) returns (length: nat)
    requires -128 <= n <= 255 && buffer.Length >= |Sign(n)| + 4
    modifies buffer
    ensures length < buffer.Length && buffer[..length] == Printed(n) && buffer[length] == '\0'
  {
    var abs, pos := n, 0;
    if n < 0 {
      buffer[pos] := '-';
      pos := pos + 1;
      abs := -abs;
    }
    ghost var sign := buffer[..pos];
    assert sign == Sign(n);
    if abs >= 100 {
      pos := PutDigit(buffer, pos, abs / 100, sign);
    }
    ghost var one := buffer[..pos];
    if abs >= 10 {
      pos := PutDigit(buffer, pos, abs % 100 / 10, one);
    }
    ghost var two := buffer[..pos];
    pos := PutDigit(buffer, pos, abs % 10, two);
    UpToThreeDigits(abs);
    Terminate(buffer, pos);
    length := pos;
  }

  lemma UpToThreeDigits(n: nat)
    requires n < 1000
    ensures n < 10 ==> Decimal(n) == [Digit(n % 10)]
    ensures 10 <= n < 100 ==> Decimal(n) == [Digit(n % 100 / 10)] + [Digit(n % 10)]
    ensures 100 <= n ==> Decimal(n) == [Digit(n / 100)] + [Digit(n % 100 / 10)] + [Digit(n % 10)]
  {
    assert n / 10 / 10 == n / 100 && n / 10 % 10 == n % 100 / 10;
    if n >= 100 {
      assert Decimal(n / 10) == [Digit(n / 100)] + [Digit(n % 100 / 10)];
    }
  }

  // ---- parsing ---------------------------------------------------------------------------------------------------

  predicate IsSpace(c: char) { c == ' ' || '\t' <= c <= '\r' }

  function SkipSpace(s: string): string
  {
    if s != [] && IsSpace(s[0]) then SkipSpace(s[1..]) else s
  }

  function TakeDigits(s: string): (d: string)
    ensures |d| <= |s| && d == s[..|d|] && forall c :: c in d ==> IsDigit(c)
    ensures |d| < |s| ==> !IsDigit(s[|d|])
  {
    if s == [] || !IsDigit(s[0]) then [] else [s[0]] + TakeDigits(s[1..])
  }

  // strtol and strtoul in base 10 (section 7.20.1.4 of ISO/IEC 9899:1999): white space, an optional sign, digits.
  // None: no number, so nothing is consumed.
  function SignedText(s: string): Option<(bool, nat)>
  {
    var t := SkipSpace(s);
    var negative := t != [] && t[0] == '-';
    var d := TakeDigits(if t != [] && (t[0] == '-' || t[0] == '+') then t[1..] else t);
    if d == [] then None else Some((negative, Value(d)))
  }

  // The signed conversion saturates.
  function Strtol(s: string, least: int, most: int): Option<int>
  {
    match SignedText(s)
    case None => None
    case Some(r) =>
      var v: int := if r.0 then 0 - r.1 else r.1;
      Some(if v < least then least else if v > most then most else v)
  }

  // The unsigned one saturates too, but takes a minus sign as a negation in the unsigned type.
  function Strtoul(s: string, most: nat): Option<nat>
  {
    match SignedText(s)
    case None => None
    case Some(r) =>
      Some(if r.1 > most then most else if r.0 && r.1 > 0 then most + 1 - r.1 else r.1)
  }

  const LONG_MAX := 0x7FFF_FFFF
  const ULONG_MAX := 0xFFFF_FFFF
  const ULLONG_MAX := 0xFFFF_FFFF_FFFF_FFFF

  // EDM_SBYTE, EDM_BYTE and EDM_INT16: lines 3212 to 3276. A saturated value is outside every one of these ranges.
  function ParseSmall(source: string, least: int, most: int): (v: Option<int>)
    ensures v.Some? ==> least <= v.value <= most
  {
    match Strtol(source, -LONG_MAX - 1, LONG_MAX)
    case None => None
    case Some(v) => if v < least || v > most then None else Some(v)
  }

  // EDM_INT32 and EDM_INT64: lines 3279 to 3389. The sign is taken off first and the rest read as an unsigned number.
  function ParseWide(source: string, longest: nat, half: nat, most: nat): (v: Option<int>)
    requires half > 0
    ensures v.Some? ==> 0 - half <= v.value < half
  {
    var negative := source != [] && source[0] == '-';
    match Strtoul(if negative then source[1..] else source, most)
    case None => None
    case Some(u) =>
      if |source| > longest || (negative && u > half) || (!negative && u >= half) then None
      else Some(if negative then 0 - u else u)
  }

  function ParseInt32(source: string): Option<int> { ParseWide(source, 11, 0x8000_0000, ULONG_MAX) }
  function ParseInt64(source: string): Option<int> { ParseWide(source, 20, 0x8000_0000_0000_0000, ULLONG_MAX) }

  lemma {:induction false} AllDigitsTaken(d: string)
    requires forall c :: c in d ==> IsDigit(c)
    ensures TakeDigits(d) == d
  {
    if d != [] {
      AllDigitsTaken(d[1..]);
    }
  }

  lemma DigitsRead(d: string)
    requires d != [] && forall c :: c in d ==> IsDigit(c)
    ensures SignedText(d) == Some((false, Value(d))) && SignedText("-" + d) == Some((true, Value(d)))
  {
    AllDigitsTaken(d);
    assert IsDigit(d[0]);
    assert SkipSpace(d) == d && SkipSpace("-" + d) == "-" + d;
    hide Value, TakeDigits, SkipSpace;
    assert ("-" + d)[1..] == d;
  }

  lemma DecimalRead(m: nat)
    ensures SignedText(Decimal(m)) == Some((false, m)) && SignedText("-" + Decimal(m)) == Some((true, m))
  {
    DigitsRead(Decimal(m));
    ValueOfDecimal(m);
    hide Decimal, Value, SignedText;
  }

  // Printing and parsing is the identity on each of the five types, least values included.
  lemma SmallRoundTrip(n: int, least: int, most: int)
    requires -0x8000 <= least <= n <= most <= 0x7FFF
    ensures ParseSmall(Printed(n), least, most) == Some(n)
  {
    DecimalRead(Magnitude(n));
    hide SignedText, Decimal;
    assert "" + Decimal(Magnitude(n)) == Decimal(Magnitude(n));
  }

  lemma Int32RoundTrip(n: int)
    requires -0x8000_0000 <= n < 0x8000_0000
    ensures ParseInt32(Printed(n)) == Some(n)
  {
    assert Pow10(10) == 10000000000;
    WideRoundTrip(n, 10, 0x8000_0000, ULONG_MAX);
  }

  lemma Int64RoundTrip(n: int)
    requires -0x8000_0000_0000_0000 <= n < 0x8000_0000_0000_0000
    ensures ParseInt64(Printed(n)) == Some(n)
  {
    assert Pow10(10) == 10000000000;
    assert Pow10(19) == 10000000000000000000;
    WideRoundTrip(n, 19, 0x8000_0000_0000_0000, ULLONG_MAX);
  }

  lemma NoSign(m: nat)
    ensures Decimal(m)[0] != '-'
  {
    hide Decimal;
    assert Decimal(m)[0] in Decimal(m);
  }

  lemma WideRoundTrip(n: int, digits: nat, half: nat, most: nat)
    requires 0 - half <= n < half <= most && half < Pow10(digits) && digits > 0
    ensures ParseWide(Printed(n), digits + 1, half, most) == Some(n)
  {
    hide SignedText, Decimal, Pow10, IsDigit;
    var m := Magnitude(n);
    var d := Decimal(m);
    DecimalRead(m);
    DecimalFits(m, digits);
    NoSign(m);
    if n < 0 {
      assert ("-" + d)[1..] == d;
    } else {
      assert "" + d == d;
    }
  }

  // ---- exactly what is accepted of plain digits, with or without a minus sign ------------------------------------

  lemma SmallExactly(d: string, least: int, most: int)
    requires d != [] && (forall c :: c in d ==> IsDigit(c)) && -0x8000 <= least <= 0 <= most <= 0x7FFF
    ensures ParseSmall(d, least, most) == if Value(d) <= most then Some(Value(d)) else None
    ensures ParseSmall("-" + d, least, most) == if 0 - Value(d) >= least then Some(0 - Value(d)) else None
  {
    hide SignedText, Value;
    DigitsRead(d);
  }

  lemma Int32Exactly(d: string)
    requires d != [] && forall c :: c in d ==> IsDigit(c)
    ensures ParseInt32(d) == if |d| <= 11 && Value(d) < 0x8000_0000 then Some(Value(d)) else None
    ensures ParseInt32("-" + d) == if |d| <= 10 && Value(d) <= 0x8000_0000 then Some(0 - Value(d)) else None
  {
    WideExactly(d, 11, 0x8000_0000, ULONG_MAX);
  }

  lemma Int64Exactly(d: string)
    requires d != [] && forall c :: c in d ==> IsDigit(c)
    ensures ParseInt64(d) == if |d| <= 20 && Value(d) < 0x8000_0000_0000_0000 then Some(Value(d)) else None
    ensures ParseInt64("-" + d) == if |d| <= 19 && Value(d) <= 0x8000_0000_0000_0000 then Some(0 - Value(d)) else None
  {
    WideExactly(d, 20, 0x8000_0000_0000_0000, ULLONG_MAX);
  }

  lemma WideExactly(d: string, longest: nat, half: nat, most: nat)
    requires d != [] && (forall c :: c in d ==> IsDigit(c)) && 0 < half < most
    ensures ParseWide(d, longest, half, most) == if |d| <= longest && Value(d) < half then Some(Value(d)) else None
    ensures ParseWide("-" + d, longest, half, most)
         == if |d| + 1 <= longest && Value(d) <= half then Some(0 - Value(d)) else None
  {
    hide SignedText, Value;
    DigitsRead(d);
    assert d[0] in d;
    assert ("-" + d)[1..] == d;
  }

  // ---- exactly what strtol and strtoul take for a number ---------------------------------------------------------

  // White space, a sign or none, the digits of v, and whatever follows them.
  ghost predicate NumberText(s: string, negative: bool, v: nat, spaces: string, sign: string, d: string, rest: string)
  {
    && s == spaces + sign + d + rest
    && (forall c :: c in spaces ==> c == ' ' || 9 <= c as int <= 13)
    && (if negative then sign == "-" else sign == "" || sign == "+")
    && d != "" && (forall c :: c in d ==> '0' <= c <= '9') && v == Value(d) && (rest == "" || !('0' <= rest[0] <= '9'))
  }

  lemma {:induction false} SpacesSkipped(spaces: string, t: string)
    requires (forall c :: c in spaces ==> IsSpace(c)) && (t == "" || !IsSpace(t[0]))
    ensures SkipSpace(spaces + t) == t
  {
    if spaces == "" {
      assert spaces + t == t;
    } else {
      SpacesSkipped(spaces[1..], t);
      assert (spaces + t)[1..] == spaces[1..] + t && spaces[0] in spaces;
    }
  }

  lemma {:induction false} SkippedSpaces(s: string) returns (spaces: string)
    ensures s == spaces + SkipSpace(s) && forall c :: c in spaces ==> IsSpace(c)
    ensures SkipSpace(s) == "" || !IsSpace(SkipSpace(s)[0])
  {
    if s != "" && IsSpace(s[0]) {
      var more := SkippedSpaces(s[1..]);
      spaces := [s[0]] + more;
      assert s == [s[0]] + s[1..];
    } else {
      spaces := "";
      assert s == "" + s;
    }
  }

  lemma {:induction false} DigitsThenOther(d: string, rest: string)
    requires (forall c :: c in d ==> IsDigit(c)) && (rest == [] || !IsDigit(rest[0]))
    ensures TakeDigits(d + rest) == d
  {
    if d == [] {
      assert d + rest == rest;
    } else {
      DigitsThenOther(d[1..], rest);
      assert (d + rest)[1..] == d[1..] + rest;
    }
  }

  lemma NumberTextRead(s: string, negative: bool, v: nat, spaces: string, sign: string, d: string, rest: string)
    requires NumberText(s, negative, v, spaces, sign, d, rest)
    ensures SignedText(s) == Some((negative, v))
  {
    hide Value, SkipSpace, TakeDigits;
    var t := sign + d + rest;
    assert d[0] in d && t[0] == if sign == "" then d[0] else sign[0];
    SpacesSkipped(spaces, t);
    assert s == spaces + t;
    DigitsThenOther(d, rest);
    assert sign == "" ==> t == d + rest;
    assert sign != "" ==> t[1..] == d + rest;
  }

  lemma ReadNumberText(s: string)
    requires SignedText(s).Some?
    ensures exists spaces, sign, d, rest ::
              NumberText(s, SignedText(s).value.0, SignedText(s).value.1, spaces, sign, d, rest)
  {
    hide Value, SkipSpace, TakeDigits;
    var t := SkipSpace(s);
    var spaces := SkippedSpaces(s);
    var sign := if t != [] && (t[0] == '-' || t[0] == '+') then t[..1] else "";
    var d := TakeDigits(t[|sign|..]);
    var rest := t[|sign|..][|d|..];
    assert t == sign + d + rest;
    assert NumberText(s, SignedText(s).value.0, SignedText(s).value.1, spaces, sign, d, rest);
  }

  // A number is read exactly from these texts.
  lemma SignedTextExactly(s: string, negative: bool, v: nat)
    ensures SignedText(s) == Some((negative, v))
       <==> exists spaces, sign, d, rest :: NumberText(s, negative, v, spaces, sign, d, rest)
  {
    hide NumberText, SignedText;
    if spaces, sign, d, rest :| NumberText(s, negative, v, spaces, sign, d, rest) {
      NumberTextRead(s, negative, v, spaces, sign, d, rest);
    }
    if SignedText(s).Some? {
      ReadNumberText(s);
    }
  }
}
