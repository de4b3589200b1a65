/** Base64.cpp: encoding and decoding through the scratch groups a3 and a4. */
module Base64 {
  import opened Basics
  import opened Rfc4648

  // base64_enc_len.
  function EncLen(plainLen: nat): nat
  {
    (plainLen + 2 - (plainLen + 2) % 3) / 3 * 4
  }

  lemma EncLenIsExact(b: bytes)
    ensures |Encode(b, false)| == EncLen(|b|)
  {
    EncodeLength(b, false);
    hide Encode;
  }

  // ---- encoding --------------------------------------------------------------------------------------------------

  predicate Sextets(a: seq<byte>)
  {
    forall i :: 0 <= i < |a| ==> a[i] < 64
  }

  function Letters(a: seq<byte>): (s: string)
    requires Sextets(a)
    ensures |s| == |a|
  {
    if a == [] then "" else Letters(a[..|a| - 1]) + [Alphabet(false)[a[|a| - 1]]]
  }

  method A3ToA4(a4: array<byte>, a3: array<byte>)
    requires a3.Length == 3 && a4.Length == 4 && a3 != a4
    modifies a4
    ensures Sextets(a4[..])
    ensures forall k :: 0 <= k < 4 ==> a4[k] == Sextet(Group(a3[0], a3[1], a3[2]), k)
  {
    SextetsByShifts(a3[0], a3[1], a3[2]);
    hide Sextet, Group;
    a4[0] := a3[0] / 4;
    a4[1] := a3[0] % 4 * 16 + a3[1] / 16;
    a4[2] := a3[1] % 16 * 4 + a3[2] / 64;
    a4[3] := a3[2] % 64;
  }

  // The alphabet's letters for the first n of a4.
  method PutLetters(output: array<char>, start: nat, a4: array<byte>, n: nat) returns (pos: nat)
    requires a4.Length == 4 && n <= 4 && start + n <= output.Length && Sextets(a4[..])
    modifies output
    ensures pos == start + n && output[..pos] == old(output[..start]) + Letters(a4[..n])
  {
    pos := start;
    ghost var done := output[..start];
    var i := 0;
    while i < n
      invariant i <= n && pos == start + i && output[..pos] == done + Letters(a4[..i])
    {
      assert a4[..i + 1][..i] == a4[..i];
      ghost var before := output[..pos];
      output[pos] := Alphabet(false)[a4[i]];
      pos := pos + 1;
      assert output[..pos] == before + [Alphabet(false)[a4[i]]];
      i := i + 1;
    }
  }

  lemma LettersOfGroup(a: seq<byte>, b0: byte, b1: byte, b2: byte)
    requires |a| == 4 && Sextets(a) && forall k :: 0 <= k < 4 ==> a[k] == Sextet(Group(b0, b1, b2), k)
    ensures Letters(a) == Quad(b0, b1, b2, false)
    ensures Letters(a[..2]) == Quad(b0, b1, b2, false)[..2] && Letters(a[..3]) == Quad(b0, b1, b2, false)[..3]
  {
    hide Sextet, Group, Alphabet;
    assert a[..1][..0] == [] && a[..2][..1] == a[..1] && a[..3][..2] == a[..2] && a[..4] == a;
    assert Letters(a[..1]) == [Alphabet(false)[a[0]]];
    assert Letters(a[..2]) == Letters(a[..1]) + [Alphabet(false)[a[1]]];
    assert Letters(a[..3]) == Letters(a[..2]) + [Alphabet(false)[a[2]]];
  }

  lemma WholeGroup(input: bytes, groups: nat)
    requires 3 * groups + 3 <= |input|
    ensures var whole := 3 * groups;
            Encode(input[..whole + 3], false)
            == Encode(input[..whole], false) + Quad(input[whole], input[whole + 1], input[whole + 2], false)
  {
    hide Encode, Quad;
    var whole := 3 * groups;
    OneGroup(input[whole], input[whole + 1], input[whole + 2]);
    EncodeInGroups(groups, input[..whole], [input[whole], input[whole + 1], input[whole + 2]], false);
    assert input[..whole + 3] == input[..whole] + [input[whole], input[whole + 1], input[whole + 2]];
  }

  lemma OneGroup(b0: byte, b1: byte, b2: byte)
    ensures Encode([b0, b1, b2], false) == Quad(b0, b1, b2, false)
    ensures Encode([b0, b1], false) == Quad(b0, b1, 0, false)[..3] + "="
    ensures Encode([b0], false) == Quad(b0, 0, 0, false)[..2] + "=="
  {
    hide DigitOf;
    assert Encode([b0, b1, b2], false) == Quad(b0, b1, b2, false) + Encode([], false) by {
      assert [b0, b1, b2][3..] == [];
    }
  }

  lemma LastByte(input: bytes, groups: nat)
    requires |input| == 3 * groups + 1
    ensures Encode(input, false) == Encode(input[..3 * groups], false) + (Quad(input[3 * groups], 0, 0, false)[..2] + "==")
  {
    hide Encode, Quad;
    var b0 := input[3 * groups];
    OneGroup(b0, 0, 0);
    EncodeInGroups(groups, input[..3 * groups], [b0], false);
    assert input == input[..3 * groups] + [b0];
  }

  lemma LastTwoBytes(input: bytes, groups: nat)
    requires |input| == 3 * groups + 2
    ensures Encode(input, false)
         == Encode(input[..3 * groups], false) + (Quad(input[3 * groups], input[3 * groups + 1], 0, false)[..3] + "=")
  {
    hide Encode, Quad;
    var b0, b1 := input[3 * groups], input[3 * groups + 1];
    OneGroup(b0, b1, 0);
    EncodeInGroups(groups, input[..3 * groups], [b0, b1], false);
    assert input == input[..3 * groups] + [b0, b1];
  }

  lemma Room(n: nat, groups: nat)
    ensures 3 * groups < n ==> 4 * groups + 4 <= EncLen(n)
    ensures 3 * groups < n <= 3 * groups + 3 ==> EncLen(n) == 4 * groups + 4
    ensures 3 * groups == n ==> EncLen(n) == 4 * groups
  {
  }

  // a3_to_a4 and the letters of the first n digits of the group.
  method PutGroup(output: array<char>, start: nat, a3: array<byte>, a4: array<byte>, n: nat) returns (pos: nat)
    requires a3.Length == 3 && a4.Length == 4 && a3 != a4 && 2 <= n <= 4 && start + n <= output.Length
    modifies output, a4
    ensures pos == start + n
    ensures output[..pos] == old(output[..start]) + Quad(a3[0], a3[1], a3[2], false)[..n]
  {
    hide Quad, Letters, Sextet, Group;
    A3ToA4(a4, a3);
    LettersOfGroup(a4[..], a3[0], a3[1], a3[2]);
    assert a4[..][..2] == a4[..2] && a4[..][..3] == a4[..3] && a4[..4] == a4[..];
    pos := PutLetters(output, start, a4, n);
  }

  lemma EncodeNothing(input: bytes)
    ensures Encode(input[..0], false) == ""
  {
  }

  // Lines 17 to 28: whole groups are written as they fill up; i bytes are left in a3.
  method EncodeGroups(output: array<char>, input: bytes, a3: array<byte>, a4: array<byte>)
    returns (encLen: nat, i: nat, ghost groups: nat)
    requires output.Length > EncLen(|input|) && a3.Length == 3 && a4.Length == 4 && a3 != a4
    modifies output, a3, a4
    ensures |input| == 3 * groups + i && i < 3 && encLen == 4 * groups < output.Length
    ensures forall k :: 0 <= k < i ==> a3[k] == input[3 * groups + k]
    ensures output[..encLen] == Encode(input[..3 * groups], false)
  {
    hide Encode, Quad, EncLen;
    var p := 0;
    encLen, i, groups := 0, 0, 0;
    EncodeNothing(input);
    while p < |input|
      invariant p == 3 * groups + i <= |input| && i < 3 && encLen == 4 * groups < output.Length
      invariant forall k :: 0 <= k < i ==> a3[k] == input[3 * groups + k]
      invariant output[..encLen] == Encode(input[..3 * groups], false)
    {
      Room(|input|, groups);
      a3[i] := input[p];
      p := p + 1;
      i := i + 1;
      if i == 3 {
        WholeGroup(input, groups);
        encLen := PutGroup(output, encLen, a3, a4, 4);
        i := 0;
        groups := groups + 1;
      }
    }
  }

  method EncodeInto(output: array<char>, input: bytes) returns (encLen: nat)
    requires output.Length > EncLen(|input|)
    modifies output
    ensures encLen == EncLen(|input|) && output[..encLen] == Encode(input, false) && output[encLen] == '\0'
  {
    hide Encode, EncLen;
    var a3, a4 := new byte[3], new byte[4];
    var i;
    ghost var groups;
    encLen, i, groups := EncodeGroups(output, input, a3, a4);
    Room(|input|, groups);
    if i > 0 {
      encLen := FinishGroup(output, encLen, input, groups, i, a3, a4);
    } else {
      assert input[..3 * groups] == input;
    }
    Terminate(output, encLen);
  }

  // Lines 30 to 44: the group that is left, filled up with zeros and padded with equals signs.
  method FinishGroup(output: array<char>, start: nat, ghost input: bytes, ghost groups: nat, i: nat,
                     a3: array<byte>, a4: array<byte>) returns (encLen: nat)
    requires a3.Length == 3 && a4.Length == 4 && a3 != a4
    requires 1 <= i <= 2 && |input| == 3 * groups + i && start + 4 <= output.Length
    requires forall k :: 0 <= k < i ==> a3[k] == input[3 * groups + k]
    requires output[..start] == Encode(input[..3 * groups], false)
    modifies output, a3, a4
    ensures encLen == start + 4 && output[..encLen] == Encode(input, false)
  {
    hide Encode, Quad;
    if i == 1 {
      LastByte(input, groups);
    } else {
      LastTwoBytes(input, groups);
    }
    FillUp(a3, i);
    encLen := PutGroup(output, start, a3, a4, i + 1);
    ghost var letters := Quad(a3[0], a3[1], a3[2], false)[..i + 1];
    encLen := PutEquals(output, encLen, i);
    Regrouped(Encode(input[..3 * groups], false), letters, if i == 1 then "==" else "=");
  }

  // The loop of line 31.
  method FillUp(a3: array<byte>, i: nat)
    requires a3.Length == 3 && i <= 3
    modifies a3
    ensures forall k :: 0 <= k < i ==> a3[k] == old(a3[k])
    ensures forall k :: i <= k < 3 ==> a3[k] == 0
  {
    var j := i;
    while j < 3
      invariant i <= j <= 3
      invariant forall k :: 0 <= k < i ==> a3[k] == old(a3[k])
      invariant forall k :: i <= k < j ==> a3[k] == 0
    {
      a3[j] := 0;
      j := j + 1;
    }
  }

  // The loop of line 41.
  method PutEquals(output: array<char>, start: nat, from: nat) returns (pos: nat)
    requires 1 <= from <= 2 && start + 3 - from <= output.Length
    modifies output
    ensures pos == start + 3 - from
    ensures output[..pos] == old(output[..start]) + if from == 1 then "==" else "="
  {
    ghost var done := output[..start];
    pos := start;
    var i := from;
    while i < 3
      invariant from <= i <= 3 && pos == start + i - from && output[..start] == done
      invariant forall k :: start <= k < pos ==> output[k] == '='
    {
      output[pos] := '=';
      pos := pos + 1;
      i := i + 1;
    }
    assert output[..pos] == output[..start] + if from == 1 then "==" else "=";
  }

  // ---- decoding --------------------------------------------------------------------------------------------------

  // b64_lookup; what is not a digit becomes 255.
  function Lookup(c: char): byte
  {
    if 'A' <= c <= 'Z' then c as int - 'A' as int
    else if 'a' <= c <= 'z' then c as int - 71
    else if '0' <= c <= '9' then c as int + 4
    else if c == '+' then 62
    else if c == '/' then 63
    else 255
  }

  // a4_to_a3 in eight-bit arithmetic.
  function Three(x: byte, y: byte, z: byte, w: byte): (b: bytes)
    ensures |b| == 3
  {
    [(x * 4 + y / 16 % 4) % 256, (y % 16 * 16 + z / 4 % 16) % 256, (z % 4 * 64 + w) % 256]
  }

  function Take(s: string): (t: string)
    ensures |t| <= |s| && t == s[..|t|] && '=' !in t && (|t| < |s| ==> s[|t|] == '=')
  {
    if s == [] || s[0] == '=' then "" else [s[0]] + Take(s[1..])
  }

  function Decoded(t: string): bytes
  {
    if |t| >= 4 then Three(Lookup(t[0]), Lookup(t[1]), Lookup(t[2]), Lookup(t[3])) + Decoded(t[4..])
    else LastDecoded(t)
  }

  // A digit alone says nothing; missing digits are looked up as terminators.
  function LastDecoded(t: string): bytes
    requires |t| < 4
  {
    if |t| < 2 then []
    else if |t| == 2 then Three(Lookup(t[0]), Lookup(t[1]), 255, 255)[..1]
    else Three(Lookup(t[0]), Lookup(t[1]), Lookup(t[2]), 255)[..2]
  }

  lemma {:induction false} DecodedInGroups(groups: nat, a: string, b: string)
    requires |a| == 4 * groups
    ensures Decoded(a + b) == Decoded(a) + Decoded(b)
    ensures |Decoded(a)| == 3 * groups
    decreases groups
  {
    hide Three, Lookup;
    if groups == 0 {
      assert a + b == b;
    } else {
      DecodedInGroups(groups - 1, a[4..], b);
      assert (a + b)[4..] == a[4..] + b;
    }
  }

  lemma DecodedStep(groups: nat, t: string)
    requires 4 * groups + 4 <= |t|
    ensures var p := 4 * groups;
            && Decoded(t[..p + 4]) == Decoded(t[..p]) + Three(Lookup(t[p]), Lookup(t[p + 1]), Lookup(t[p + 2]), Lookup(t[p + 3]))
            && |Decoded(t)| >= 3 * groups + 3
  {
    hide Decoded, Three, Lookup;
    var p := 4 * groups;
    DecodedInGroups(groups, t[..p], t[p..p + 4]);
    assert t[..p + 4] == t[..p] + t[p..p + 4];
    OneQuad(t[p..p + 4]);
    DecodedInGroups(groups + 1, t[..p + 4], t[p + 4..]);
    assert t == t[..p + 4] + t[p + 4..];
  }

  lemma OneQuad(q: string)
    requires |q| == 4
    ensures Decoded(q) == Three(Lookup(q[0]), Lookup(q[1]), Lookup(q[2]), Lookup(q[3]))
  {
    hide Three, Lookup;
    assert q[4..] == "";
  }

  lemma DecodedEnd(groups: nat, t: string)
    requires 4 * groups <= |t| < 4 * groups + 4
    ensures Decoded(t) == Decoded(t[..4 * groups]) + LastDecoded(t[4 * groups..])
    ensures |Decoded(t[..4 * groups])| == 3 * groups
  {
    hide Three, Lookup;
    DecodedInGroups(groups, t[..4 * groups], t[4 * groups..]);
    assert t == t[..4 * groups] + t[4 * groups..];
  }

  method A4ToA3(a3: array<byte>, a4: array<byte>)
    requires a3.Length == 3 && a4.Length == 4 && a3 != a4
    modifies a3
    ensures a3[..] == Three(a4[0], a4[1], a4[2], a4[3])
  {
    var x: int, y: int, z: int, w: int := a4[0], a4[1], a4[2], a4[3];
    a3[0] := (x * 4 + y / 16 % 4) % 256;
    a3[1] := (y % 16 * 16 + z / 4 % 16) % 256;
    a3[2] := (z % 4 * 64 + w) % 256;
  }

  // Looks up the four characters, of which those from i on are terminators, and puts out the first n bytes.
  method PutBytes(output: array<byte>, start: nat, chars: array<char>, n: nat) returns (pos: nat)
    requires chars.Length == 4 && n <= 3 && start + n <= output.Length
    modifies output
    ensures pos == start + n
    ensures output[..pos]
         == old(output[..start]) + Three(Lookup(chars[0]), Lookup(chars[1]), Lookup(chars[2]), Lookup(chars[3]))[..n]
  {
    hide Three, Lookup;
    ghost var done := output[..start];
    var a3, a4 := new byte[3], new byte[4];
    var j := 0;
    while j < 4
      invariant j <= 4 && forall k :: 0 <= k < j ==> a4[k] == Lookup(chars[k])
      invariant output[..start] == done
    {
      a4[j] := Lookup(chars[j]);
      j := j + 1;
    }
    A4ToA3(a3, a4);
    ghost var three := a3[..];
    j := 0;
    while j < n
      invariant j <= n && output[..start] == done && a3[..] == three && output[start..start + j] == three[..j]
    {
      output[start + j] := a3[j];
      j := j + 1;
    }
    pos := start + n;
    assert output[..pos] == output[..start] + output[start..pos];
  }

  // Lines 56 to 74: whole groups, up to the first equals sign; i characters are left.
  method DecodeGroups(output: array<byte>, input: string, chars: array<char>)
    returns (decLen: nat, i: nat, ghost groups: nat)
    requires output.Length > |Decoded(Take(input))| && chars.Length == 4
    modifies output, chars
    ensures |Take(input)| == 4 * groups + i && i < 4 && decLen == 3 * groups < output.Length
    ensures forall k :: 0 <= k < i ==> chars[k] == Take(input)[4 * groups + k]
    ensures output[..decLen] == Decoded(Take(input)[..4 * groups])
  {
    hide Decoded, Three, Lookup, Take;
    ghost var t := Take(input);
    var p := 0;
    decLen, i, groups := 0, 0, 0;
    NothingDecoded(t);
    while p < |input|
      invariant p == 4 * groups + i <= |t| && i < 4 && decLen == 3 * groups < output.Length
      invariant forall k :: 0 <= k < i ==> chars[k] == t[4 * groups + k]
      invariant output[..decLen] == Decoded(t[..4 * groups])
    {
      TakeAt(input, p);
      if input[p] == '=' {
        break;
      }
      chars[i] := input[p];
      p := p + 1;
      i := i + 1;
      if i == 4 {
        DecodedStep(groups, t);
        decLen := PutBytes(output, decLen, chars, 3);
        i := 0;
        groups := groups + 1;
      }
    }
  }

  lemma TakeAt(s: string, p: nat)
    requires p <= |Take(s)| && p < |s|
    ensures s[p] == '=' <==> p == |Take(s)|
    ensures s[p] != '=' ==> Take(s)[p] == s[p]
  {
  }

  // base64_decode.
  method DecodeInto(output: array<byte>, input: string) returns (decLen: nat)
    requires output.Length > |Decoded(Take(input))|
    modifies output
    ensures decLen == |Decoded(Take(input))| && output[..decLen] == Decoded(Take(input)) && output[decLen] == 0
  {
    hide Decoded, Three, Lookup, LastDecoded, Take;
    var chars := new char[4];
    var i;
    ghost var t, groups := Take(input), 0;
    decLen, i, groups := DecodeGroups(output, input, chars);
    DecodedEnd(groups, t);
    LastDecodedIs(t[4 * groups..]);
    if i > 0 {
      FillChars(chars, i);
      decLen := PutBytes(output, decLen, chars, i - 1);
    }
    output[decLen] := 0;
  }

  lemma NothingDecoded(t: string)
    ensures Decoded(t[..0]) == []
  {
  }

  lemma LastDecodedIs(t: string)
    requires |t| < 4
    ensures LastDecoded(t)
         == if |t| < 2 then []
            else Three(Lookup(t[0]), Lookup(t[1]), if |t| > 2 then Lookup(t[2]) else Lookup('\0'), Lookup('\0'))[..|t| - 1]
  {
    hide Three;
  }

  method FillChars(chars: array<char>, i: nat)
    requires chars.Length == 4 && i <= 4
    modifies chars
    ensures forall k :: 0 <= k < i ==> chars[k] == old(chars[k])
    ensures forall k :: i <= k < 4 ==> chars[k] == '\0'
  {
    var j := i;
    while j < 4
      invariant i <= j <= 4
      invariant forall k :: 0 <= k < i ==> chars[k] == old(chars[k])
      invariant forall k :: i <= k < j ==> chars[k] == '\0'
    {
      chars[j] := '\0';
      j := j + 1;
    }
  }

  // ---- round trip ------------------------------------------------------------------------------------------------

  // A digit has its place in the alphabet, anything else 255.
  lemma LookupExactly(c: char)
    ensures if c in Alphabet(false) then Lookup(c) < 64 && Alphabet(false)[Lookup(c)] == c else Lookup(c) == 255
  {
    hide Alphabet;
    if c in Alphabet(false) {
      var d :| 0 <= d < 64 && Alphabet(false)[d] == c;
      LookupUndoes(d);
    } else if Lookup(c) != 255 {
      AlphabetInRanges(Lookup(c), false);
    }
  }

  lemma LookupUndoes(d: nat)
    requires d < 64
    ensures Lookup(Alphabet(false)[d]) == d && Alphabet(false)[d] != '='
  {
    AlphabetInRanges(d, false);
    hide Alphabet;
  }

  lemma QuadDecodes(b0: byte, b1: byte, b2: byte)
    ensures var q := Quad(b0, b1, b2, false);
            && Three(Lookup(q[0]), Lookup(q[1]), Lookup(q[2]), Lookup(q[3])) == [b0, b1, b2]
            && '=' !in q
  {
    hide Lookup, Alphabet, Sextet, Group, Three;
    var n := Group(b0, b1, b2);
    LookupUndoes(Sextet(n, 0));
    LookupUndoes(Sextet(n, 1));
    LookupUndoes(Sextet(n, 2));
    LookupUndoes(Sextet(n, 3));
    SextetsByShifts(b0, b1, b2);
    ThreeOfSextets(b0, b1, b2);
  }

  lemma ThreeOfSextets(b0: byte, b1: byte, b2: byte)
    ensures Three(b0 / 4, b0 % 4 * 16 + b1 / 16, b1 % 16 * 4 + b2 / 64, b2 % 64) == [b0, b1, b2]
  {
    BytesByShifts(b0, b1, b2);
  }

  // What is left over decodes whatever stands in for the missing digits.
  lemma PartsDecode(b0: byte, b1: byte)
    ensures var q := Quad(b0, b1, 0, false);
            LastDecoded(q[..3]) == [b0, b1] && (b1 == 0 ==> LastDecoded(q[..2]) == [b0])
  {
    hide Lookup, Quad, Three;
    var q := Quad(b0, b1, 0, false);
    QuadDecodes(b0, b1, 0);
    FirstBytes(Lookup(q[0]), Lookup(q[1]), Lookup(q[2]), Lookup(q[3]));
  }

  lemma FirstBytes(x: byte, y: byte, z: byte, w: byte)
    ensures Three(x, y, z, 255)[..2] == Three(x, y, z, w)[..2]
    ensures Three(x, y, 255, 255)[..1] == Three(x, y, z, w)[..1]
  {
  }

  lemma {:induction false} DecodedUndoesEncode(b: bytes)
    ensures Decoded(Take(Encode(b, false))) == b
  {
    hide Quad, Three, Lookup;
    if |b| >= 3 {
      DecodedUndoesEncode(b[3..]);
      var q, rest := Quad(b[0], b[1], b[2], false), Encode(b[3..], false);
      QuadDecodes(b[0], b[1], b[2]);
      TakeSkips(q, rest);
      assert (q + Take(rest))[4..] == Take(rest);
    } else if |b| == 2 {
      EndDecodes(b[0], b[1], "=");
    } else if |b| == 1 {
      EndDecodes(b[0], 0, "==");
    }
  }

  lemma EndDecodes(b0: byte, b1: byte, padding: string)
    requires padding == "=" || (padding == "==" && b1 == 0)
    ensures padding == "=" ==> Decoded(Take(Encode([b0, b1], false))) == [b0, b1]
    ensures padding == "==" ==> Decoded(Take(Encode([b0], false))) == [b0]
  {
    hide Quad, Encode, Three, Lookup, LastDecoded, Take;
    var q := Quad(b0, b1, 0, false);
    QuadDecodes(b0, b1, 0);
    PartsDecode(b0, b1);
    OneGroup(b0, b1, 0);
    if padding == "=" {
      TakeStops(q[..3], "=");
    } else {
      TakeStops(q[..2], "==");
    }
  }

  lemma {:induction false} TakeSkips(q: string, rest: string)
    requires '=' !in q
    ensures Take(q + rest) == q + Take(rest)
  {
    if q == [] {
      assert q + rest == rest;
    } else {
      TakeSkips(q[1..], rest);
      assert (q + rest)[1..] == q[1..] + rest;
    }
  }

  lemma TakeStops(q: string, padding: string)
    requires '=' !in q && padding != [] && padding[0] == '='
    ensures Take(q + padding) == q
  {
    TakeSkips(q, padding);
  }

  // ---- base64_dec_len --------------------------------------------------------------------------------------------

  function TrailingEquals(s: string): nat
  {
    if s == [] || s[|s| - 1] != '=' then 0 else 1 + TrailingEquals(s[..|s| - 1])
  }

  // The loop has no lower end of its own: it needs a character that is not an equals sign.
  method DecLen(input: string) returns (n: int)
    requires exists i :: 0 <= i < |input| && input[i] != '='
    ensures n == 6 * |input| / 8 - TrailingEquals(input)
  {
    var numEq, i := 0, |input| - 1;
    assert input[..i + 1] == input;
    while input[i] == '='
      invariant 0 <= i < |input| && numEq + TrailingEquals(input[..i + 1]) == TrailingEquals(input)
      invariant exists k :: 0 <= k <= i && input[k] != '='
      decreases i
    {
      assert input[..i + 1][..i] == input[..i];
      numEq := numEq + 1;
      i := i - 1;
    }
    n := 6 * |input| / 8 - numEq;
  }

  // For the encoding of any bytes but none it gives their number.
  lemma DecLenIsExact(b: bytes)
    requires b != []
    ensures var s := Encode(b, false);
            6 * |s| / 8 - TrailingEquals(s) == |b| && exists i :: 0 <= i < |s| && s[i] != '='
  {
    hide Encode, TrailingEquals;
    var groups := (|b| - 1) / 3;
    EncodeLength(b, false);
    PaddingOf(groups, b);
    assert (|b| + 2) / 3 == groups + 1;
    assert 6 * ((groups + 1) * 4) / 8 == 3 * groups + 3;
  }

  lemma {:induction false} PaddingOf(groups: nat, b: bytes)
    requires 3 * groups < |b| <= 3 * groups + 3
    ensures Encode(b, false) != [] && Encode(b, false)[0] != '='
    ensures TrailingEquals(Encode(b, false)) == 3 * groups + 3 - |b|
    decreases groups
  {
    hide Quad, TrailingEquals, Three, Lookup;
    if groups > 0 {
      QuadDecodes(b[0], b[1], b[2]);
      PaddingOf(groups - 1, b[3..]);
      TrailingOfMore(Quad(b[0], b[1], b[2], false), Encode(b[3..], false));
    } else {
      PaddingOfFew(b);
    }
  }

  lemma PaddingOfFew(b: bytes)
    requires 1 <= |b| <= 3
    ensures Encode(b, false) != [] && Encode(b, false)[0] != '='
    ensures TrailingEquals(Encode(b, false)) == 3 - |b|
  {
    hide Quad, Encode, LastDecoded, Three, Lookup;
    var b0, b1, b2 := b[0], if |b| > 1 then b[1] else 0, if |b| > 2 then b[2] else 0;
    var q := Quad(b0, b1, b2, false);
    OneGroup(b0, b1, b2);
    QuadDecodes(b0, b1, b2);
    assert q[0] != '=' && q[1] != '=' && q[2] != '=' && q[3] != '=';
    if |b| == 3 {
      assert b == [b0, b1, b2];
    } else if |b| == 2 {
      assert b == [b0, b1];
      TrailingOneMore(q[..3]);
      assert TrailingEquals(q[..3]) == 0;
    } else {
      assert b == [b0];
      TrailingOneMore(q[..2]);
      TrailingOneMore(q[..2] + "=");
      assert TrailingEquals(q[..2]) == 0 && q[..2] + "=" + "=" == q[..2] + "==";
    }
  }

  lemma TrailingOneMore(s: string)
    ensures TrailingEquals(s + "=") == 1 + TrailingEquals(s)
  {
    assert (s + "=")[..|s|] == s;
  }

  lemma {:induction false} TrailingOfMore(q: string, r: string)
    requires r != [] && r[0] != '='
    ensures TrailingEquals(q + r) == TrailingEquals(r)
  {
    if r[|r| - 1] == '=' {
      TrailingOfMore(q, r[..|r| - 1]);
      assert (q + r)[..|q + r| - 1] == q + r[..|r| - 1];
    }
  }
}
