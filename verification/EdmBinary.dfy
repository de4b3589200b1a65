/** EDM_BINARY of agenttypesystem.c: base64url text of bytes, and the parser that reads it back. */
module EdmBinary {
  import opened Basics
  import opened Rfc4648

  // ---- the character tables --------------------------------------------------------------------------------------

  function Base64Char(val: byte): char
  {
    if val < 26 then 'A' + val as char
    else if val < 52 then 'a' + (val - 26) as char
    else if val < 62 then '0' + (val - 52) as char
    else if val == 62 then '-'
    else '_'
  }

  // Packed into words in the source.
  const B16 := "AEIMQUYcgkosw048"
  const B8 := "AQgw"

  // The last digit of a part of a group has two or four low bits that are zero; the short tables leave them out.
  lemma TablesAreTheAlphabet(d: nat)
    ensures d < 64 ==> Base64Char(d) == Alphabet(true)[d] && Alphabet(true)[d] != '=' && Alphabet(true)[d] != '"'
    ensures d < 16 ==> B16[d] == Alphabet(true)[4 * d]
    ensures d < 4 ==> B8[d] == Alphabet(true)[16 * d]
  {
    hide Alphabet;
    if d < 64 {
      AlphabetInRanges(d, true);
    }
    if d < 16 {
      AlphabetInRanges(4 * d, true);
      B16InRanges(d);
    }
    if d < 4 {
      AlphabetInRanges(16 * d, true);
    }
  }

  lemma B16InRanges(d: nat)
    requires d < 16
    ensures B16[d] == if d < 7 then 'A' + (4 * d) as char
                      else if d < 13 then 'a' + (4 * d - 26) as char
                      else '0' + (4 * d - 52) as char
  {
  }

  // ---- printing --------------------------------------------------------------------------------------------------

  method PutFour(temp: array<char>, pos: nat, c1: char, c2: char, c3: char, c4: char) returns (next: nat)
    requires pos + 4 <= temp.Length
    modifies temp
    ensures next == pos + 4 && temp[..next] == old(temp[..pos]) + [c1, c2, c3, c4]
  {
    temp[pos] := c1;
    temp[pos + 1] := c2;
    temp[pos + 2] := c3;
    temp[pos + 3] := c4;
    next := pos + 4;
  }

  lemma QuadByTables(b0: byte, b1: byte, b2: byte)
    ensures Quad(b0, b1, b2, true)
         == [Base64Char(b0 / 4), Base64Char(b0 % 4 * 16 + b1 / 16), Base64Char(b1 % 16 * 4 + b2 / 64), Base64Char(b2 % 64)]
  {
    hide Alphabet, Sextet, Group, Base64Char;
    SextetsByShifts(b0, b1, b2);
    TablesAreTheAlphabet(b0 / 4);
    TablesAreTheAlphabet(b0 % 4 * 16 + b1 / 16);
    TablesAreTheAlphabet(b1 % 16 * 4 + b2 / 64);
    TablesAreTheAlphabet(b2 % 64);
  }

  lemma EndsByTables(b0: byte, b1: byte)
    ensures Encode([b0, b1], true) == [Base64Char(b0 / 4), Base64Char(b0 % 4 * 16 + b1 / 16), B16[b1 % 16], '=']
    ensures Encode([b0], true) == [Base64Char(b0 / 4), B8[b0 % 4], '=', '=']
  {
    hide Alphabet, Sextet, Group, Base64Char;
    SextetsByShifts(b0, b1, 0);
    SextetsByShifts(b0, 0, 0);
    TablesAreTheAlphabet(b0 / 4);
    TablesAreTheAlphabet(b0 % 4 * 16 + b1 / 16);
    TablesAreTheAlphabet(b1 % 16);
    TablesAreTheAlphabet(b0 % 4);
  }

  lemma GroupByTables(groups: nat, data: bytes)
    requires 3 * groups + 3 <= |data|
    ensures var p := 3 * groups;
            Encode(data[..p + 3], true)
            == Encode(data[..p], true)
               + [Base64Char(data[p] / 4), Base64Char(data[p] % 4 * 16 + data[p + 1] / 16),
                  Base64Char(data[p + 1] % 16 * 4 + data[p + 2] / 64), Base64Char(data[p + 2] % 64)]
  {
    hide Encode, Base64Char, Quad;
    var p := 3 * groups;
    var b0, b1, b2 := data[p], data[p + 1], data[p + 2];
    EncodeInGroups(groups, data[..p], [b0, b1, b2], true);
    WholeGroup(b0, b1, b2);
    QuadByTables(b0, b1, b2);
    assert data[..p + 3] == data[..p] + [b0, b1, b2];
  }

  lemma WholeGroup(b0: byte, b1: byte, b2: byte)
    ensures Encode([b0, b1, b2], true) == Quad(b0, b1, b2, true)
  {
    hide Quad;
    assert [b0, b1, b2][3..] == [];
  }

  lemma Rest(groups: nat, data: bytes, rest: bytes)
    requires |data| == 3 * groups + |rest| && data[3 * groups..] == rest
    ensures Encode(data, true) == Encode(data[..3 * groups], true) + Encode(rest, true)
  {
    hide Encode;
    EncodeInGroups(groups, data[..3 * groups], rest, true);
    assert data == data[..3 * groups] + rest;
  }

  // neededSize, with the quotes and the terminator.
  function NeededSize(size: nat): nat
  {
    2 + (if size == 0 then 0 else ((size - 1) / 3 + 1) * 4) + 1
  }

  lemma NeededSizeIsExact(data: bytes)
    ensures NeededSize(|data|) == |Encode(data, true)| + 3
  {
    hide Encode;
    EncodeLength(data, true);
    assert |data| > 0 ==> (|data| + 2) / 3 == (|data| - 1) / 3 + 1;
  }

  lemma Room(size: nat, groups: nat)
    ensures 3 * groups < size ==> 4 * groups + 4 + 3 <= NeededSize(size)
    ensures 3 * groups == size ==> NeededSize(size) == 4 * groups + 3
    ensures 3 * groups < size <= 3 * groups + 3 ==> NeededSize(size) == 4 * groups + 7
  {
  }

  // Lines 2246 to 2266.
  method EncodeGroups(data: bytes, temp: array<char>) returns (position: nat, pointer: nat, ghost groups: nat)
    requires 0 < temp.Length == NeededSize(|data|) && temp[..1] == "\""
    modifies temp
    ensures position == 3 * groups <= |data| < position + 3 && pointer == 1 + 4 * groups <= temp.Length
    ensures temp[..pointer] == "\"" + Encode(data[..position], true)
  {
    hide Encode, Base64Char, NeededSize;
    position, pointer, groups := 0, 1, 0;
    EncodeNothing(data);
    while |data| - position >= 3
      invariant position == 3 * groups <= |data| && pointer == 1 + 4 * groups <= temp.Length
      invariant temp[..pointer] == "\"" + Encode(data[..position], true)
    {
      Room(|data|, groups);
      GroupByTables(groups, data);
      var c1 := Base64Char(data[position] / 4);
      var c2 := Base64Char(data[position] % 4 * 16 + data[position + 1] / 16);
      var c3 := Base64Char(data[position + 1] % 16 * 4 + data[position + 2] / 64);
      var c4 := Base64Char(data[position + 2] % 64);
      Regrouped("\"", Encode(data[..position], true), [c1, c2, c3, c4]);
      position := position + 3;
      pointer := PutFour(temp, pointer, c1, c2, c3, c4);
      groups := groups + 1;
    }
  }

  lemma EncodeNothing(data: bytes)
    ensures Encode(data[..0], true) == ""
  {
  }

  method BinaryToString(data: bytes) returns (temp: array<char>, end: nat)
    ensures temp.Length == |Encode(data, true)| + 3 && end == temp.Length - 1
    ensures temp[..end] == "\"" + Encode(data, true) + "\"" && temp[end] == '\0'
  {
    hide Encode, Base64Char, NeededSize;
    NeededSizeIsExact(data);
    temp := new char[NeededSize(|data|)];
    temp[0] := '"';
    var position, pointer;
    ghost var groups;
    position, pointer, groups := EncodeGroups(data, temp);
    Room(|data|, groups);
    ghost var front := Encode(data[..position], true);
    if |data| - position == 2 {
      var b0, b1 := data[position], data[position + 1];
      Rest(groups, data, [b0, b1]);
      EndsByTables(b0, b1);
      Regrouped("\"", front, [Base64Char(b0 / 4), Base64Char(b0 % 4 * 16 + b1 / 16), B16[b1 % 16], '=']);
      pointer := PutFour(temp, pointer, Base64Char(b0 / 4), Base64Char(b0 % 4 * 16 + b1 / 16), B16[b1 % 16], '=');
    } else if |data| - position == 1 {
      var b0 := data[position];
      Rest(groups, data, [b0]);
      EndsByTables(b0, 0);
      Regrouped("\"", front, [Base64Char(b0 / 4), B8[b0 % 4], '=', '=']);
      pointer := PutFour(temp, pointer, Base64Char(b0 / 4), B8[b0 % 4], '=', '=');
    } else {
      assert data[..position] == data;
    }
    end := Finish(temp, pointer);
  }

  method Finish(temp: array<char>, pointer: nat) returns (end: nat)
    requires pointer + 2 == temp.Length
    modifies temp
    ensures end == pointer + 1 && temp[..end] == old(temp[..pointer]) + "\"" && temp[end] == '\0'
  {
    temp[pointer] := '"';
    end := pointer + 1;
    temp[end] := '\0';
  }

  // ---- parsing ---------------------------------------------------------------------------------------------------

  // base64toValue.
  function ToValue(c: char): Option<byte>
  {
    if 'A' <= c <= 'Z' then Some(c as int - 'A' as int)
    else if 'a' <= c <= 'z' then Some(26 + (c as int - 'a' as int))
    else if '0' <= c <= '9' then Some(52 + (c as int - '0' as int))
    else if c == '-' then Some(62)
    else if c == '_' then Some(63)
    else None
  }

  // The place of a character in one of the short tables.
  function Place(table: string, c: char): Option<nat>
  {
    if table == "" then None
    else if table[0] == c then Some(0)
    else match Place(table[1..], c)
         case None => None
         case Some(i) => Some(i + 1)
  }

  predicate Solid(t: string)
  {
    |t| >= 4 && ToValue(t[0]).Some? && ToValue(t[1]).Some? && ToValue(t[2]).Some? && ToValue(t[3]).Some?
  }

  function ThreeBytes(c0: byte, c1: byte, c2: byte, c3: byte): (b: bytes)
    requires c0 < 64 && c1 < 64 && c2 < 64 && c3 < 64
    ensures |b| == 3
  {
    [c0 * 4 + c1 / 16, c1 % 16 * 16 + c2 / 4, c2 % 4 * 64 + c3]
  }

  function SolidBytes(t: string): bytes
    requires Solid(t)
  {
    ThreeBytes(ToValue(t[0]).value, ToValue(t[1]).value, ToValue(t[2]).value, ToValue(t[3]).value)
  }

  // The bytes of the solid groups at the start, and what follows them.
  function Groups(t: string): (r: (bytes, string))
    ensures |r.1| <= |t| && 3 * |t| == 3 * |r.1| + 4 * |r.0|
  {
    if Solid(t) then (SolidBytes(t) + Groups(t[4..]).0, Groups(t[4..]).1) else ([], t)
  }

  // scanbase64b16 and scanbase64b8: the bytes of a group cut short, and how many characters it takes.
  function ScanB16(t: string): Option<(bytes, nat)>
  {
    if |t| < 3 || ToValue(t[0]).None? || ToValue(t[1]).None? || Place(B16, t[2]).None? then None
    else
      var c0, c1, c2 := ToValue(t[0]).value, ToValue(t[1]).value, Place(B16, t[2]).value;
      PlaceInTable(B16, t[2]);
      Some(([c0 * 4 + c1 / 16, c1 % 16 * 16 + c2], if |t| > 3 && t[3] == '=' then 4 else 3))
  }

  function ScanB8(t: string): Option<(bytes, nat)>
  {
    if |t| < 2 || ToValue(t[0]).None? || Place(B8, t[1]).None? then None
    else
      PlaceInTable(B8, t[1]);
      Some(([ToValue(t[0]).value * 4 + Place(B8, t[1]).value],
            if |t| >= 4 && t[2] == '=' && t[3] == '=' then 4 else 2))
  }

  lemma {:induction false} PlaceInTable(table: string, c: char)
    ensures Place(table, c).Some? ==> Place(table, c).value < |table| && table[Place(table, c).value] == c
    ensures Place(table, c).None? <==> c !in table
  {
    if table != "" {
      PlaceInTable(table[1..], c);
    }
  }

  function End(t: string): (bytes, nat)
  {
    if ScanB16(t).Some? then ScanB16(t).value
    else if ScanB8(t).Some? then ScanB8(t).value
    else ([], 0)
  }

  function Parse(source: string): Option<bytes>
  {
    if |source| < 2 then None
    else if |source| == 2 then Some([])
    else if source[0] != '"' then None
    else
      var g := Groups(source[1..]);
      var e := End(g.1);
      if e.1 <= |g.1| && g.1[e.1..] == "\"" then Some(g.0 + e.0) else None
  }

  // ---- the parser's own steps ------------------------------------------------------------------------------------

  // The loops of base64b16toValue and base64b8toValue.
  method ToPlace(table: string, c: char) returns (place: Option<nat>)
    ensures place == Place(table, c)
  {
    var i := 0;
    while i < |table|
      invariant i <= |table|
      invariant Place(table, c) == Later(Place(table[i..], c), i)
    {
      if table[i] == c {
        return Some(i);
      }
      assert table[i..][1..] == table[i + 1..];
      i := i + 1;
    }
    return None;
  }

  ghost function Later(place: Option<nat>, i: nat): Option<nat>
  {
    match place
    case None => None
    case Some(p) => Some(p + i)
  }

  // scan4base64char: nothing is written unless all four are digits.
  method ScanFour(source: string, pos: nat, data: array<byte>, to: nat) returns (ok: bool)
    requires pos <= |source| && to <= data.Length
    requires Solid(source[pos..]) ==> to + 3 <= data.Length
    modifies data
    ensures ok == Solid(source[pos..])
    ensures ok ==> data[..to + 3] == old(data[..to]) + SolidBytes(source[pos..])
    ensures data[..to] == old(data[..to])
  {
    if |source| - pos < 4 {
      return false;
    }
    var b0, b1, b2, b3 := ToValue(source[pos]), ToValue(source[pos + 1]), ToValue(source[pos + 2]), ToValue(source[pos + 3]);
    if b0.None? || b1.None? || b2.None? || b3.None? {
      return false;
    }
    data[to] := b0.value * 4 + b1.value / 16;
    data[to + 1] := b1.value % 16 * 16 + b2.value / 4;
    data[to + 2] := b2.value % 4 * 64 + b3.value;
    ok := true;
  }

  method ScanB16Into(source: string, pos: nat, data: array<byte>, to: nat) returns (consumed: Option<nat>)
    requires pos <= |source| && to <= data.Length && (ScanB16(source[pos..]).Some? ==> to + 2 <= data.Length)
    modifies data
    ensures var r := ScanB16(source[pos..]);
            if r.None? then consumed.None? && data[..to] == old(data[..to])
            else consumed == Some(r.value.1) && data[..to + 2] == old(data[..to]) + r.value.0
  {
    hide ToValue, Place;
    if |source| - pos < 3 {
      return None;
    }
    var c0, c1 := ToValue(source[pos]), ToValue(source[pos + 1]);
    var c2 := ToPlace(B16, source[pos + 2]);
    if c0.None? || c1.None? || c2.None? {
      return None;
    }
    PlaceInTable(B16, source[pos + 2]);
    DigitBack(source[pos]);
    DigitBack(source[pos + 1]);
    consumed := Some(3 + if At(source, pos + 3) == '=' then 1 else 0);
    data[to] := c0.value * 4 + c1.value / 16;
    data[to + 1] := c1.value % 16 * 16 + c2.value;
  }

  method ScanB8Into(source: string, pos: nat, data: array<byte>, to: nat) returns (consumed: Option<nat>)
    requires pos <= |source| && to <= data.Length && (ScanB8(source[pos..]).Some? ==> to + 1 <= data.Length)
    modifies data
    ensures var r := ScanB8(source[pos..]);
            if r.None? then consumed.None? && data[..to] == old(data[..to])
            else consumed == Some(r.value.1) && data[..to + 1] == old(data[..to]) + r.value.0
  {
    hide ToValue, Place;
    if |source| - pos < 2 {
      return None;
    }
    var c0 := ToValue(source[pos]);
    var c1 := ToPlace(B8, source[pos + 1]);
    if c0.None? || c1.None? {
      return None;
    }
    PlaceInTable(B8, source[pos + 1]);
    DigitBack(source[pos]);
    consumed := Some(2 + if |source| - pos >= 4 && source[pos + 2] == '=' && source[pos + 3] == '=' then 2 else 0);
    data[to] := c0.value * 4 + c1.value;
  }

  datatype Result = Invalid | Binary(data: array<byte>)

  function Allocation(length: nat): nat
    requires length >= 2
  {
    (length - 2 + 4) / 4 * 3
  }

  // Every writer stays inside the allocation, whatever the source holds.
  lemma WritesFit(length: nat, groups: nat, left: nat)
    requires length >= 2 && length - 1 == 4 * groups + left
    ensures left >= 1 ==> 3 * groups + 3 <= Allocation(length)
    ensures 3 * groups <= Allocation(length)
  {
  }

  // The loop of lines 3915 to 3919.
  method SolidGroups(source: string, data: array<byte>) returns (pos: nat, to: nat)
    requires |source| > 2 && data.Length == Allocation(|source|)
    modifies data
    ensures 1 <= pos <= |source| && 3 * (pos - 1) == 4 * to && to <= data.Length
    ensures pos < |source| ==> to + 3 <= data.Length
    ensures Groups(source[1..]) == (data[..to], source[pos..])
  {
    hide Allocation, Solid, SolidBytes, Groups;
    pos, to := 1, 0;
    ghost var groups := 0;
    WritesFit(|source|, 0, |source| - 1);
    NoGroupsYet(source[1..]);
    var ok := ScanFour(source, pos, data, to);
    while ok
      invariant pos == 1 + 4 * groups <= |source| && to == 3 * groups <= data.Length
      invariant pos < |source| ==> to + 3 <= data.Length
      invariant ok == Solid(source[pos..])
      invariant ok ==> to + 3 <= data.Length && data[..to + 3] == data[..to] + SolidBytes(source[pos..])
      invariant Groups(source[1..]) == (data[..to] + Groups(source[pos..]).0, Groups(source[pos..]).1)
      decreases |source| - pos
    {
      OneGroupMore(source, pos, data[..to]);
      pos := pos + 4;
      to := to + 3;
      groups := groups + 1;
      WritesFit(|source|, groups, |source| - pos);
      SolidIsLong(source, pos);
      ok := ScanFour(source, pos, data, to);
    }
    NoMoreGroups(source[pos..], data[..to]);
  }

  lemma NoGroupsYet(t: string)
    ensures Groups(t) == ([] + Groups(t).0, Groups(t).1)
  {
    hide Groups;
    assert [] + Groups(t).0 == Groups(t).0;
  }

  lemma SolidIsLong(source: string, pos: nat)
    requires pos <= |source|
    ensures Solid(source[pos..]) ==> pos + 4 <= |source|
  {
  }

  lemma OneGroupMore(source: string, pos: nat, done: bytes)
    requires pos <= |source| && Solid(source[pos..])
    ensures pos + 4 <= |source|
    ensures done + Groups(source[pos..]).0 == done + SolidBytes(source[pos..]) + Groups(source[pos + 4..]).0
    ensures Groups(source[pos..]).1 == Groups(source[pos + 4..]).1
  {
    hide ToValue, SolidBytes;
    assert source[pos..][4..] == source[pos + 4..];
  }

  lemma NoMoreGroups(t: string, done: bytes)
    requires !Solid(t)
    ensures (done + Groups(t).0, Groups(t).1) == (done, t)
  {
    hide ToValue;
    assert done + [] == done;
  }

  method ParseBinary(source: string) returns (r: Result)
    requires '\0' !in source
    ensures Parse(source) == if r.Invalid? then None else Some(r.data[..])
  {
    hide Groups, End, Allocation;
    if |source| < 2 {
      return Invalid;
    } else if |source| == 2 {
      var empty := new byte[0];
      assert empty[..] == [];
      return Binary(empty);
    }
    if source[0] != '"' {
      return Invalid;
    }
    var data := new byte[Allocation(|source|)];
    var pos, to := SolidGroups(source, data);
    ghost var from, solid := pos, data[..to];
    pos, to := LastBytes(source, pos, data, to);
    ParseEnds(source, solid, from, data[|solid|..to], pos);
    assert data[..to] == data[..|solid|] + data[|solid|..to];
    if At(source, pos) != '"' {
      return Invalid;
    }
    pos := pos + 1;
    if pos != |source| {
      return Invalid;
    }
    var trimmed := Trim(data, to);
    r := Binary(trimmed);
  }

  lemma ParseEnds(source: string, solid: bytes, from: nat, last: bytes, pos: nat)
    requires |source| > 2 && source[0] == '"' && 1 <= from <= pos <= |source|
    requires Groups(source[1..]) == (solid, source[from..]) && End(source[from..]) == (last, pos - from)
    ensures Parse(source) == if At(source, pos) == '"' && pos + 1 == |source| then Some(solid + last) else None
  {
    hide Groups, End;
    assert source[from..][pos - from..] == source[pos..];
    if pos < |source| {
      assert source[pos..][0] == source[pos];
    }
  }

  // realloc to the size in use.
  method Trim(data: array<byte>, size: nat) returns (trimmed: array<byte>)
    requires size <= data.Length
    ensures fresh(trimmed) && trimmed[..] == data[..size]
  {
    trimmed := new byte[size];
    forall i | 0 <= i < size {
      trimmed[i] := data[i];
    }
  }

  // Lines 3921 to 3931.
  method LastBytes(source: string, from: nat, data: array<byte>, start: nat) returns (pos: nat, to: nat)
    requires 1 <= from <= |source| && start <= data.Length && (from < |source| ==> start + 3 <= data.Length)
    modifies data
    ensures from <= pos <= |source| && start <= to <= data.Length
    ensures End(source[from..]) == (data[start..to], pos - from) && data[..start] == old(data[..start])
  {
    hide ScanB16, ScanB8;
    ScansNeedCharacters(source[from..]);
    pos, to := from, start;
    ghost var done := data[..start];
    var consumed := ScanB16Into(source, from, data, start);
    if consumed.Some? {
      pos, to := from + consumed.value, start + 2;
      Tail(data[..], done, ScanB16(source[from..]).value.0);
    } else {
      consumed := ScanB8Into(source, from, data, start);
      if consumed.Some? {
        pos, to := from + consumed.value, start + 1;
        Tail(data[..], done, ScanB8(source[from..]).value.0);
      } else {
        assert data[start..start] == [];
      }
    }
  }

  lemma ScansNeedCharacters(t: string)
    ensures ScanB16(t).Some? ==> |ScanB16(t).value.0| == 2 && ScanB16(t).value.1 <= |t| && t != []
    ensures ScanB8(t).Some? ==> |ScanB8(t).value.0| == 1 && ScanB8(t).value.1 <= |t| && t != []
  {
  }

  lemma Tail(data: bytes, done: bytes, more: bytes)
    requires |done| + |more| <= |data| && data[..|done| + |more|] == done + more
    ensures data[..|done|] == done && data[|done|..|done| + |more|] == more
  {
    assert data[..|done|] == data[..|done| + |more|][..|done|];
    assert data[|done|..|done| + |more|] == data[..|done| + |more|][|done|..];
  }

  // ---- round trip ------------------------------------------------------------------------------------------------

  lemma ToValueUndoes(d: nat)
    requires d < 64
    ensures ToValue(Alphabet(true)[d]) == Some(d)
    ensures Alphabet(true)[d] != '=' && Alphabet(true)[d] != '"'
  {
    hide Alphabet;
    AlphabetInRanges(d, true);
  }

  lemma QuadReads(b0: byte, b1: byte, b2: byte, rest: string)
    ensures var t := Quad(b0, b1, b2, true) + rest;
            Solid(t) && SolidBytes(t) == [b0, b1, b2] && t[4..] == rest
  {
    hide Alphabet, Sextet, Group, ToValue, ThreeBytes;
    var n := Group(b0, b1, b2);
    ToValueUndoes(Sextet(n, 0));
    ToValueUndoes(Sextet(n, 1));
    ToValueUndoes(Sextet(n, 2));
    ToValueUndoes(Sextet(n, 3));
    SextetsByShifts(b0, b1, b2);
    ThreeBytesOfSextets(b0, b1, b2);
  }

  lemma ThreeBytesOfSextets(b0: byte, b1: byte, b2: byte)
    ensures ThreeBytes(b0 / 4, b0 % 4 * 16 + b1 / 16, b1 % 16 * 4 + b2 / 64, b2 % 64) == [b0, b1, b2]
  {
    BytesByShifts(b0, b1, b2);
  }

  // The end of the text: two characters and a short one, or one and a shorter one, with the padding.
  lemma EndReads(b0: byte, b1: byte)
    ensures var t := Encode([b0, b1], true) + "\"";
            |t| == 5 && !Solid(t) && End(t) == ([b0, b1], 4) && t[4..] == "\""
    ensures var t := Encode([b0], true) + "\"";
            |t| == 5 && !Solid(t) && End(t) == ([b0], 4) && t[4..] == "\""
  {
    hide Encode, ToValue, Base64Char, Alphabet, Place;
    EndsByTables(b0, b1);
    DigitReads(b0 / 4);
    DigitReads(b0 % 4 * 16 + b1 / 16);
    NotDigits();
    PlaceOf(B16, b1 % 16);
    PlaceOf(B8, b0 % 4);
    EqualsNotInTables();
  }

  lemma DigitReads(d: nat)
    requires d < 64
    ensures ToValue(Base64Char(d)) == Some(d)
  {
  }

  lemma NotDigits()
    ensures ToValue('=') == None && ToValue('"') == None
  {
  }

  lemma PlaceOf(table: string, i: nat)
    requires (table == B16 && i < 16) || (table == B8 && i < 4)
    ensures Place(table, table[i]) == Some(i)
  {
    hide Place;
    PlaceInTable(table, table[i]);
    DistinctInTables(table, i, Place(table, table[i]).value);
  }

  lemma DistinctInTables(table: string, i: nat, j: nat)
    requires (table == B16 && i < 16 && j < 16) || (table == B8 && i < 4 && j < 4)
    ensures table[i] == table[j] ==> i == j
  {
    if table == B16 {
      B16InRanges(i);
      B16InRanges(j);
    }
  }

  lemma EqualsNotInTables()
    ensures Place(B16, '=') == None
  {
    hide Place;
    PlaceInTable(B16, '=');
  }

  lemma {:induction false} EncodedReads(b: bytes)
    ensures var g := Groups(Encode(b, true) + "\"");
            var e := End(g.1);
            g.0 + e.0 == b && e.1 <= |g.1| && g.1[e.1..] == "\""
  {
    hide Quad, End, SolidBytes, ToValue;
    if |b| >= 3 {
      var q, rest := Quad(b[0], b[1], b[2], true), Encode(b[3..], true) + "\"";
      EncodedReads(b[3..]);
      QuadReads(b[0], b[1], b[2], rest);
      Regrouped(q, Encode(b[3..], true), "\"");
      assert [b[0], b[1], b[2]] + b[3..] == b;
    } else {
      EndEncodedReads(b);
    }
  }

  lemma EndEncodedReads(b: bytes)
    requires |b| < 3
    ensures var t := Encode(b, true) + "\"";
            !Solid(t) && End(t).0 == b && End(t).1 <= |t| && t[End(t).1..] == "\""
  {
    hide Quad, End, SolidBytes, ToValue, Encode, Solid;
    if |b| == 2 {
      EndReads(b[0], b[1]);
      assert b == [b[0], b[1]];
    } else if |b| == 1 {
      EndReads(b[0], 0);
      assert b == [b[0]];
    } else {
      NothingReads();
    }
  }

  lemma NothingReads()
    ensures var t := Encode([], true) + "\""; !Solid(t) && End(t) == ([], 0) && t == "\""
  {
    hide ToValue, Place;
    assert Encode([], true) + "\"" == "\"";
  }

  // Any bytes are read back from their text.
  lemma BinaryRoundTrip(b: bytes)
    ensures Parse("\"" + Encode(b, true) + "\"") == Some(b)
  {
    hide Encode, Groups, End;
    var source := "\"" + Encode(b, true) + "\"";
    EncodedReads(b);
    EncodeLength(b, true);
    assert source[1..] == Encode(b, true) + "\"";
    assert b == [] ==> |source| == 2;
  }

  // ---- exactly what is accepted ----------------------------------------------------------------------------------

  // The encoding without its padding, which section 3.2 of RFC 4648 lets such texts leave out.
  function Unpadded(b: bytes): string
  {
    var e := Encode(b, true);
    EncodeLength(b, true);
    if |b| % 3 == 0 then e else if |b| % 3 == 1 then e[..|e| - 2] else e[..|e| - 1]
  }

  lemma UnpaddedInGroups(b: bytes)
    requires |b| >= 3
    ensures Unpadded(b) == Quad(b[0], b[1], b[2], true) + Unpadded(b[3..])
  {
    hide Quad, DigitOf;
    EncodeLength(b[3..], true);
  }

  lemma {:induction false} UnpaddedReads(b: bytes)
    ensures var g := Groups(Unpadded(b) + "\"");
            var e := End(g.1);
            g.0 + e.0 == b && e.1 <= |g.1| && g.1[e.1..] == "\""
  {
    hide Quad, End, SolidBytes, ToValue, Unpadded;
    if |b| >= 3 {
      var q, rest := Quad(b[0], b[1], b[2], true), Unpadded(b[3..]) + "\"";
      UnpaddedInGroups(b);
      UnpaddedReads(b[3..]);
      QuadReads(b[0], b[1], b[2], rest);
      Regrouped(q, Unpadded(b[3..]), "\"");
      assert [b[0], b[1], b[2]] + b[3..] == b;
    } else {
      UnpaddedEndReads(b);
    }
  }

  lemma UnpaddedEndReads(b: bytes)
    requires |b| < 3
    ensures var t := Unpadded(b) + "\"";
            !Solid(t) && End(t).0 == b && End(t).1 <= |t| && t[End(t).1..] == "\""
  {
    hide Encode, ToValue, Base64Char, Alphabet, Place;
    NotDigits();
    if |b| == 2 {
      EndsByTables(b[0], b[1]);
      assert b == [b[0], b[1]];
      DigitReads(b[0] / 4);
      DigitReads(b[0] % 4 * 16 + b[1] / 16);
      PlaceOf(B16, b[1] % 16);
    } else if |b| == 1 {
      EndsByTables(b[0], 0);
      assert b == [b[0]];
      DigitReads(b[0] / 4);
      PlaceOf(B8, b[0] % 4);
      QuoteNotInTables();
    } else {
      NothingReads();
    }
  }

  lemma QuoteNotInTables()
    ensures Place(B16, '"') == None
  {
    hide Place;
    PlaceInTable(B16, '"');
  }

  // A digit is the character of its value.
  lemma DigitBack(c: char)
    requires ToValue(c).Some?
    ensures ToValue(c).value < 64 && Base64Char(ToValue(c).value) == c
  {
  }

  lemma SolidBack(t: string)
    requires Solid(t)
    ensures var b := SolidBytes(t); |b| == 3 && Quad(b[0], b[1], b[2], true) == t[..4]
  {
    hide ToValue, Base64Char, ThreeBytes;
    DigitBack(t[0]);
    DigitBack(t[1]);
    DigitBack(t[2]);
    DigitBack(t[3]);
    var b := SolidBytes(t);
    QuadByTables(b[0], b[1], b[2]);
    SextetsBack(ToValue(t[0]).value, ToValue(t[1]).value, ToValue(t[2]).value, ToValue(t[3]).value);
  }

  lemma SextetsBack(c0: byte, c1: byte, c2: byte, c3: byte)
    requires c0 < 64 && c1 < 64 && c2 < 64 && c3 < 64
    ensures var b := ThreeBytes(c0, c1, c2, c3);
            b[0] / 4 == c0 && b[0] % 4 * 16 + b[1] / 16 == c1 && b[1] % 16 * 4 + b[2] / 64 == c2 && b[2] % 64 == c3
  {
    assert (c0 * 4 + c1 / 16) % 4 == c1 / 16 && (c1 % 16 * 16 + c2 / 4) / 16 == c1 % 16;
    assert (c1 % 16 * 16 + c2 / 4) % 16 == c2 / 4 && (c2 % 4 * 64 + c3) / 64 == c2 % 4;
  }

  lemma B16Back(t: string)
    requires ScanB16(t).Some?
    ensures var r := ScanB16(t).value;
            |r.0| == 2 && r.1 <= |t| && t[..r.1] == if r.1 == 4 then Encode(r.0, true) else Unpadded(r.0)
  {
    hide Encode, ToValue, Base64Char, Place;
    var r := ScanB16(t).value;
    var c0, c1, c2 := ToValue(t[0]).value, ToValue(t[1]).value, Place(B16, t[2]).value;
    DigitBack(t[0]);
    DigitBack(t[1]);
    PlaceInTable(B16, t[2]);
    EndsByTables(r.0[0], r.0[1]);
    TwoBytesBack(c0, c1, c2);
    assert r.0 == [r.0[0], r.0[1]];
  }

  lemma TwoBytesBack(c0: nat, c1: nat, c2: nat)
    requires c0 < 64 && c1 < 64 && c2 < 16
    ensures var b0, b1 := c0 * 4 + c1 / 16, c1 % 16 * 16 + c2;
            b0 / 4 == c0 && b0 % 4 * 16 + b1 / 16 == c1 && b1 % 16 == c2
  {
    assert (c0 * 4 + c1 / 16) % 4 == c1 / 16 && (c1 % 16 * 16 + c2) / 16 == c1 % 16;
  }

  lemma B8Back(t: string)
    requires ScanB8(t).Some?
    ensures var r := ScanB8(t).value;
            |r.0| == 1 && r.1 <= |t| && t[..r.1] == if r.1 == 4 then Encode(r.0, true) else Unpadded(r.0)
  {
    hide Encode, ToValue, Base64Char, Place;
    var r := ScanB8(t).value;
    DigitBack(t[0]);
    PlaceInTable(B8, t[1]);
    EndsByTables(r.0[0], 0);
    assert r.0 == [r.0[0]];
  }

  predicate IsText(t: string, b: bytes)
  {
    t == Encode(b, true) + "\"" || t == Unpadded(b) + "\""
  }

  // What is closed by the quote is one of the two texts of its bytes.
  lemma {:induction false} GroupsBack(t: string)
    ensures var g := Groups(t);
            var e := End(g.1);
            e.1 <= |g.1| && g.1[e.1..] == "\"" ==> IsText(t, g.0 + e.0)
    decreases |t|
  {
    hide SolidBytes, Solid, IsText, End;
    var e := End(Groups(t).1);
    if Solid(t) {
      SolidIsThree(t);
      GroupsBack(t[4..]);
      if IsText(t[4..], Groups(t[4..]).0 + e.0) {
        OneGroupBack(t, Groups(t[4..]).0 + e.0);
      }
      assert SolidBytes(t) + (Groups(t[4..]).0 + e.0) == SolidBytes(t) + Groups(t[4..]).0 + e.0;
    } else {
      EndBack(t);
      assert [] + e.0 == e.0;
    }
  }

  lemma SolidIsThree(t: string)
    requires Solid(t)
    ensures |t| >= 4 && |SolidBytes(t)| == 3
  {
  }

  lemma OneGroupBack(t: string, rest: bytes)
    requires Solid(t) && IsText(t[4..], rest)
    ensures IsText(t, SolidBytes(t) + rest)
  {
    hide ToValue, ThreeBytes, Encode, Unpadded, Quad;
    var b := SolidBytes(t) + rest;
    SolidBack(t);
    WholeGroupFirst(b);
    UnpaddedInGroups(b);
    assert b[3..] == rest && t == t[..4] + t[4..];
  }

  lemma EndBack(t: string)
    ensures End(t).1 <= |t| && t[End(t).1..] == "\"" ==> IsText(t, End(t).0)
  {
    hide ToValue, Encode, Unpadded, ScanB16, ScanB8;
    var e := End(t);
    if ScanB16(t).Some? {
      B16Back(t);
      assert t == t[..e.1] + t[e.1..];
    } else if ScanB8(t).Some? {
      B8Back(t);
      assert t == t[..e.1] + t[e.1..];
    } else {
      NothingReads();
    }
  }

  lemma WholeGroupFirst(b: bytes)
    requires |b| >= 3
    ensures Encode(b, true) == Quad(b[0], b[1], b[2], true) + Encode(b[3..], true)
  {
    hide Quad, DigitOf;
  }

  // Accepted are exactly the texts in quotes of any bytes, with or without their padding, for these bytes; and anything
  // of length two, for none.
  lemma ParsedExactly(source: string, b: bytes)
    ensures Parse(source) == Some(b)
       <==> if |source| == 2 then b == []
            else source == "\"" + Encode(b, true) + "\"" || source == "\"" + Unpadded(b) + "\""
  {
    hide Encode, Unpadded, Groups, End;
    if |source| > 2 && source[0] == '"' {
      GroupsBack(source[1..]);
      assert source == "\"" + source[1..];
    }
    EncodedReads(b);
    UnpaddedReads(b);
    assert ("\"" + Encode(b, true) + "\"")[1..] == Encode(b, true) + "\"";
    assert ("\"" + Unpadded(b) + "\"")[1..] == Unpadded(b) + "\"";
  }
}
