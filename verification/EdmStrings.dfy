/** The EDM_STRING case of AgentDataTypes_ToString: a string as JSON text, its size counted before it is written. */
module EdmStrings {
  import opened Basics
  import opened EdmNumbers

  // ---- what is to be written -------------------------------------------------------------------------------------

  predicate SevenBit(s: string)
  {
    forall i :: 0 <= i < |s| ==> s[i] as int < 128
  }

  predicate Control(c: char) { c as int <= 0x1F }

  const HEX := "0123456789ABCDEF"

  function Escaped(c: char): string
  {
    if Control(c) then "\\u00" + [HEX[c as int / 16], HEX[c as int % 16]]
    else if c == '"' || c == '\\' || c == '/' then ['\\', c]
    else [c]
  }

  // Quotes, backslashes and slashes get a backslash, the characters below a space their number, all others stay.
  lemma EscapedIs(c: char)
    requires c as int < 128
    ensures c == '"' ==> Escaped(c) == "\\\""
    ensures c == '\\' ==> Escaped(c) == "\\\\"
    ensures c == '/' ==> Escaped(c) == "\\/"
    ensures c < ' ' ==> Escaped(c) == "\\u00" + [if c < 16 as char then '0' else '1', "0123456789ABCDEF"[c as int % 16]]
    ensures c >= ' ' && c != '"' && c != '\\' && c != '/' ==> Escaped(c) == [c]
  {
    if c < ' ' {
      assert HEX[c as int / 16] == if c < 16 as char then '0' else '1';
    }
  }

  function Content(s: string): string
  {
    if s == [] then "" else Content(s[..|s| - 1]) + Escaped(s[|s| - 1])
  }

  // ---- JSON strings ----------------------------------------------------------------------------------------------

  function HexValue(c: char): Option<nat>
  {
    if '0' <= c <= '9' then Some(c as int - '0' as int)
    else if 'A' <= c <= 'F' then Some(c as int - 'A' as int + 10)
    else if 'a' <= c <= 'f' then Some(c as int - 'a' as int + 10)
    else None
  }

  function Code(n: nat): Option<char>
  {
    if n < 0xD800 then Some(n as char) else None
  }

  function HexCode(s: string): Option<char>
    requires |s| == 4
  {
    var a, b, c, d := HexValue(s[0]), HexValue(s[1]), HexValue(s[2]), HexValue(s[3]);
    if a.None? || b.None? || c.None? || d.None? then None
    else Code(((a.value * 16 + b.value) * 16 + c.value) * 16 + d.value)
  }

  function Short(c: char): Option<char>
  {
    if c == '"' || c == '\\' || c == '/' then Some(c)
    else if c == 'b' then Some(8 as char)
    else if c == 'f' then Some(12 as char)
    else if c == 'n' then Some('\n')
    else if c == 'r' then Some('\r')
    else if c == 't' then Some('\t')
    else None
  }

  // Section 7 of RFC 8259: what stands between the quotation marks, as characters; None where the grammar has no such
  // text. Escaped surrogates are not needed here and are refused.
  function Unescape(s: string): Option<string>
  {
    if s == [] then Some("")
    else if s[0] == '\\' then
      if |s| >= 6 && s[1] == 'u' then Then(HexCode(s[2..6]), Unescape(s[6..]))
      else if |s| >= 2 then Then(Short(s[1]), Unescape(s[2..]))
      else None
    else if Control(s[0]) || s[0] == '"' then None
    else Then(Some(s[0]), Unescape(s[1..]))
  }

  function Then(c: Option<char>, rest: Option<string>): Option<string>
  {
    if c.None? || rest.None? then None else Some([c.value] + rest.value)
  }

  function Prepend(s: string, rest: Option<string>): Option<string>
  {
    if rest.None? then None else Some(s + rest.value)
  }

  lemma EscapedReads(c: char, rest: string)
    ensures Unescape(Escaped(c) + rest) == Then(Some(c), Unescape(rest))
  {
    var s := Escaped(c) + rest;
    if Control(c) {
      HexDigits(c as int);
      assert s[2..6] == ['0', '0', HEX[c as int / 16], HEX[c as int % 16]] && s[6..] == rest;
      assert HexCode(s[2..6]) == Some(c);
      hide HexCode;
    } else if c == '"' || c == '\\' || c == '/' {
      assert s[2..] == rest;
    } else {
      assert s[1..] == rest;
    }
  }

  lemma HexDigits(n: nat)
    requires n <= 0x1F
    ensures HexValue(HEX[n / 16]) == Some(n / 16) && HexValue(HEX[n % 16]) == Some(n % 16)
  {
  }

  // The written text is a JSON string and says what the original said.
  lemma {:induction false} ContentReads(s: string, rest: string)
    ensures Unescape(Content(s) + rest) == Prepend(s, Unescape(rest))
  {
    if s == [] {
      assert Content(s) + rest == rest;
      PrependNothing(Unescape(rest));
      hide Unescape, Prepend;
    } else {
      var front, last := s[..|s| - 1], s[|s| - 1];
      EscapedReads(last, rest);
      ContentReads(front, Escaped(last) + rest);
      Regrouped(Content(front), Escaped(last), rest);
      PrependOneMore(front, last, Unescape(rest));
      assert front + [last] == s;
      hide Unescape, Escaped, Prepend, Then;
    }
  }

  lemma PrependNothing(rest: Option<string>)
    ensures Prepend([], rest) == rest
  {
    if rest.Some? {
      assert [] + rest.value == rest.value;
    }
  }

  lemma PrependOneMore(front: string, last: char, rest: Option<string>)
    ensures Prepend(front, Then(Some(last), rest)) == Prepend(front + [last], rest)
  {
    if rest.Some? {
      assert front + ([last] + rest.value) == front + [last] + rest.value;
    }
  }

  lemma EscapingIsFaithful(s: string)
    ensures Unescape(Content(s)) == Some(s)
    ensures '\0' !in Content(s)
  {
    ContentReads(s, "");
    ContentHasNoNul(s);
    assert Unescape("") == Some("");
    hide Unescape, Content;
    assert Content(s) + "" == Content(s) && s + "" == s;
  }

  lemma {:induction false} ContentHasNoNul(s: string)
    ensures '\0' !in Content(s)
  {
    if s != [] {
      ContentHasNoNul(s[..|s| - 1]);
      EscapedHasNoNul(s[|s| - 1]);
      hide Escaped;
    }
  }

  lemma EscapedHasNoNul(c: char)
    ensures '\0' !in Escaped(c)
  {
  }

  // ---- the two passes --------------------------------------------------------------------------------------------

  // The first pass: counts, unless a character is not of seven bits.
  method Count(v: string) returns (ok: bool, controls: nat, escapes: nat)
    ensures ok <==> SevenBit(v)
    ensures ok ==> |Content(v)| == |v| + 5 * controls + escapes
  {
    controls, escapes := 0, 0;
    var i := 0;
    assert v[..0] == "";
    hide Escaped;
    while i < |v|
      invariant i <= |v| && |Content(v[..i])| == i + 5 * controls + escapes
      invariant forall j :: 0 <= j < i ==> v[j] as int < 128
    {
      ContentStep(v, i);
      EscapedLength(v[i]);
      hide Content, Escaped;
      if v[i] as int >= 128 {
        break;
      } else if v[i] as int <= 0x1F {
        controls := controls + 1;
      } else if v[i] == '"' || v[i] == '\\' || v[i] == '/' {
        escapes := escapes + 1;
      }
      i := i + 1;
    }
    ok := i == |v|;
    assert ok ==> v[..i] == v;
  }

  datatype Text = Written(buffer: array<char>, end: nat) | InvalidArg

  // The second pass fills the buffer that the first has measured: the text, the closing quote and directly after it the
  // terminator, with one byte to spare.
  method EscapeString(v: string) returns (r: Text)
    ensures r.InvalidArg? <==> !SevenBit(v)
    ensures r.Written? ==>
              && r.buffer.Length == |Content(v)| + 4 && r.end == |Content(v)| + 2
              && r.buffer[..r.end] == "\"" + Content(v) + "\"" && r.buffer[r.end] == '\0'
  {
    var ok, controls, escapes := Count(v);
    if !ok {
      return InvalidArg;
    }
    var buffer := new char[|v| + 5 * controls + escapes + 3 + 1];
    buffer[0] := '"';
    var w := WriteContent(v, buffer);
    hide Content, SevenBit;
    ghost var done := buffer[..w];
    buffer[w] := '"';
    assert buffer[..w + 1] == done + "\"";
    Terminate(buffer, |v| + 5 * controls + escapes + 3 - 1);
    r := Written(buffer, |v| + 5 * controls + escapes + 3 - 1);
  }

  method WriteContent(v: string, buffer: array<char>) returns (w: nat)
    requires buffer.Length == |Content(v)| + 4 && buffer[0] == '"'
    modifies buffer
    ensures w == 1 + |Content(v)| && buffer[..w] == "\"" + Content(v)
  {
    w := 1;
    var i := 0;
    ghost var done: string := "";
    assert v[..0] == "" && buffer[..w] == "\"" + done;
    hide Content, Escaped;
    while i < |v|
      invariant i <= |v| && done == Content(v[..i]) && w == 1 + |done| <= buffer.Length && buffer[..w] == "\"" + done
    {
      ContentStep(v, i);
      Regrouped("\"", done, Escaped(v[i]));
      w := WriteEscaped(v[i], buffer, w, "\"" + done);
      done := done + Escaped(v[i]);
      i := i + 1;
    }
    assert v[..i] == v;
  }

  lemma EscapedLength(c: char)
    ensures |Escaped(c)| == 1 + if Control(c) then 5 else if c == '"' || c == '\\' || c == '/' then 1 else 0
  {
  }

  lemma {:induction false} ContentStep(v: string, i: nat)
    requires i < |v|
    ensures Content(v[..i + 1]) == Content(v[..i]) + Escaped(v[i])
    ensures |Content(v[..i + 1])| <= |Content(v)|
    decreases |v| - i
  {
    assert v[..i + 1][..i] == v[..i];
    if i + 1 < |v| {
      ContentStep(v, i + 1);
    } else {
      assert v[..i + 1] == v;
    }
  }

  method WriteEscaped(c: char, buffer: array<char>, pos: nat, ghost done: string) returns (w: nat)
    requires pos + |Escaped(c)| < buffer.Length && buffer[..pos] == done
    modifies buffer
    ensures w == pos + |Escaped(c)| && buffer[..w] == done + Escaped(c)
  {
    w := pos;
    if c as int <= 0x1F {
      buffer[w] := '\\';
      buffer[w + 1] := 'u';
      buffer[w + 2] := '0';
      buffer[w + 3] := '0';
      buffer[w + 4] := HEX[c as int / 16];
      buffer[w + 5] := HEX[c as int % 16];
      w := w + 6;
    } else if c == '"' {
      buffer[w] := '\\';
      buffer[w + 1] := '"';
      w := w + 2;
    } else if c == '\\' {
      buffer[w] := '\\';
      buffer[w + 1] := '\\';
      w := w + 2;
    } else if c == '/' {
      buffer[w] := '\\';
      buffer[w + 1] := '/';
      w := w + 2;
    } else {
      buffer[w] := c;
      w := w + 1;
    }
  }
}
