/** Base 64 as sections 4 and 5 of RFC 4648 define it: groups of 24 bits, as four digits of an alphabet of 64. */
module Rfc4648 {
  import opened Basics

  type byte = b: int | 0 <= b < 256
  type bytes = seq<byte>

  const UPPER := "ABCDEFGHIJKLMNOPQRSTUVWXYZ"
  const LOWER := "abcdefghijklmnopqrstuvwxyz"
  const DIGITS := "0123456789"

  // Section 5 differs from section 4 in the last two digits of its alphabet.
  function Alphabet(url: bool): (a: string)
    ensures |a| == 64
  {
    UPPER + LOWER + DIGITS + if url then "-_" else "+/"
  }

  lemma AlphabetInRanges(d: nat, url: bool)
    requires d < 64
    ensures Alphabet(url)[d] == if d < 26 then 'A' + d as char
                                else if d < 52 then 'a' + (d - 26) as char
                                else if d < 62 then '0' + (d - 52) as char
                                else if d == 62 then (if url then '-' else '+')
                                else if url then '_' else '/'
  {
    if d < 26 {
      assert Alphabet(url)[d] == UPPER[d];
    } else if d < 52 {
      assert Alphabet(url)[d] == LOWER[d - 26];
    } else if d < 62 {
      assert Alphabet(url)[d] == DIGITS[d - 52];
    }
  }

  function Group(b0: byte, b1: byte, b2: byte): (n: nat)
    ensures n < 0x100_0000
  {
    b0 * 0x1_0000 + b1 * 0x100 + b2
  }

  // Digit k of a group, the most significant first.
  function Sextet(n: nat, k: nat): (d: nat)
    requires k < 4
    ensures d < 64
  {
    (if k == 0 then n / 0x4_0000 else if k == 1 then n / 0x1000 else if k == 2 then n / 0x40 else n) % 64
  }

  function DigitOf(n: nat, k: nat, url: bool): char
    requires k < 4
  {
    Alphabet(url)[Sextet(n, k)]
  }

  function Encode(b: bytes, url: bool): string
  {
    if b == [] then ""
    else if |b| == 1 then
      var n := Group(b[0], 0, 0);
      [DigitOf(n, 0, url), DigitOf(n, 1, url), '=', '=']
    else if |b| == 2 then
      var n := Group(b[0], b[1], 0);
      [DigitOf(n, 0, url), DigitOf(n, 1, url), DigitOf(n, 2, url), '=']
    else
      Quad(b[0], b[1], b[2], url) + Encode(b[3..], url)
  }

  function Quad(b0: byte, b1: byte, b2: byte, url: bool): (s: string)
    ensures |s| == 4
  {
    var n := Group(b0, b1, b2);
    [DigitOf(n, 0, url), DigitOf(n, 1, url), DigitOf(n, 2, url), DigitOf(n, 3, url)]
  }

  // Groups do not depend on one another.
  lemma {:induction false} EncodeInGroups(groups: nat, a: bytes, b: bytes, url: bool)
    requires |a| == 3 * groups
    ensures Encode(a + b, url) == Encode(a, url) + Encode(b, url)
    decreases groups
  {
    hide Quad, DigitOf;
    if a == [] {
      assert a + b == b;
    } else {
      EncodeInGroups(groups - 1, a[3..], b, url);
      assert (a + b)[3..] == a[3..] + b;
      Regrouped(Quad(a[0], a[1], a[2], url), Encode(a[3..], url), Encode(b, url));
    }
  }

  lemma {:induction false} EncodeLength(b: bytes, url: bool)
    ensures |Encode(b, url)| == (|b| + 2) / 3 * 4
  {
    hide Quad, DigitOf;
    if |b| >= 3 {
      EncodeLength(b[3..], url);
    }
  }

  lemma Parts(n: nat, d: nat, q: nat, r: nat)
    requires d == 0x40 || d == 0x1000 || d == 0x4_0000
    requires n == d * q + r && r < d
    ensures n / d == q && n % d == r
  {
  }

  // The shifts and masks by which programs take a group apart.
  lemma SextetsByShifts(b0: byte, b1: byte, b2: byte)
    ensures Sextet(Group(b0, b1, b2), 0) == b0 / 4
    ensures Sextet(Group(b0, b1, b2), 1) == b0 % 4 * 16 + b1 / 16
    ensures Sextet(Group(b0, b1, b2), 2) == b1 % 16 * 4 + b2 / 64
    ensures Sextet(Group(b0, b1, b2), 3) == b2 % 64
  {
    SextetsOfDigits(b0 / 4, b0 % 4, b1 / 16, b1 % 16, b2 / 64, b2 % 64);
    assert b0 == 4 * (b0 / 4) + b0 % 4 && b1 == 16 * (b1 / 16) + b1 % 16 && b2 == 64 * (b2 / 64) + b2 % 64;
    hide Group, Sextet;
  }

  lemma SextetsOfDigits(a: nat, b: nat, c: nat, d: nat, e: nat, f: nat)
    requires a < 64 && b < 4 && c < 16 && d < 16 && e < 4 && f < 64
    ensures var n := Group(4 * a + b, 16 * c + d, 64 * e + f);
            && Sextet(n, 0) == a && Sextet(n, 1) == 16 * b + c && Sextet(n, 2) == 4 * d + e && Sextet(n, 3) == f
  {
    var n := Group(4 * a + b, 16 * c + d, 64 * e + f);
    Parts(n, 0x4_0000, a, 0x1000 * (16 * b + c) + 0x40 * (4 * d + e) + f);
    Parts(n, 0x1000, 64 * a + (16 * b + c), 0x40 * (4 * d + e) + f);
    Parts(n, 0x40, 64 * (64 * a + (16 * b + c)) + (4 * d + e), f);
    Parts(64 * a + (16 * b + c), 0x40, a, 16 * b + c);
    Parts(64 * (64 * a + (16 * b + c)) + (4 * d + e), 0x40, 64 * a + (16 * b + c), 4 * d + e);
  }

  // And by which they put it together again.
  lemma BytesByShifts(b0: byte, b1: byte, b2: byte)
    ensures b0 / 4 * 4 + (b0 % 4 * 16 + b1 / 16) / 16 % 4 == b0
    ensures (b0 % 4 * 16 + b1 / 16) % 16 * 16 + (b1 % 16 * 4 + b2 / 64) / 4 % 16 == b1
    ensures (b1 % 16 * 4 + b2 / 64) % 4 * 64 + b2 % 64 == b2
  {
    assert (b0 % 4 * 16 + b1 / 16) / 16 == b0 % 4 && (b0 % 4 * 16 + b1 / 16) % 16 == b1 / 16;
    assert (b1 % 16 * 4 + b2 / 64) / 4 == b1 % 16 && (b1 % 16 * 4 + b2 / 64) % 4 == b2 / 64;
  }
}
