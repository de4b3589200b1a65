/** SHA-256 as the standard writes it: FIPS 180-2, sections 4.1.2, 4.2.2, 5.1.1, 5.2.1, 5.3.2 and 6.2.2.
    Nothing in this module is taken from the firmware; it is what the firmware is compared with. */
module Fips180 {
  type byte = bv8
  type word = bv32

  // Section 4.2.2, in rows of eight.
  const K0: seq<word> := [0x428a2f98, 0x71374491, 0xb5c0fbcf, 0xe9b5dba5,
                        0x3956c25b, 0x59f111f1, 0x923f82a4, 0xab1c5ed5]
  const K1: seq<word> := [0xd807aa98, 0x12835b01, 0x243185be, 0x550c7dc3,
                        0x72be5d74, 0x80deb1fe, 0x9bdc06a7, 0xc19bf174]
  const K2: seq<word> := [0xe49b69c1, 0xefbe4786, 0x0fc19dc6, 0x240ca1cc,
                        0x2de92c6f, 0x4a7484aa, 0x5cb0a9dc, 0x76f988da]
  const K3: seq<word> := [0x983e5152, 0xa831c66d, 0xb00327c8, 0xbf597fc7,
                        0xc6e00bf3, 0xd5a79147, 0x06ca6351, 0x14292967]
  const K4: seq<word> := [0x27b70a85, 0x2e1b2138, 0x4d2c6dfc, 0x53380d13,
                        0x650a7354, 0x766a0abb, 0x81c2c92e, 0x92722c85]
  const K5: seq<word> := [0xa2bfe8a1, 0xa81a664b, 0xc24b8b70, 0xc76c51a3,
                        0xd192e819, 0xd6990624, 0xf40e3585, 0x106aa070]
  const K6: seq<word> := [0x19a4c116, 0x1e376c08, 0x2748774c, 0x34b0bcb5,
                        0x391c0cb3, 0x4ed8aa4a, 0x5b9cca4f, 0x682e6ff3]
  const K7: seq<word> := [0x748f82ee, 0x78a5636f, 0x84c87814, 0x8cc70208,
                        0x90befffa, 0xa4506ceb, 0xbef9a3f7, 0xc67178f2]

  const K: seq<word> := K0 + K1 + K2 + K3 + K4 + K5 + K6 + K7

  const H0: Hash := Vars(0x6a09e667, 0xbb67ae85, 0x3c6ef372, 0xa54ff53a,
                         0x510e527f, 0x9b05688c, 0x1f83d9ab, 0x5be0cd19)

  /** The eight working variables, and also the eight words of a hash value. */
  datatype Hash = Vars(a: word, b: word, c: word, d: word, e: word, f: word, g: word, h: word)

  // The circular right shift of section 3.2: n turns by one place.
  function RotR(x: word, n: bv8): word
    decreases n
  {
    if n == 0 then x else RotR((x >> 1) | (x << 31), n - 1)
  }

  function Xor3(x: word, y: word, z: word): word { x ^ y ^ z }

  // Section 4.1.2.
  function Ch(x: word, y: word, z: word): word { (x & y) ^ (!x & z) }
  function Maj(x: word, y: word, z: word): word { (x & y) ^ (x & z) ^ (y & z) }
  function BigSigma0(x: word): word { Xor3(RotR(x, 2), RotR(x, 13), RotR(x, 22)) }
  function BigSigma1(x: word): word { Xor3(RotR(x, 6), RotR(x, 11), RotR(x, 25)) }
  function SmallSigma0(x: word): word { Xor3(RotR(x, 7), RotR(x, 18), x >> 3) }
  function SmallSigma1(x: word): word { Xor3(RotR(x, 17), RotR(x, 19), x >> 10) }

  // Section 6.2.2, step 1: the message schedule of one block.
  function W(block: seq<word>, t: nat): word
    requires |block| == 16
  {
    if t < 16 then block[t]
    else Sum4(SmallSigma1(W(block, t - 2)), W(block, t - 7), SmallSigma0(W(block, t - 15)), W(block, t - 16))
  }

  function Sum2(x: word, y: word): word { x + y }
  function Sum4(x: word, y: word, z: word, u: word): word { x + y + z + u }
  function Sum5(x: word, y: word, z: word, u: word, v: word): word { x + y + z + u + v }

  // Section 6.2.2, step 3: one iteration, with its round constant and schedule word.
  function Round(v: Hash, k: word, w: word): Hash
  {
    var t1 := Sum5(v.h, BigSigma1(v.e), Ch(v.e, v.f, v.g), k, w);
    var t2 := Sum2(BigSigma0(v.a), Maj(v.a, v.b, v.c));
    Vars(Sum2(t1, t2), v.a, v.b, v.c, Sum2(v.d, t1), v.e, v.f, v.g)
  }

  // The working variables after the first t iterations.
  function Rounds(v: Hash, block: seq<word>, t: nat): Hash
    requires |block| == 16 && t <= |K|
  {
    if t == 0 then v
    else Round(Rounds(v, block, t - 1), K[t - 1], W(block, t - 1))
  }

  // Section 6.2.2, step 4.
  function AddHash(x: Hash, y: Hash): Hash
  {
    Vars(Sum2(x.a, y.a), Sum2(x.b, y.b), Sum2(x.c, y.c), Sum2(x.d, y.d),
         Sum2(x.e, y.e), Sum2(x.f, y.f), Sum2(x.g, y.g), Sum2(x.h, y.h))
  }

  function Compress(v: Hash, block: seq<word>): Hash
    requires |block| == 16
  {
    AddHash(v, Rounds(v, block, |K|))
  }

  // Section 5.2.1: a block is sixteen big-endian words.
  function BigEndianWord(b: seq<byte>): word
    requires |b| == 4
  {
    (b[0] as word << 24) | (b[1] as word << 16) | (b[2] as word << 8) | b[3] as word
  }

  function Words(block: seq<byte>): (w: seq<word>)
    requires |block| == 64
    ensures |w| == 16
  {
    seq(16, i requires 0 <= i < 16 => BigEndianWord(block[4 * i..4 * i + 4]))
  }

  // Section 6.2.2 over a whole padded message, one block after another.
  function Fold(v: Hash, m: seq<byte>): Hash
    requires |m| % 64 == 0
  {
    if m == [] then v
    else Compress(Fold(v, m[..|m| - 64]), Words(m[|m| - 64..]))
  }

  function Zeros(n: nat): (z: seq<byte>)
    ensures |z| == n
  {
    seq(n, _ => 0)
  }

  function ByteOf(n: nat): (b: byte)
    requires n < 256
    ensures b as nat == n
  {
    if n == 0 then 0 else ByteOf(n - 1) + 1
  }

  function Low8(v: nat): byte
  {
    ByteOf(v % 256)
  }

  /** A 64-bit number, most significant byte first. */
  function BigEndian64(v: nat): (s: seq<byte>)
    ensures |s| == 8
  {
    [Low8(v / 0x100_0000_0000_0000), Low8(v / 0x1_0000_0000_0000), Low8(v / 0x100_0000_0000), Low8(v / 0x1_0000_0000),
     Low8(v / 0x100_0000), Low8(v / 0x1_0000), Low8(v / 0x100), Low8(v)]
  }

  // Section 5.1.1: the number k of zero bytes is the least one that fills the last block up to its length field.
  function ZeroCount(length: nat): (k: nat)
    ensures k < 64 && (length + 1 + k) % 64 == 56
  {
    (119 - length % 64) % 64
  }

  lemma PaddedLength(length: nat)
    ensures (length + 1 + ZeroCount(length) + 8) % 64 == 0
  {
  }

  function Pad(m: seq<byte>): (p: seq<byte>)
    ensures |p| == |m| + 1 + ZeroCount(|m|) + 8
    ensures |p| % 64 == 0
  {
    PaddedLength(|m|);
    m + [0x80] + Zeros(ZeroCount(|m|)) + BigEndian64(8 * |m|)
  }

  function WordBytes(w: word): seq<byte>
  {
    [((w >> 24) & 0xff) as byte, ((w >> 16) & 0xff) as byte, ((w >> 8) & 0xff) as byte, (w & 0xff) as byte]
  }

  function HashBytes(v: Hash): (s: seq<byte>)
    ensures |s| == 32
  {
    WordBytes(v.a) + WordBytes(v.b) + WordBytes(v.c) + WordBytes(v.d)
    + WordBytes(v.e) + WordBytes(v.f) + WordBytes(v.g) + WordBytes(v.h)
  }

  function Sha256(m: seq<byte>): (digest: seq<byte>)
    ensures |digest| == 32
  {
    HashBytes(Fold(H0, Pad(m)))
  }
}

/** HMAC as section 2 of RFC 2104 defines it, over SHA-256 with its 64-byte blocks. */
module Rfc2104 {
  import opened Fips180

  function KeyBlock(key: seq<byte>): (k: seq<byte>)
    ensures |k| == 64
  {
    if |key| > 64 then Sha256(key) + Zeros(32) else key + Zeros(64 - |key|)
  }

  function Xored(k: seq<byte>, pad: byte): (x: seq<byte>)
    ensures |x| == |k|
  {
    seq(|k|, i requires 0 <= i < |k| => k[i] ^ pad)
  }

  function Hmac(key: seq<byte>, text: seq<byte>): seq<byte>
  {
    Sha256(Xored(KeyBlock(key), 0x5c) + Sha256(Xored(KeyBlock(key), 0x36) + text))
  }
}
