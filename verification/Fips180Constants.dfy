/** Where the constants of SHA-256 come from: section 4.2.2 of FIPS 180-2 takes the fractions of the cube roots of the first
    64 primes, and section 5.3.2 those of the square roots of the first eight. */
module Fips180Constants {
  import opened Fips180

  // ---- primes ----------------------------------------------------------------------------------------------------

  predicate Prime(n: nat)
  {
    n >= 2 && forall d :: 2 <= d < n ==> n % d != 0
  }

  // Trial division by the primes up to 17, which is enough below the square of 19.
  predicate Survives(n: nat)
  {
    n % 2 != 0 && n % 3 != 0 && n % 5 != 0 && n % 7 != 0 && n % 11 != 0 && n % 13 != 0 && n % 17 != 0
  }

  lemma TrialDivision(n: nat)
    requires 17 < n < 361
    ensures Prime(n) <==> Survives(n)
  {
    if !Survives(n) {
      assert n % 2 == 0 || n % 3 == 0 || n % 5 == 0 || n % 7 == 0 || n % 11 == 0 || n % 13 == 0 || n % 17 == 0;
    }
    if d :| 2 <= d < n && n % d == 0 {
      var e := SmallDivisor(n, d);
      SquareBelow361(e);
      DivisorBelow19(n, e);
    }
  }

  lemma SquareBelow361(e: nat)
    requires e * e < 361
    ensures e < 19
  {
    if e >= 19 {
      AtLeast19(e);
    }
  }

  lemma AtLeast19(e: nat)
    requires e >= 19
    ensures e * e >= 361
  {
    assert e * e == 19 * e + (e - 19) * e;
  }

  lemma DivisorBelow19(n: nat, e: nat)
    requires 2 <= e < 19 && n % e == 0
    ensures !Survives(n)
  {
    if e % 2 == 0 {
      Factor(n, 2, e / 2);
    } else if e % 3 == 0 {
      Factor(n, 3, e / 3);
    }
  }

  lemma Factor(n: nat, p: nat, k: nat)
    requires p > 0 && k > 0 && n % (p * k) == 0
    ensures n % p == 0
  {
    var q := n / (p * k);
    assert n == p * (k * q);
    MultipleOf(p, k * q);
  }

  // Of two factors one is at most the square root.
  lemma SmallDivisor(n: nat, d: nat) returns (e: nat)
    requires 2 <= d < n && n % d == 0
    ensures 2 <= e && e * e <= n && n % e == 0
  {
    var q := n / d;
    assert n == d * q;
    if d <= q {
      e := d;
      assert d * d <= d * q;
    } else {
      e := q;
      assert q >= 2 by {
        assert q == 0 ==> d * q == 0;
        assert q == 1 ==> d * q == d;
      }
      assert q * q <= d * q;
      MultipleOf(q, d);
    }
  }

  lemma MultipleOf(a: nat, q: nat)
    requires a > 0
    ensures a * q % a == 0
  {
    Remains(a, q, a * q);
  }

  lemma Remains(a: nat, q: nat, x: nat)
    requires a > 0 && x == a * q
    ensures x % a == 0
  {
    var k, r := x / a, x % a;
    assert x == a * k + r;
    AwayFromZero(a, q - k);
    assert a * (q - k) == r;
  }

  lemma AwayFromZero(a: nat, m: int)
    requires a > 0
    ensures m >= 1 ==> a * m >= a
    ensures m <= -1 ==> a * m <= 0 - a
  {
  }

  // ---- the first 64 ----------------------------------------------------------------------------------------------

  const P0: seq<nat> := [2, 3, 5, 7, 11, 13, 17, 19]
  const P1: seq<nat> := [23, 29, 31, 37, 41, 43, 47, 53]
  const P2: seq<nat> := [59, 61, 67, 71, 73, 79, 83, 89]
  const P3: seq<nat> := [97, 101, 103, 107, 109, 113, 127, 131]
  const P4: seq<nat> := [137, 139, 149, 151, 157, 163, 167, 173]
  const P5: seq<nat> := [179, 181, 191, 193, 197, 199, 211, 223]
  const P6: seq<nat> := [227, 229, 233, 239, 241, 251, 257, 263]
  const P7: seq<nat> := [269, 271, 277, 281, 283, 293, 307, 311]

  lemma SmallPrimes(n: nat)
    requires n <= 19
    ensures Prime(n) <==> n in P0
  {
    if n > 17 {
      TrialDivision(n);
    } else if n >= 4 {
      assert n % 2 == 0 || n % 3 == 0 || Prime(n);
    }
  }

  lemma Row1(n: nat)
    requires 20 <= n <= 53
    ensures Prime(n) <==> n in P1
  {
    TrialDivision(n);
    if n <= 35 {
      Sieve20(n);
    } else if n <= 51 {
      Sieve36(n);
    } else {
      Sieve52(n);
    }
  }

  lemma Sieve20(n: nat)
    requires 20 <= n <= 35
    ensures Survives(n) <==> n in [23, 29, 31]
  {
  }

  lemma Sieve36(n: nat)
    requires 36 <= n <= 51
    ensures Survives(n) <==> n in [37, 41, 43, 47]
  {
  }

  lemma Sieve52(n: nat)
    requires 52 <= n <= 53
    ensures Survives(n) <==> n in [53]
  {
  }

  lemma Row2(n: nat)
    requires 54 <= n <= 89
    ensures Prime(n) <==> n in P2
  {
    TrialDivision(n);
    if n <= 69 {
      Sieve54(n);
    } else if n <= 85 {
      Sieve70(n);
    } else {
      Sieve86(n);
    }
  }

  lemma Sieve54(n: nat)
    requires 54 <= n <= 69
    ensures Survives(n) <==> n in [59, 61, 67]
  {
  }

  lemma Sieve70(n: nat)
    requires 70 <= n <= 85
    ensures Survives(n) <==> n in [71, 73, 79, 83]
  {
  }

  lemma Sieve86(n: nat)
    requires 86 <= n <= 89
    ensures Survives(n) <==> n in [89]
  {
  }

  lemma Row3(n: nat)
    requires 90 <= n <= 131
    ensures Prime(n) <==> n in P3
  {
    TrialDivision(n);
    if n <= 105 {
      Sieve90(n);
    } else if n <= 121 {
      Sieve106(n);
    } else {
      Sieve122(n);
    }
  }

  lemma Sieve90(n: nat)
    requires 90 <= n <= 105
    ensures Survives(n) <==> n in [97, 101, 103]
  {
  }

  lemma Sieve106(n: nat)
    requires 106 <= n <= 121
    ensures Survives(n) <==> n in [107, 109, 113]
  {
  }

  lemma Sieve122(n: nat)
    requires 122 <= n <= 131
    ensures Survives(n) <==> n in [127, 131]
  {
  }

  lemma Row4(n: nat)
    requires 132 <= n <= 173
    ensures Prime(n) <==> n in P4
  {
    TrialDivision(n);
    if n <= 147 {
      Sieve132(n);
    } else if n <= 163 {
      Sieve148(n);
    } else {
      Sieve164(n);
    }
  }

  lemma Sieve132(n: nat)
    requires 132 <= n <= 147
    ensures Survives(n) <==> n in [137, 139]
  {
  }

  lemma Sieve148(n: nat)
    requires 148 <= n <= 163
    ensures Survives(n) <==> n in [149, 151, 157, 163]
  {
  }

  lemma Sieve164(n: nat)
    requires 164 <= n <= 173
    ensures Survives(n) <==> n in [167, 173]
  {
  }

  lemma Row5(n: nat)
    requires 174 <= n <= 223
    ensures Prime(n) <==> n in P5
  {
    TrialDivision(n);
    if n <= 189 {
      Sieve174(n);
    } else if n <= 205 {
      Sieve190(n);
    } else if n <= 221 {
      Sieve206(n);
    } else {
      Sieve222(n);
    }
  }

  lemma Sieve174(n: nat)
    requires 174 <= n <= 189
    ensures Survives(n) <==> n in [179, 181]
  {
  }

  lemma Sieve190(n: nat)
    requires 190 <= n <= 205
    ensures Survives(n) <==> n in [191, 193, 197, 199]
  {
  }

  lemma Sieve206(n: nat)
    requires 206 <= n <= 221
    ensures Survives(n) <==> n in [211]
  {
  }

  lemma Sieve222(n: nat)
    requires 222 <= n <= 223
    ensures Survives(n) <==> n in [223]
  {
  }

  lemma Row6(n: nat)
    requires 224 <= n <= 263
    ensures Prime(n) <==> n in P6
  {
    TrialDivision(n);
    if n <= 239 {
      Sieve224(n);
    } else if n <= 255 {
      Sieve240(n);
    } else {
      Sieve256(n);
    }
  }

  lemma Sieve224(n: nat)
    requires 224 <= n <= 239
    ensures Survives(n) <==> n in [227, 229, 233, 239]
  {
  }

  lemma Sieve240(n: nat)
    requires 240 <= n <= 255
    ensures Survives(n) <==> n in [241, 251]
  {
  }

  lemma Sieve256(n: nat)
    requires 256 <= n <= 263
    ensures Survives(n) <==> n in [257, 263]
  {
  }

  lemma Row7(n: nat)
    requires 264 <= n <= 311
    ensures Prime(n) <==> n in P7
  {
    TrialDivision(n);
    if n <= 279 {
      Sieve264(n);
    } else if n <= 295 {
      Sieve280(n);
    } else {
      Sieve296(n);
    }
  }

  lemma Sieve264(n: nat)
    requires 264 <= n <= 279
    ensures Survives(n) <==> n in [269, 271, 277]
  {
  }

  lemma Sieve280(n: nat)
    requires 280 <= n <= 295
    ensures Survives(n) <==> n in [281, 283, 293]
  {
  }

  lemma Sieve296(n: nat)
    requires 296 <= n <= 311
    ensures Survives(n) <==> n in [307, 311]
  {
  }

  predicate Listed(n: nat)
  {
    n in P0 || n in P1 || n in P2 || n in P3 || n in P4 || n in P5 || n in P6 || n in P7
  }

  // They are all the primes up to 311 ...
  lemma AllPrimes(n: nat)
    requires n <= 311
    ensures Prime(n) <==> Listed(n)
  {
    hide Prime;
    RowBounds(n);
    if n <= 19 {
      SmallPrimes(n);
    } else if n <= 53 {
      Row1(n);
    } else if n <= 89 {
      Row2(n);
    } else if n <= 131 {
      Row3(n);
    } else if n <= 173 {
      Row4(n);
    } else if n <= 223 {
      Row5(n);
    } else if n <= 263 {
      Row6(n);
    } else {
      Row7(n);
    }
  }

  function Pick<T>(a: T, b: T, c: T, d: T, e: T, f: T, g: T, h: T, k: nat): T
    requires k < 8
  {
    match k
    case 0 => a
    case 1 => b
    case 2 => c
    case 3 => d
    case 4 => e
    case 5 => f
    case 6 => g
    case 7 => h
  }

  // The element i of eight rows of eight behind one another.
  lemma RowAndColumn<T>(a: seq<T>, b: seq<T>, c: seq<T>, d: seq<T>, e: seq<T>, f: seq<T>, g: seq<T>, h: seq<T>, i: nat)
    requires |a| == |b| == |c| == |d| == |e| == |f| == |g| == |h| == 8 && i < 64
    ensures |a + b + c + d + e + f + g + h| == 64 && |Pick(a, b, c, d, e, f, g, h, i / 8)| == 8
    ensures (a + b + c + d + e + f + g + h)[i] == Pick(a, b, c, d, e, f, g, h, i / 8)[i % 8]
  {
  }

  lemma RowBounds(n: nat)
    ensures n in P0 ==> 2 <= n <= 19
    ensures n in P1 ==> 23 <= n <= 53
    ensures n in P2 ==> 59 <= n <= 89
    ensures n in P3 ==> 97 <= n <= 131
    ensures n in P4 ==> 137 <= n <= 173
    ensures n in P5 ==> 179 <= n <= 223
    ensures n in P6 ==> 227 <= n <= 263
    ensures n in P7 ==> 269 <= n <= 311
  {
  }

  function PrimeRow(k: nat): (r: seq<nat>)
    requires k < 8
    ensures |r| == 8
  {
    Pick(P0, P1, P2, P3, P4, P5, P6, P7, k)
  }

  // The prime number i, counted from 0.
  function PrimeNumber(i: nat): nat
    requires i < 64
  {
    PrimeRow(i / 8)[i % 8]
  }

  // ... in order ...
  lemma InOrder(i: nat)
    requires i < 63
    ensures PrimeNumber(i) < PrimeNumber(i + 1)
  {
    hide PrimeRow;
    if i % 8 < 7 {
      OrderInRow(i / 8, i % 8);
    } else {
      OrderOfRows(i / 8);
    }
  }

  lemma OrderInRow(k: nat, c: nat)
    requires k < 8 && c < 7
    ensures PrimeRow(k)[c] < PrimeRow(k)[c + 1]
  {
  }

  lemma OrderOfRows(k: nat)
    requires k < 7
    ensures PrimeRow(k)[7] < PrimeRow(k + 1)[0]
  {
  }

  lemma {:induction false} Increasing(i: nat, j: nat)
    requires i < j < 64
    ensures PrimeNumber(i) < PrimeNumber(j)
    decreases j - i
  {
    hide PrimeNumber;
    InOrder(i);
    if i + 1 < j {
      Increasing(i + 1, j);
    }
  }

  lemma Place(n: nat) returns (i: nat)
    requires Listed(n)
    ensures i < 64 && PrimeNumber(i) == n
  {
    var k: nat :| k < 8 && n in PrimeRow(k) by {
      SomeRow(n);
    }
    hide *;
    var c :| 0 <= c < 8 && PrimeRow(k)[c] == n;
    i := 8 * k + c;
    AtPlace(k, c);
  }

  lemma SomeRow(n: nat)
    requires Listed(n)
    ensures exists k: nat :: k < 8 && n in PrimeRow(k)
  {
    assert n in PrimeRow(0) || n in PrimeRow(1) || n in PrimeRow(2) || n in PrimeRow(3)
        || n in PrimeRow(4) || n in PrimeRow(5) || n in PrimeRow(6) || n in PrimeRow(7);
  }

  lemma AtPlace(k: nat, c: nat)
    requires k < 8 && c < 8
    ensures PrimeNumber(8 * k + c) == PrimeRow(k)[c]
  {
    hide PrimeRow;
    assert (8 * k + c) / 8 == k && (8 * k + c) % 8 == c;
  }

  lemma PlaceIsListed(i: nat)
    requires i < 64
    ensures PrimeNumber(i) <= 311 && Listed(PrimeNumber(i))
  {
    InRow(i / 8, i % 8);
  }

  lemma InRow(k: nat, c: nat)
    requires k < 8 && c < 8
    ensures PrimeRow(k)[c] <= 311 && Listed(PrimeRow(k)[c])
  {
  }

  // ... so that PrimeNumber(i) is the prime with exactly i smaller ones.
  lemma PrimeNumbers(i: nat)
    requires i < 64
    ensures Prime(PrimeNumber(i))
    ensures forall n: nat | n < PrimeNumber(i) && Prime(n) :: exists j: nat :: j < i && PrimeNumber(j) == n
    ensures forall j: nat | j < i :: PrimeNumber(j) < PrimeNumber(i)
  {
    hide Prime, PrimeNumber, Listed;
    PlaceIsListed(i);
    AllPrimes(PrimeNumber(i));
    forall j: nat | j < i
      ensures PrimeNumber(j) < PrimeNumber(i)
    {
      Increasing(j, i);
    }
    forall n: nat | n < PrimeNumber(i) && Prime(n)
      ensures exists j: nat :: j < i && PrimeNumber(j) == n
    {
      AllPrimes(n);
      var j := Place(n);
      if j > i {
        Increasing(i, j);
      }
    }
  }

  // ---- roots -----------------------------------------------------------------------------------------------------

  // f is the first 32 bits of the fraction of the cube root of p, whose integer part is r.
  predicate CubeRoot(p: nat, r: nat, f: word)
  {
    var n := r * 0x1_0000_0000 + f as nat;
    n * n * n <= p * 0x1_0000_0000_0000_0000_0000_0000 < (n + 1) * (n + 1) * (n + 1)
  }

  predicate SquareRoot(p: nat, r: nat, f: word)
  {
    var n := r * 0x1_0000_0000 + f as nat;
    n * n <= p * 0x1_0000_0000_0000_0000 < (n + 1) * (n + 1)
  }

  lemma CubeRoots0a()
    ensures CubeRoot(P0[0], 1, K0[0])
    ensures CubeRoot(P0[1], 1, K0[1])
    ensures CubeRoot(P0[2], 1, K0[2])
    ensures CubeRoot(P0[3], 1, K0[3])
  {
  }

  lemma CubeRoots0b()
    ensures CubeRoot(P0[4], 2, K0[4])
    ensures CubeRoot(P0[5], 2, K0[5])
    ensures CubeRoot(P0[6], 2, K0[6])
    ensures CubeRoot(P0[7], 2, K0[7])
  {
  }

  lemma Fractions0(i: nat)
    requires i < 8
    ensures exists r: nat :: CubeRoot(P0[i], r, K0[i])
  {
    hide CubeRoot;
    CubeRoots0a();
    CubeRoots0b();
  }

  lemma CubeRoots1a()
    ensures CubeRoot(P1[0], 2, K1[0])
    ensures CubeRoot(P1[1], 3, K1[1])
    ensures CubeRoot(P1[2], 3, K1[2])
    ensures CubeRoot(P1[3], 3, K1[3])
  {
  }

  lemma CubeRoots1b()
    ensures CubeRoot(P1[4], 3, K1[4])
    ensures CubeRoot(P1[5], 3, K1[5])
    ensures CubeRoot(P1[6], 3, K1[6])
    ensures CubeRoot(P1[7], 3, K1[7])
  {
  }

  lemma Fractions1(i: nat)
    requires i < 8
    ensures exists r: nat :: CubeRoot(P1[i], r, K1[i])
  {
    hide CubeRoot;
    CubeRoots1a();
    CubeRoots1b();
  }

  lemma CubeRoots2a()
    ensures CubeRoot(P2[0], 3, K2[0])
    ensures CubeRoot(P2[1], 3, K2[1])
    ensures CubeRoot(P2[2], 4, K2[2])
    ensures CubeRoot(P2[3], 4, K2[3])
  {
  }

  lemma CubeRoots2b()
    ensures CubeRoot(P2[4], 4, K2[4])
    ensures CubeRoot(P2[5], 4, K2[5])
    ensures CubeRoot(P2[6], 4, K2[6])
    ensures CubeRoot(P2[7], 4, K2[7])
  {
  }

  lemma Fractions2(i: nat)
    requires i < 8
    ensures exists r: nat :: CubeRoot(P2[i], r, K2[i])
  {
    hide CubeRoot;
    CubeRoots2a();
    CubeRoots2b();
  }

  lemma CubeRoots3a()
    ensures CubeRoot(P3[0], 4, K3[0])
    ensures CubeRoot(P3[1], 4, K3[1])
    ensures CubeRoot(P3[2], 4, K3[2])
    ensures CubeRoot(P3[3], 4, K3[3])
  {
  }

  lemma CubeRoots3b()
    ensures CubeRoot(P3[4], 4, K3[4])
    ensures CubeRoot(P3[5], 4, K3[5])
    ensures CubeRoot(P3[6], 5, K3[6])
    ensures CubeRoot(P3[7], 5, K3[7])
  {
  }

  lemma Fractions3(i: nat)
    requires i < 8
    ensures exists r: nat :: CubeRoot(P3[i], r, K3[i])
  {
    hide CubeRoot;
    CubeRoots3a();
    CubeRoots3b();
  }

  lemma CubeRoots4a()
    ensures CubeRoot(P4[0], 5, K4[0])
    ensures CubeRoot(P4[1], 5, K4[1])
    ensures CubeRoot(P4[2], 5, K4[2])
    ensures CubeRoot(P4[3], 5, K4[3])
  {
  }

  lemma CubeRoots4b()
    ensures CubeRoot(P4[4], 5, K4[4])
    ensures CubeRoot(P4[5], 5, K4[5])
    ensures CubeRoot(P4[6], 5, K4[6])
    ensures CubeRoot(P4[7], 5, K4[7])
  {
  }

  lemma Fractions4(i: nat)
    requires i < 8
    ensures exists r: nat :: CubeRoot(P4[i], r, K4[i])
  {
    hide CubeRoot;
    CubeRoots4a();
    CubeRoots4b();
  }

  lemma CubeRoots5a()
    ensures CubeRoot(P5[0], 5, K5[0])
    ensures CubeRoot(P5[1], 5, K5[1])
    ensures CubeRoot(P5[2], 5, K5[2])
    ensures CubeRoot(P5[3], 5, K5[3])
  {
  }

  lemma CubeRoots5b()
    ensures CubeRoot(P5[4], 5, K5[4])
    ensures CubeRoot(P5[5], 5, K5[5])
    ensures CubeRoot(P5[6], 5, K5[6])
    ensures CubeRoot(P5[7], 6, K5[7])
  {
  }

  lemma Fractions5(i: nat)
    requires i < 8
    ensures exists r: nat :: CubeRoot(P5[i], r, K5[i])
  {
    hide CubeRoot;
    CubeRoots5a();
    CubeRoots5b();
  }

  lemma CubeRoots6a()
    ensures CubeRoot(P6[0], 6, K6[0])
    ensures CubeRoot(P6[1], 6, K6[1])
    ensures CubeRoot(P6[2], 6, K6[2])
    ensures CubeRoot(P6[3], 6, K6[3])
  {
  }

  lemma CubeRoots6b()
    ensures CubeRoot(P6[4], 6, K6[4])
    ensures CubeRoot(P6[5], 6, K6[5])
    ensures CubeRoot(P6[6], 6, K6[6])
    ensures CubeRoot(P6[7], 6, K6[7])
  {
  }

  lemma Fractions6(i: nat)
    requires i < 8
    ensures exists r: nat :: CubeRoot(P6[i], r, K6[i])
  {
    hide CubeRoot;
    CubeRoots6a();
    CubeRoots6b();
  }

  lemma CubeRoots7a()
    ensures CubeRoot(P7[0], 6, K7[0])
    ensures CubeRoot(P7[1], 6, K7[1])
    ensures CubeRoot(P7[2], 6, K7[2])
    ensures CubeRoot(P7[3], 6, K7[3])
  {
  }

  lemma CubeRoots7b()
    ensures CubeRoot(P7[4], 6, K7[4])
    ensures CubeRoot(P7[5], 6, K7[5])
    ensures CubeRoot(P7[6], 6, K7[6])
    ensures CubeRoot(P7[7], 6, K7[7])
  {
  }

  lemma Fractions7(i: nat)
    requires i < 8
    ensures exists r: nat :: CubeRoot(P7[i], r, K7[i])
  {
    hide CubeRoot;
    CubeRoots7a();
    CubeRoots7b();
  }

  function ConstantRow(k: nat): (r: seq<word>)
    requires k < 8
    ensures |r| == 8
  {
    Pick(K0, K1, K2, K3, K4, K5, K6, K7, k)
  }

  lemma ConstantAt(i: nat)
    requires i < 64
    ensures |K| == 64 && K[i] == ConstantRow(i / 8)[i % 8]
  {
    RowAndColumn(K0, K1, K2, K3, K4, K5, K6, K7, i);
  }

  lemma FractionsInRow(k: nat, c: nat)
    requires k < 8 && c < 8
    ensures exists r: nat :: CubeRoot(PrimeRow(k)[c], r, ConstantRow(k)[c])
  {
    hide CubeRoot;
    match k {
      case 0 =>
        assert PrimeRow(0) == P0 && ConstantRow(0) == K0;
        Fractions0(c);
      case 1 =>
        assert PrimeRow(1) == P1 && ConstantRow(1) == K1;
        Fractions1(c);
      case 2 =>
        assert PrimeRow(2) == P2 && ConstantRow(2) == K2;
        Fractions2(c);
      case 3 =>
        assert PrimeRow(3) == P3 && ConstantRow(3) == K3;
        Fractions3(c);
      case 4 =>
        assert PrimeRow(4) == P4 && ConstantRow(4) == K4;
        Fractions4(c);
      case 5 =>
        assert PrimeRow(5) == P5 && ConstantRow(5) == K5;
        Fractions5(c);
      case 6 =>
        assert PrimeRow(6) == P6 && ConstantRow(6) == K6;
        Fractions6(c);
      case 7 =>
        assert PrimeRow(7) == P7 && ConstantRow(7) == K7;
        Fractions7(c);
    }
  }

  // Section 4.2.2: the constant of iteration i is the fraction of the cube root of the prime with i smaller ones.
  lemma RoundConstants(i: nat)
    requires i < 64
    ensures |K| == 64
    ensures exists r: nat :: CubeRoot(PrimeNumber(i), r, K[i])
  {
    hide CubeRoot, PrimeNumber, PrimeRow, ConstantRow;
    ConstantAt(i);
    FractionsInRow(i / 8, i % 8);
    PrimeNumberIs(i);
  }

  lemma PrimeNumberIs(i: nat)
    requires i < 64
    ensures PrimeNumber(i) == PrimeRow(i / 8)[i % 8]
  {
  }

  // Section 5.3.2: the initial hash value, likewise from the square roots of the first eight.
  lemma InitialHash()
    ensures exists r: nat :: SquareRoot(2, r, H0.a)
    ensures exists r: nat :: SquareRoot(3, r, H0.b)
    ensures exists r: nat :: SquareRoot(5, r, H0.c)
    ensures exists r: nat :: SquareRoot(7, r, H0.d)
    ensures exists r: nat :: SquareRoot(11, r, H0.e)
    ensures exists r: nat :: SquareRoot(13, r, H0.f)
    ensures exists r: nat :: SquareRoot(17, r, H0.g)
    ensures exists r: nat :: SquareRoot(19, r, H0.h)
  {
    hide SquareRoot;
    SquareRoots();
  }

  lemma SquareRoots()
    ensures SquareRoot(2, 1, H0.a) && SquareRoot(3, 1, H0.b) && SquareRoot(5, 2, H0.c) && SquareRoot(7, 2, H0.d)
    ensures SquareRoot(11, 3, H0.e) && SquareRoot(13, 3, H0.f) && SquareRoot(17, 4, H0.g) && SquareRoot(19, 4, H0.h)
  {
  }

}
