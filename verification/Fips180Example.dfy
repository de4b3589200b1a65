/** The worked example of section B.1 of FIPS 180-2, step by step: the message "abc" and its hash. */
module Fips180Example {
  import opened Fips180
  import Fips180Constants
  import Sha256Streaming

  // ---- one step on numbers ---------------------------------------------------------------------------------------

  // A circular shift as two shifts.
  function Turned(x: word, n: bv8): word
    requires n <= 32
  {
    (x >> n) | (x << (32 - n))
  }

  lemma RotRIsTurned(x: word, n: bv8)
    requires n <= 32
    ensures RotR(x, n) == Turned(x, n)
  {
    Sha256Streaming.TwoShiftsRotate(x, n);
  }

  lemma BigSigmas(x: word)
    ensures BigSigma0(x) == Turned(x, 2) ^ Turned(x, 13) ^ Turned(x, 22)
    ensures BigSigma1(x) == Turned(x, 6) ^ Turned(x, 11) ^ Turned(x, 25)
  {
    hide RotR, Turned;
    RotRIsTurned(x, 2);
    RotRIsTurned(x, 13);
    RotRIsTurned(x, 22);
    RotRIsTurned(x, 6);
    RotRIsTurned(x, 11);
    RotRIsTurned(x, 25);
  }

  lemma SmallSigmas(x: word)
    ensures SmallSigma0(x) == Turned(x, 7) ^ Turned(x, 18) ^ (x >> 3)
    ensures SmallSigma1(x) == Turned(x, 17) ^ Turned(x, 19) ^ (x >> 10)
  {
    hide RotR, Turned;
    RotRIsTurned(x, 7);
    RotRIsTurned(x, 18);
    RotRIsTurned(x, 17);
    RotRIsTurned(x, 19);
  }

  // Word t of the schedule of a block is w.
  predicate WordIs(block: seq<word>, t: nat, w: word)
  {
    |block| == 16 && W(block, t) == w
  }

  // Word t of the schedule, from the four words it is made of.
  lemma WordStep(block: seq<word>, t: nat, a: word, b: word, c: word, d: word, w: word)
    requires 16 <= t
    requires WordIs(block, t - 2, a) && WordIs(block, t - 7, b) && WordIs(block, t - 15, c) && WordIs(block, t - 16, d)
    requires w == Sum4(Turned(a, 17) ^ Turned(a, 19) ^ (a >> 10), b, Turned(c, 7) ^ Turned(c, 18) ^ (c >> 3), d)
    ensures WordIs(block, t, w)
  {
    hide SmallSigma0, SmallSigma1, Turned, Sum4;
    SmallSigmas(a);
    SmallSigmas(c);
  }

  // The working variables of a block after t iterations, from the initial hash value.
  predicate StateIs(block: seq<word>, t: nat, v: Hash)
  {
    |block| == 16 && t <= |K| && Rounds(H0, block, t) == v
  }

  // Iteration t, with its two sums.
  lemma RoundStep(block: seq<word>, t: nat, v: Hash, k: word, w: word, t1: word, t2: word)
    requires t < |K| && StateIs(block, t, v) && K[t] == k && WordIs(block, t, w)
    requires t1 == Sum5(v.h, Turned(v.e, 6) ^ Turned(v.e, 11) ^ Turned(v.e, 25), Ch(v.e, v.f, v.g), k, w)
    requires t2 == Sum2(Turned(v.a, 2) ^ Turned(v.a, 13) ^ Turned(v.a, 22), Maj(v.a, v.b, v.c))
    ensures StateIs(block, t + 1, Vars(Sum2(t1, t2), v.a, v.b, v.c, Sum2(v.d, t1), v.e, v.f, v.g))
  {
    hide BigSigma0, BigSigma1, W, Turned, Sum5, Sum2, Ch, Maj;
    BigSigmas(v.e);
    BigSigmas(v.a);
  }

  // ---- the example -----------------------------------------------------------------------------------------------

  // The only block of the padded message, as sixteen words.
  predicate IsAbc(block: seq<word>)
  {
    |block| == 16 && block[0] == 0x61626380 && block[15] == 0x18 && forall k | 1 <= k < 15 :: block[k] == 0
  }

  lemma Schedule0(block: seq<word>)
    requires IsAbc(block)
    ensures WordIs(block, 0, 0x61626380)
    ensures WordIs(block, 1, 0x00000000)
    ensures WordIs(block, 2, 0x00000000)
    ensures WordIs(block, 3, 0x00000000)
    ensures WordIs(block, 4, 0x00000000)
    ensures WordIs(block, 5, 0x00000000)
    ensures WordIs(block, 6, 0x00000000)
    ensures WordIs(block, 7, 0x00000000)
  {
  }

  lemma Schedule1(block: seq<word>)
    requires IsAbc(block)
    ensures WordIs(block, 8, 0x00000000)
    ensures WordIs(block, 9, 0x00000000)
    ensures WordIs(block, 10, 0x00000000)
    ensures WordIs(block, 11, 0x00000000)
    ensures WordIs(block, 12, 0x00000000)
    ensures WordIs(block, 13, 0x00000000)
    ensures WordIs(block, 14, 0x00000000)
    ensures WordIs(block, 15, 0x00000018)
  {
  }

  lemma Schedule2(block: seq<word>)
    requires IsAbc(block)
    ensures WordIs(block, 16, 0x61626380)
    ensures WordIs(block, 17, 0x000f0000)
    ensures WordIs(block, 18, 0x7da86405)
    ensures WordIs(block, 19, 0x600003c6)
    ensures WordIs(block, 20, 0x3e9d7b78)
    ensures WordIs(block, 21, 0x0183fc00)
    ensures WordIs(block, 22, 0x12dcbfdb)
    ensures WordIs(block, 23, 0xe2e2c38e)
  {
    hide WordIs;
    Schedule0(block);
    Schedule1(block);
    WordStep(block, 16, 0x00000000, 0x00000000, 0x00000000, 0x61626380, 0x61626380);
    WordStep(block, 17, 0x00000018, 0x00000000, 0x00000000, 0x00000000, 0x000f0000);
    WordStep(block, 18, 0x61626380, 0x00000000, 0x00000000, 0x00000000, 0x7da86405);
    WordStep(block, 19, 0x000f0000, 0x00000000, 0x00000000, 0x00000000, 0x600003c6);
    WordStep(block, 20, 0x7da86405, 0x00000000, 0x00000000, 0x00000000, 0x3e9d7b78);
    WordStep(block, 21, 0x600003c6, 0x00000000, 0x00000000, 0x00000000, 0x0183fc00);
    WordStep(block, 22, 0x3e9d7b78, 0x00000018, 0x00000000, 0x00000000, 0x12dcbfdb);
    WordStep(block, 23, 0x0183fc00, 0x61626380, 0x00000000, 0x00000000, 0xe2e2c38e);
  }

  lemma Schedule3(block: seq<word>)
    requires IsAbc(block)
    ensures WordIs(block, 24, 0xc8215c1a)
    ensures WordIs(block, 25, 0xb73679a2)
    ensures WordIs(block, 26, 0xe5bc3909)
    ensures WordIs(block, 27, 0x32663c5b)
    ensures WordIs(block, 28, 0x9d209d67)
    ensures WordIs(block, 29, 0xec8726cb)
    ensures WordIs(block, 30, 0x702138a4)
    ensures WordIs(block, 31, 0xd3b7973b)
  {
    hide WordIs;
    Schedule1(block);
    Schedule2(block);
    WordStep(block, 24, 0x12dcbfdb, 0x000f0000, 0x00000000, 0x00000000, 0xc8215c1a);
    WordStep(block, 25, 0xe2e2c38e, 0x7da86405, 0x00000000, 0x00000000, 0xb73679a2);
    WordStep(block, 26, 0xc8215c1a, 0x600003c6, 0x00000000, 0x00000000, 0xe5bc3909);
    WordStep(block, 27, 0xb73679a2, 0x3e9d7b78, 0x00000000, 0x00000000, 0x32663c5b);
    WordStep(block, 28, 0xe5bc3909, 0x0183fc00, 0x00000000, 0x00000000, 0x9d209d67);
    WordStep(block, 29, 0x32663c5b, 0x12dcbfdb, 0x00000000, 0x00000000, 0xec8726cb);
    WordStep(block, 30, 0x9d209d67, 0xe2e2c38e, 0x00000018, 0x00000000, 0x702138a4);
    WordStep(block, 31, 0xec8726cb, 0xc8215c1a, 0x61626380, 0x00000018, 0xd3b7973b);
  }

  lemma Schedule4(block: seq<word>)
    requires IsAbc(block)
    ensures WordIs(block, 32, 0x93f5997f)
    ensures WordIs(block, 33, 0x3b68ba73)
    ensures WordIs(block, 34, 0xaff4ffc1)
    ensures WordIs(block, 35, 0xf10a5c62)
    ensures WordIs(block, 36, 0x0a8b3996)
    ensures WordIs(block, 37, 0x72af830a)
    ensures WordIs(block, 38, 0x9409e33e)
    ensures WordIs(block, 39, 0x24641522)
  {
    hide WordIs;
    Schedule2(block);
    Schedule3(block);
    WordStep(block, 32, 0x702138a4, 0xb73679a2, 0x000f0000, 0x61626380, 0x93f5997f);
    WordStep(block, 33, 0xd3b7973b, 0xe5bc3909, 0x7da86405, 0x000f0000, 0x3b68ba73);
    WordStep(block, 34, 0x93f5997f, 0x32663c5b, 0x600003c6, 0x7da86405, 0xaff4ffc1);
    WordStep(block, 35, 0x3b68ba73, 0x9d209d67, 0x3e9d7b78, 0x600003c6, 0xf10a5c62);
    WordStep(block, 36, 0xaff4ffc1, 0xec8726cb, 0x0183fc00, 0x3e9d7b78, 0x0a8b3996);
    WordStep(block, 37, 0xf10a5c62, 0x702138a4, 0x12dcbfdb, 0x0183fc00, 0x72af830a);
    WordStep(block, 38, 0x0a8b3996, 0xd3b7973b, 0xe2e2c38e, 0x12dcbfdb, 0x9409e33e);
    WordStep(block, 39, 0x72af830a, 0x93f5997f, 0xc8215c1a, 0xe2e2c38e, 0x24641522);
  }

  lemma Schedule5(block: seq<word>)
    requires IsAbc(block)
    ensures WordIs(block, 40, 0x9f47bf94)
    ensures WordIs(block, 41, 0xf0a64f5a)
    ensures WordIs(block, 42, 0x3e246a79)
    ensures WordIs(block, 43, 0x27333ba3)
    ensures WordIs(block, 44, 0x0c4763f2)
    ensures WordIs(block, 45, 0x840abf27)
    ensures WordIs(block, 46, 0x7a290d5d)
    ensures WordIs(block, 47, 0x065c43da)
  {
    hide WordIs;
    Schedule3(block);
    Schedule4(block);
    WordStep(block, 40, 0x9409e33e, 0x3b68ba73, 0xb73679a2, 0xc8215c1a, 0x9f47bf94);
    WordStep(block, 41, 0x24641522, 0xaff4ffc1, 0xe5bc3909, 0xb73679a2, 0xf0a64f5a);
    WordStep(block, 42, 0x9f47bf94, 0xf10a5c62, 0x32663c5b, 0xe5bc3909, 0x3e246a79);
    WordStep(block, 43, 0xf0a64f5a, 0x0a8b3996, 0x9d209d67, 0x32663c5b, 0x27333ba3);
    WordStep(block, 44, 0x3e246a79, 0x72af830a, 0xec8726cb, 0x9d209d67, 0x0c4763f2);
    WordStep(block, 45, 0x27333ba3, 0x9409e33e, 0x702138a4, 0xec8726cb, 0x840abf27);
    WordStep(block, 46, 0x0c4763f2, 0x24641522, 0xd3b7973b, 0x702138a4, 0x7a290d5d);
    WordStep(block, 47, 0x840abf27, 0x9f47bf94, 0x93f5997f, 0xd3b7973b, 0x065c43da);
  }

  lemma Schedule6(block: seq<word>)
    requires IsAbc(block)
    ensures WordIs(block, 48, 0xfb3e89cb)
    ensures WordIs(block, 49, 0xcc7617db)
    ensures WordIs(block, 50, 0xb9e66c34)
    ensures WordIs(block, 51, 0xa9993667)
    ensures WordIs(block, 52, 0x84badedd)
    ensures WordIs(block, 53, 0xc21462bc)
    ensures WordIs(block, 54, 0x1487472c)
    ensures WordIs(block, 55, 0xb20f7a99)
  {
    hide WordIs;
    Schedule4(block);
    Schedule5(block);
    WordStep(block, 48, 0x7a290d5d, 0xf0a64f5a, 0x3b68ba73, 0x93f5997f, 0xfb3e89cb);
    WordStep(block, 49, 0x065c43da, 0x3e246a79, 0xaff4ffc1, 0x3b68ba73, 0xcc7617db);
    WordStep(block, 50, 0xfb3e89cb, 0x27333ba3, 0xf10a5c62, 0xaff4ffc1, 0xb9e66c34);
    WordStep(block, 51, 0xcc7617db, 0x0c4763f2, 0x0a8b3996, 0xf10a5c62, 0xa9993667);
    WordStep(block, 52, 0xb9e66c34, 0x840abf27, 0x72af830a, 0x0a8b3996, 0x84badedd);
    WordStep(block, 53, 0xa9993667, 0x7a290d5d, 0x9409e33e, 0x72af830a, 0xc21462bc);
    WordStep(block, 54, 0x84badedd, 0x065c43da, 0x24641522, 0x9409e33e, 0x1487472c);
    WordStep(block, 55, 0xc21462bc, 0xfb3e89cb, 0x9f47bf94, 0x24641522, 0xb20f7a99);
  }

  lemma Schedule7(block: seq<word>)
    requires IsAbc(block)
    ensures WordIs(block, 56, 0xef57b9cd)
    ensures WordIs(block, 57, 0xebe6b238)
    ensures WordIs(block, 58, 0x9fe3095e)
    ensures WordIs(block, 59, 0x78bc8d4b)
    ensures WordIs(block, 60, 0xa43fcf15)
    ensures WordIs(block, 61, 0x668b2ff8)
    ensures WordIs(block, 62, 0xeeaba2cc)
    ensures WordIs(block, 63, 0x12b1edeb)
  {
    hide WordIs;
    Schedule5(block);
    Schedule6(block);
    WordStep(block, 56, 0x1487472c, 0xcc7617db, 0xf0a64f5a, 0x9f47bf94, 0xef57b9cd);
    WordStep(block, 57, 0xb20f7a99, 0xb9e66c34, 0x3e246a79, 0xf0a64f5a, 0xebe6b238);
    WordStep(block, 58, 0xef57b9cd, 0xa9993667, 0x27333ba3, 0x3e246a79, 0x9fe3095e);
    WordStep(block, 59, 0xebe6b238, 0x84badedd, 0x0c4763f2, 0x27333ba3, 0x78bc8d4b);
    WordStep(block, 60, 0x9fe3095e, 0xc21462bc, 0x840abf27, 0x0c4763f2, 0xa43fcf15);
    WordStep(block, 61, 0x78bc8d4b, 0x1487472c, 0x7a290d5d, 0x840abf27, 0x668b2ff8);
    WordStep(block, 62, 0xa43fcf15, 0xb20f7a99, 0x065c43da, 0x7a290d5d, 0xeeaba2cc);
    WordStep(block, 63, 0x668b2ff8, 0xef57b9cd, 0xfb3e89cb, 0x065c43da, 0x12b1edeb);
  }

  lemma Rounds0(block: seq<word>)
    requires IsAbc(block)
    ensures |K| == 64
    ensures StateIs(block, 8,
                    Vars(0x85a07b5f, 0xe5030380, 0x2b4209f5, 0x04409a6a, 0x0c657a79, 0x9b27a401, 0x714260ad, 0x43ada245))
  {
    hide WordIs, StateIs;
    RoundsStart(block);
    Constants0();
    Schedule0(block);
    RoundStep(block, 0, Vars(0x6a09e667, 0xbb67ae85, 0x3c6ef372, 0xa54ff53a, 0x510e527f, 0x9b05688c, 0x1f83d9ab, 0x5be0cd19),
              0x428a2f98, 0x61626380, 0x54da50e8, 0x08909ae5);
    RoundStep(block, 1, Vars(0x5d6aebcd, 0x6a09e667, 0xbb67ae85, 0x3c6ef372, 0xfa2a4622, 0x510e527f, 0x9b05688c, 0x1f83d9ab),
              0x71374491, 0x00000000, 0x3c5f8617, 0x1e0b5396);
    RoundStep(block, 2, Vars(0x5a6ad9ad, 0x5d6aebcd, 0x6a09e667, 0xbb67ae85, 0x78ce7989, 0xfa2a4622, 0x510e527f, 0x9b05688c),
              0xb5c0fbcf, 0x00000000, 0x3dc18b66, 0x8b01bc41);
    RoundStep(block, 3, Vars(0xc8c347a7, 0x5a6ad9ad, 0x5d6aebcd, 0x6a09e667, 0xf92939eb, 0x78ce7989, 0xfa2a4622, 0x510e527f),
              0xe9b5dba5, 0x00000000, 0xbad621e9, 0x1a7ad47d);
    RoundStep(block, 4, Vars(0xd550f666, 0xc8c347a7, 0x5a6ad9ad, 0x5d6aebcd, 0x24e00850, 0xf92939eb, 0x78ce7989, 0xfa2a4622),
              0x3956c25b, 0x00000000, 0xe642b678, 0x1dfde3f2);
    RoundStep(block, 5, Vars(0x04409a6a, 0xd550f666, 0xc8c347a7, 0x5a6ad9ad, 0x43ada245, 0x24e00850, 0xf92939eb, 0x78ce7989),
              0x59f111f1, 0x00000000, 0x16d78700, 0x146a82f5);
    RoundStep(block, 6, Vars(0x2b4209f5, 0x04409a6a, 0xd550f666, 0xc8c347a7, 0x714260ad, 0x43ada245, 0x24e00850, 0xf92939eb),
              0x923f82a4, 0x00000000, 0xd2645c5a, 0x129ea726);
    RoundStep(block, 7, Vars(0xe5030380, 0x2b4209f5, 0x04409a6a, 0xd550f666, 0x9b27a401, 0x714260ad, 0x43ada245, 0x24e00850),
              0xab1c5ed5, 0x00000000, 0x37148413, 0x4e8bf74c);
  }

  lemma Rounds1(block: seq<word>)
    requires IsAbc(block)
    ensures |K| == 64
    ensures StateIs(block, 16,
                    Vars(0xb0fa238e, 0xc0645fde, 0xd932eb16, 0x87912990, 0x07590dcd, 0x0b92f20c, 0x745a48de, 0x1e578218))
  {
    hide WordIs, StateIs;
    Rounds0(block);
    Constants1();
    Schedule1(block);
    RoundStep(block, 8, Vars(0x85a07b5f, 0xe5030380, 0x2b4209f5, 0x04409a6a, 0x0c657a79, 0x9b27a401, 0x714260ad, 0x43ada245),
              0xd807aa98, 0x00000000, 0x2e899322, 0x5f7b5997);
    RoundStep(block, 9, Vars(0x8e04ecb9, 0x85a07b5f, 0xe5030380, 0x2b4209f5, 0x32ca2d8c, 0x0c657a79, 0x9b27a401, 0x714260ad),
              0x12835b01, 0x00000000, 0xf1871ba1, 0x9b0018ca);
    RoundStep(block, 10, Vars(0x8c87346b, 0x8e04ecb9, 0x85a07b5f, 0xe5030380, 0x1cc92596, 0x32ca2d8c, 0x0c657a79, 0x9b27a401),
              0x243185be, 0x00000000, 0x5e682068, 0xe930838c);
    RoundStep(block, 11, Vars(0x4798a3f4, 0x8c87346b, 0x8e04ecb9, 0x85a07b5f, 0x436b23e8, 0x1cc92596, 0x32ca2d8c, 0x0c657a79),
              0x550c7dc3, 0x00000000, 0xfbcf5b8a, 0xfb506a1f);
    RoundStep(block, 12, Vars(0xf71fc5a9, 0x4798a3f4, 0x8c87346b, 0x8e04ecb9, 0x816fd6e9, 0x436b23e8, 0x1cc92596, 0x32ca2d8c),
              0x72be5d74, 0x00000000, 0x9052955f, 0xf73e9431);
    RoundStep(block, 13, Vars(0x87912990, 0xf71fc5a9, 0x4798a3f4, 0x8c87346b, 0x1e578218, 0x816fd6e9, 0x436b23e8, 0x1cc92596),
              0x80deb1fe, 0x00000000, 0xe7d31473, 0xf15fd6a3);
    RoundStep(block, 14, Vars(0xd932eb16, 0x87912990, 0xf71fc5a9, 0x4798a3f4, 0x745a48de, 0x1e578218, 0x816fd6e9, 0x436b23e8),
              0x9bdc06a7, 0x00000000, 0xc3fa4e18, 0xfc6a11c6);
    RoundStep(block, 15, Vars(0xc0645fde, 0xd932eb16, 0x87912990, 0xf71fc5a9, 0x0b92f20c, 0x745a48de, 0x1e578218, 0x816fd6e9),
              0xc19bf174, 0x00000018, 0x10394824, 0xa0c0db6a);
  }

  lemma Rounds2(block: seq<word>)
    requires IsAbc(block)
    ensures |K| == 64
    ensures StateIs(block, 24,
                    Vars(0xc5d53d8d, 0xa7a3623f, 0xc2606d6d, 0x9dc68b63, 0xaa47c347, 0x49f5114a, 0xe1257970, 0x8ada8930))
  {
    hide WordIs, StateIs;
    Rounds1(block);
    Constants2();
    Schedule2(block);
    RoundStep(block, 16, Vars(0xb0fa238e, 0xc0645fde, 0xd932eb16, 0x87912990, 0x07590dcd, 0x0b92f20c, 0x745a48de, 0x1e578218),
              0xe49b69c1, 0x61626380, 0xf8a2f90c, 0x2937a18f);
    RoundStep(block, 17, Vars(0x21da9a9b, 0xb0fa238e, 0xc0645fde, 0xd932eb16, 0x8034229c, 0x07590dcd, 0x0b92f20c, 0x745a48de),
              0xefbe4786, 0x000f0000, 0xab3bf93e, 0x17bfe093);
    RoundStep(block, 18, Vars(0xc2fbd9d1, 0x21da9a9b, 0xb0fa238e, 0xc0645fde, 0x846ee454, 0x8034229c, 0x07590dcd, 0x0b92f20c),
              0x0fc19dc6, 0x7da86405, 0x0c253983, 0xf252423c);
    RoundStep(block, 19, Vars(0xfe777bbf, 0xc2fbd9d1, 0x21da9a9b, 0xb0fa238e, 0xcc899961, 0x846ee454, 0x8034229c, 0x07590dcd),
              0x240ca1cc, 0x600003c6, 0xff695deb, 0xe288ae48);
    RoundStep(block, 20, Vars(0xe1f20c33, 0xfe777bbf, 0xc2fbd9d1, 0x21da9a9b, 0xb0638179, 0xcc899961, 0x846ee454, 0x8034229c),
              0x2de92c6f, 0x3e9d7b78, 0x68ffee95, 0x34c69cce);
    RoundStep(block, 21, Vars(0x9dc68b63, 0xe1f20c33, 0xfe777bbf, 0xc2fbd9d1, 0x8ada8930, 0xb0638179, 0xcc899961, 0x846ee454),
              0x4a7484aa, 0x0183fc00, 0x1e299f9f, 0xa436cdce);
    RoundStep(block, 22, Vars(0xc2606d6d, 0x9dc68b63, 0xe1f20c33, 0xfe777bbf, 0xe1257970, 0x8ada8930, 0xb0638179, 0xcc899961),
              0x5cb0a9dc, 0x12dcbfdb, 0x4b7d958b, 0x5c25ccb4);
    RoundStep(block, 23, Vars(0xa7a3623f, 0xc2606d6d, 0x9dc68b63, 0xe1f20c33, 0x49f5114a, 0xe1257970, 0x8ada8930, 0xb0638179),
              0x76f988da, 0xe2e2c38e, 0xc855b714, 0xfd7f8679);
  }

  lemma Rounds3(block: seq<word>)
    requires IsAbc(block)
    ensures |K| == 64
    ensures StateIs(block, 32,
                    Vars(0x73b33bf5, 0xea992a22, 0xa0060b30, 0x363482c9, 0xba591112, 0x0109ab3a, 0xade79437, 0x6112a3b7))
  {
    hide WordIs, StateIs;
    Rounds2(block);
    Constants3();
    Schedule3(block);
    RoundStep(block, 24, Vars(0xc5d53d8d, 0xa7a3623f, 0xc2606d6d, 0x9dc68b63, 0xaa47c347, 0x49f5114a, 0xe1257970, 0x8ada8930),
              0x983e5152, 0xc8215c1a, 0x8a5d642e, 0x91cec40a);
    RoundStep(block, 25, Vars(0x1c2c2838, 0xc5d53d8d, 0xa7a3623f, 0xc2606d6d, 0x2823ef91, 0xaa47c347, 0x49f5114a, 0xe1257970),
              0xa831c66d, 0xb73679a2, 0x51d7d021, 0x7c10335c);
    RoundStep(block, 26, Vars(0xcde8037d, 0x1c2c2838, 0xc5d53d8d, 0xa7a3623f, 0x14383d8e, 0x2823ef91, 0xaa47c347, 0x49f5114a),
              0xb00327c8, 0xe5bc3909, 0x1fa902d7, 0x9685c1e5);
    RoundStep(block, 27, Vars(0xb62ec4bc, 0xcde8037d, 0x1c2c2838, 0xc5d53d8d, 0xc74c6516, 0x14383d8e, 0x2823ef91, 0xaa47c347),
              0xbf597fc7, 0x32663c5b, 0x282a826b, 0x4fa8f2bd);
    RoundStep(block, 28, Vars(0x77d37528, 0xb62ec4bc, 0xcde8037d, 0x1c2c2838, 0xedffbff8, 0xc74c6516, 0x14383d8e, 0x2823ef91),
              0xc6e00bf3, 0x9d209d67, 0x44e67b7f, 0xf14e074a);
    RoundStep(block, 29, Vars(0x363482c9, 0x77d37528, 0xb62ec4bc, 0xcde8037d, 0x6112a3b7, 0xedffbff8, 0xc74c6516, 0x14383d8e),
              0xd5a79147, 0xec8726cb, 0xdfff90ba, 0xc0067a76);
    RoundStep(block, 30, Vars(0xa0060b30, 0x363482c9, 0x77d37528, 0xb62ec4bc, 0xade79437, 0x6112a3b7, 0xedffbff8, 0xc74c6516),
              0x06ca6351, 0x702138a4, 0x4adae67e, 0x9fbe43a4);
    RoundStep(block, 31, Vars(0xea992a22, 0xa0060b30, 0x363482c9, 0x77d37528, 0x0109ab3a, 0xade79437, 0x6112a3b7, 0xedffbff8),
              0x14292967, 0xd3b7973b, 0x42859bea, 0x312da00b);
  }

  lemma Rounds4(block: seq<word>)
    requires IsAbc(block)
    ensures |K| == 64
    ensures StateIs(block, 40,
                    Vars(0x79ea687a, 0x6dc57a8a, 0x34df1604, 0x41a65cb1, 0x1efbc0a0, 0xf0781bc8, 0xa507a53d, 0x0772a26b))
  {
    hide WordIs, StateIs;
    Rounds3(block);
    Constants4();
    Schedule4(block);
    RoundStep(block, 32, Vars(0x73b33bf5, 0xea992a22, 0xa0060b30, 0x363482c9, 0xba591112, 0x0109ab3a, 0xade79437, 0x6112a3b7),
              0x27b70a85, 0x93f5997f, 0x66a5732d, 0x323bb1da);
    RoundStep(block, 33, Vars(0x98e12507, 0x73b33bf5, 0xea992a22, 0xa0060b30, 0x9cd9f5f6, 0xba591112, 0x0109ab3a, 0xade79437),
              0x2e1b2138, 0x3b68ba73, 0xb91e92a3, 0x4541bb52);
    RoundStep(block, 34, Vars(0xfe604df5, 0x98e12507, 0x73b33bf5, 0xea992a22, 0x59249dd3, 0x9cd9f5f6, 0xba591112, 0x0109ab3a),
              0x4d2c6dfc, 0xaff4ffc1, 0x1dc60e11, 0x8be1657b);
    RoundStep(block, 35, Vars(0xa9a7738c, 0xfe604df5, 0x98e12507, 0x73b33bf5, 0x085f3833, 0x59249dd3, 0x9cd9f5f6, 0xba591112),
              0x53380d13, 0xf10a5c62, 0x80fcc6e1, 0xe4a40903);
    RoundStep(block, 36, Vars(0x65a0cfe4, 0xa9a7738c, 0xfe604df5, 0x98e12507, 0xf4b002d6, 0x085f3833, 0x59249dd3, 0x9cd9f5f6),
              0x650a7354, 0x0a8b3996, 0x6e917d64, 0xd314df4d);
    RoundStep(block, 37, Vars(0x41a65cb1, 0x65a0cfe4, 0xa9a7738c, 0xfe604df5, 0x0772a26b, 0xf4b002d6, 0x085f3833, 0x59249dd3),
              0x766a0abb, 0x72af830a, 0xa6a75748, 0x8e37bebc);
    RoundStep(block, 38, Vars(0x34df1604, 0x41a65cb1, 0x65a0cfe4, 0xa9a7738c, 0xa507a53d, 0x0772a26b, 0xf4b002d6, 0x085f3833),
              0x81c2c92e, 0x9409e33e, 0x46d0a83c, 0x26f4d24e);
    RoundStep(block, 39, Vars(0x6dc57a8a, 0x34df1604, 0x41a65cb1, 0x65a0cfe4, 0xf0781bc8, 0xa507a53d, 0x0772a26b, 0xf4b002d6),
              0x92722c85, 0x24641522, 0xb95af0bc, 0xc08f77be);
  }

  lemma Rounds5(block: seq<word>)
    requires IsAbc(block)
    ensures |K| == 64
    ensures StateIs(block, 48,
                    Vars(0x4172328d, 0xa14c14b0, 0x72ab4b91, 0x26628815, 0xfecf0bc6, 0xd57b94a9, 0xb7755da1, 0xa80f11f0))
  {
    hide WordIs, StateIs;
    Rounds4(block);
    Constants5();
    Schedule5(block);
    RoundStep(block, 40, Vars(0x79ea687a, 0x6dc57a8a, 0x34df1604, 0x41a65cb1, 0x1efbc0a0, 0xf0781bc8, 0xa507a53d, 0x0772a26b),
              0xa2bfe8a1, 0x9f47bf94, 0xe48ed0b2, 0xf1d836b4);
    RoundStep(block, 41, Vars(0xd6670766, 0x79ea687a, 0x6dc57a8a, 0x34df1604, 0x26352d63, 0x1efbc0a0, 0xf0781bc8, 0xa507a53d),
              0xa81a664b, 0xf0a64f5a, 0x4eac110d, 0x909a5422);
    RoundStep(block, 42, Vars(0xdf46652f, 0xd6670766, 0x79ea687a, 0x6dc57a8a, 0x838b2711, 0x26352d63, 0x1efbc0a0, 0xf0781bc8),
              0xc24b8b70, 0x3e246a79, 0x7107cc8b, 0xa6a24173);
    RoundStep(block, 43, Vars(0x17aa0dfe, 0xdf46652f, 0xd6670766, 0x79ea687a, 0xdecd4715, 0x838b2711, 0x26352d63, 0x1efbc0a0),
              0xc76c51a3, 0x27333ba3, 0x83b7e3b4, 0x1993cbdf);
    RoundStep(block, 44, Vars(0x9d4baf93, 0x17aa0dfe, 0xdf46652f, 0xd6670766, 0xfda24c2e, 0xdecd4715, 0x838b2711, 0x26352d63),
              0xd192e819, 0x0c4763f2, 0xd1a80a8a, 0x54ba7d8b);
    RoundStep(block, 45, Vars(0x26628815, 0x9d4baf93, 0x17aa0dfe, 0xdf46652f, 0xa80f11f0, 0xfda24c2e, 0xdecd4715, 0x838b2711),
              0xd6990624, 0x840abf27, 0xd82ef872, 0x9a7c531f);
    RoundStep(block, 46, Vars(0x72ab4b91, 0x26628815, 0x9d4baf93, 0x17aa0dfe, 0xb7755da1, 0xa80f11f0, 0xfda24c2e, 0xdecd4715),
              0xf40e3585, 0x7a290d5d, 0xbdd186ab, 0xe37a8e05);
    RoundStep(block, 47, Vars(0xa14c14b0, 0x72ab4b91, 0x26628815, 0x9d4baf93, 0xd57b94a9, 0xb7755da1, 0xa80f11f0, 0xfda24c2e),
              0x106aa070, 0x065c43da, 0x61835c33, 0xdfeed65a);
  }

  lemma Rounds6(block: seq<word>)
    requires IsAbc(block)
    ensures |K| == 64
    ensures StateIs(block, 56,
                    Vars(0x38cc9913, 0x3ec45cdb, 0xf5702fdb, 0x101fd28f, 0x54cb266b, 0xe50e1b4f, 0x9f4787c3, 0x529e7d00))
  {
    hide WordIs, StateIs;
    Rounds5(block);
    Constants6();
    Schedule6(block);
    RoundStep(block, 48, Vars(0x4172328d, 0xa14c14b0, 0x72ab4b91, 0x26628815, 0xfecf0bc6, 0xd57b94a9, 0xb7755da1, 0xa80f11f0),
              0x19a4c116, 0xfb3e89cb, 0x970eb823, 0x6e66c4c8);
    RoundStep(block, 49, Vars(0x05757ceb, 0x4172328d, 0xa14c14b0, 0x72ab4b91, 0xbd714038, 0xfecf0bc6, 0xd57b94a9, 0xb7755da1),
              0x1e376c08, 0xcc7617db, 0xfbb0ed7b, 0xf56b0d2d);
    RoundStep(block, 50, Vars(0xf11bfaa8, 0x05757ceb, 0x4172328d, 0xa14c14b0, 0x6e5c390c, 0xbd714038, 0xfecf0bc6, 0xd57b94a9),
              0x2748774c, 0xb9e66c34, 0xb1a5b847, 0xc85f505a);
    RoundStep(block, 51, Vars(0x7a0508a1, 0xf11bfaa8, 0x05757ceb, 0x4172328d, 0x52f1ccf7, 0x6e5c390c, 0xbd714038, 0xfecf0bc6),
              0x34b0bcb5, 0xa9993667, 0x07b0e991, 0x80bd9091);
    RoundStep(block, 52, Vars(0x886e7a22, 0x7a0508a1, 0xf11bfaa8, 0x05757ceb, 0x49231c1e, 0x52f1ccf7, 0x6e5c390c, 0xbd714038),
              0x391c0cb3, 0x84badedd, 0x4d290015, 0xc2f6d27a);
    RoundStep(block, 53, Vars(0x101fd28f, 0x886e7a22, 0x7a0508a1, 0xf11bfaa8, 0x529e7d00, 0x49231c1e, 0x52f1ccf7, 0x6e5c390c),
              0x4ed8aa4a, 0xc21462bc, 0xae2b8d1b, 0x4744a2c0);
    RoundStep(block, 54, Vars(0xf5702fdb, 0x101fd28f, 0x886e7a22, 0x7a0508a1, 0x9f4787c3, 0x529e7d00, 0x49231c1e, 0x52f1ccf7),
              0x5b9cca4f, 0x1487472c, 0x6b0912ae, 0xd3bb4a2d);
    RoundStep(block, 55, Vars(0x3ec45cdb, 0xf5702fdb, 0x101fd28f, 0x886e7a22, 0xe50e1b4f, 0x9f4787c3, 0x529e7d00, 0x49231c1e),
              0x682e6ff3, 0xb20f7a99, 0xcc5cac49, 0x6c6fecca);
  }

  lemma Rounds7(block: seq<word>)
    requires IsAbc(block)
    ensures |K| == 64
    ensures StateIs(block, 64,
                    Vars(0x506e3058, 0xd39a2165, 0x04d24d6c, 0xb85e2ce9, 0x5ef50f24, 0xfb121210, 0x948d25b6, 0x961f4894))
  {
    hide WordIs, StateIs;
    Rounds6(block);
    Constants7();
    Schedule7(block);
    RoundStep(block, 56, Vars(0x38cc9913, 0x3ec45cdb, 0xf5702fdb, 0x101fd28f, 0x54cb266b, 0xe50e1b4f, 0x9f4787c3, 0x529e7d00),
              0x748f82ee, 0xef57b9cd, 0x8b3ebddd, 0x7192ca9e);
    RoundStep(block, 57, Vars(0xfcd1887b, 0x38cc9913, 0x3ec45cdb, 0xf5702fdb, 0x9b5e906c, 0x54cb266b, 0xe50e1b4f, 0x9f4787c3),
              0x78a5636f, 0xebe6b238, 0x88d3d0b3, 0x378f03bc);
    RoundStep(block, 58, Vars(0xc062d46f, 0xfcd1887b, 0x38cc9913, 0x3ec45cdb, 0x7e44008e, 0x9b5e906c, 0x54cb266b, 0xe50e1b4f),
              0x84c87814, 0x9fe3095e, 0x2ebf62eb, 0xd0f7a187);
    RoundStep(block, 59, Vars(0xffb70472, 0xc062d46f, 0xfcd1887b, 0x38cc9913, 0x6d83bfc6, 0x7e44008e, 0x9b5e906c, 0x54cb266b),
              0x8cc70208, 0x78bc8d4b, 0x794f142a, 0x3d5f7bd5);
    RoundStep(block, 60, Vars(0xb6ae8fff, 0xffb70472, 0xc062d46f, 0xfcd1887b, 0xb21bad3d, 0x6d83bfc6, 0x7e44008e, 0x9b5e906c),
              0x90befffa, 0xa43fcf15, 0x994dc019, 0x1f106cd0);
    RoundStep(block, 61, Vars(0xb85e2ce9, 0xb6ae8fff, 0xffb70472, 0xc062d46f, 0x961f4894, 0xb21bad3d, 0x6d83bfc6, 0x7e44008e),
              0xa4506ceb, 0x668b2ff8, 0xd42a5147, 0x30a7fc25);
    RoundStep(block, 62, Vars(0x04d24d6c, 0xb85e2ce9, 0xb6ae8fff, 0xffb70472, 0x948d25b6, 0x961f4894, 0xb21bad3d, 0x6d83bfc6),
              0xbef9a3f7, 0xeeaba2cc, 0xfb5b0d9e, 0xd83f13c7);
    RoundStep(block, 63, Vars(0xd39a2165, 0x04d24d6c, 0xb85e2ce9, 0xb6ae8fff, 0xfb121210, 0x948d25b6, 0x961f4894, 0xb21bad3d),
              0xc67178f2, 0x12b1edeb, 0xa8467f25, 0xa827b133);
  }

  lemma Constants0()
    ensures |K| == 64
    ensures K[0] == 0x428a2f98
    ensures K[1] == 0x71374491
    ensures K[2] == 0xb5c0fbcf
    ensures K[3] == 0xe9b5dba5
    ensures K[4] == 0x3956c25b
    ensures K[5] == 0x59f111f1
    ensures K[6] == 0x923f82a4
    ensures K[7] == 0xab1c5ed5
  {
    Fips180Constants.ConstantAt(0);
    Fips180Constants.ConstantAt(1);
    Fips180Constants.ConstantAt(2);
    Fips180Constants.ConstantAt(3);
    Fips180Constants.ConstantAt(4);
    Fips180Constants.ConstantAt(5);
    Fips180Constants.ConstantAt(6);
    Fips180Constants.ConstantAt(7);
  }

  lemma Constants1()
    ensures |K| == 64
    ensures K[8] == 0xd807aa98
    ensures K[9] == 0x12835b01
    ensures K[10] == 0x243185be
    ensures K[11] == 0x550c7dc3
    ensures K[12] == 0x72be5d74
    ensures K[13] == 0x80deb1fe
    ensures K[14] == 0x9bdc06a7
    ensures K[15] == 0xc19bf174
  {
    Fips180Constants.ConstantAt(8);
    Fips180Constants.ConstantAt(9);
    Fips180Constants.ConstantAt(10);
    Fips180Constants.ConstantAt(11);
    Fips180Constants.ConstantAt(12);
    Fips180Constants.ConstantAt(13);
    Fips180Constants.ConstantAt(14);
    Fips180Constants.ConstantAt(15);
  }

  lemma Constants2()
    ensures |K| == 64
    ensures K[16] == 0xe49b69c1
    ensures K[17] == 0xefbe4786
    ensures K[18] == 0x0fc19dc6
    ensures K[19] == 0x240ca1cc
    ensures K[20] == 0x2de92c6f
    ensures K[21] == 0x4a7484aa
    ensures K[22] == 0x5cb0a9dc
    ensures K[23] == 0x76f988da
  {
    Fips180Constants.ConstantAt(16);
    Fips180Constants.ConstantAt(17);
    Fips180Constants.ConstantAt(18);
    Fips180Constants.ConstantAt(19);
    Fips180Constants.ConstantAt(20);
    Fips180Constants.ConstantAt(21);
    Fips180Constants.ConstantAt(22);
    Fips180Constants.ConstantAt(23);
  }

  lemma Constants3()
    ensures |K| == 64
    ensures K[24] == 0x983e5152
    ensures K[25] == 0xa831c66d
    ensures K[26] == 0xb00327c8
    ensures K[27] == 0xbf597fc7
    ensures K[28] == 0xc6e00bf3
    ensures K[29] == 0xd5a79147
    ensures K[30] == 0x06ca6351
    ensures K[31] == 0x14292967
  {
    Fips180Constants.ConstantAt(24);
    Fips180Constants.ConstantAt(25);
    Fips180Constants.ConstantAt(26);
    Fips180Constants.ConstantAt(27);
    Fips180Constants.ConstantAt(28);
    Fips180Constants.ConstantAt(29);
    Fips180Constants.ConstantAt(30);
    Fips180Constants.ConstantAt(31);
  }

  lemma Constants4()
    ensures |K| == 64
    ensures K[32] == 0x27b70a85
    ensures K[33] == 0x2e1b2138
    ensures K[34] == 0x4d2c6dfc
    ensures K[35] == 0x53380d13
    ensures K[36] == 0x650a7354
    ensures K[37] == 0x766a0abb
    ensures K[38] == 0x81c2c92e
    ensures K[39] == 0x92722c85
  {
    Fips180Constants.ConstantAt(32);
    Fips180Constants.ConstantAt(33);
    Fips180Constants.ConstantAt(34);
    Fips180Constants.ConstantAt(35);
    Fips180Constants.ConstantAt(36);
    Fips180Constants.ConstantAt(37);
    Fips180Constants.ConstantAt(38);
    Fips180Constants.ConstantAt(39);
  }

  lemma Constants5()
    ensures |K| == 64
    ensures K[40] == 0xa2bfe8a1
    ensures K[41] == 0xa81a664b
    ensures K[42] == 0xc24b8b70
    ensures K[43] == 0xc76c51a3
    ensures K[44] == 0xd192e819
    ensures K[45] == 0xd6990624
    ensures K[46] == 0xf40e3585
    ensures K[47] == 0x106aa070
  {
    Fips180Constants.ConstantAt(40);
    Fips180Constants.ConstantAt(41);
    Fips180Constants.ConstantAt(42);
    Fips180Constants.ConstantAt(43);
    Fips180Constants.ConstantAt(44);
    Fips180Constants.ConstantAt(45);
    Fips180Constants.ConstantAt(46);
    Fips180Constants.ConstantAt(47);
  }

  lemma Constants6()
    ensures |K| == 64
    ensures K[48] == 0x19a4c116
    ensures K[49] == 0x1e376c08
    ensures K[50] == 0x2748774c
    ensures K[51] == 0x34b0bcb5
    ensures K[52] == 0x391c0cb3
    ensures K[53] == 0x4ed8aa4a
    ensures K[54] == 0x5b9cca4f
    ensures K[55] == 0x682e6ff3
  {
    Fips180Constants.ConstantAt(48);
    Fips180Constants.ConstantAt(49);
    Fips180Constants.ConstantAt(50);
    Fips180Constants.ConstantAt(51);
    Fips180Constants.ConstantAt(52);
    Fips180Constants.ConstantAt(53);
    Fips180Constants.ConstantAt(54);
    Fips180Constants.ConstantAt(55);
  }

  lemma Constants7()
    ensures |K| == 64
    ensures K[56] == 0x748f82ee
    ensures K[57] == 0x78a5636f
    ensures K[58] == 0x84c87814
    ensures K[59] == 0x8cc70208
    ensures K[60] == 0x90befffa
    ensures K[61] == 0xa4506ceb
    ensures K[62] == 0xbef9a3f7
    ensures K[63] == 0xc67178f2
  {
    Fips180Constants.ConstantAt(56);
    Fips180Constants.ConstantAt(57);
    Fips180Constants.ConstantAt(58);
    Fips180Constants.ConstantAt(59);
    Fips180Constants.ConstantAt(60);
    Fips180Constants.ConstantAt(61);
    Fips180Constants.ConstantAt(62);
    Fips180Constants.ConstantAt(63);
  }

  lemma RoundsStart(block: seq<word>)
    requires |block| == 16
    ensures StateIs(block, 0,
                    Vars(0x6a09e667, 0xbb67ae85, 0x3c6ef372, 0xa54ff53a, 0x510e527f, 0x9b05688c, 0x1f83d9ab, 0x5be0cd19))
  {
  }

  lemma Block(p: seq<byte>)
    requires |p| == 64 && p[..4] == [0x61, 0x62, 0x63, 0x80] && p[63] == 0x18
    requires forall k | 4 <= k < 63 :: p[k] == 0
    ensures IsAbc(Words(p))
  {
    hide IsAbc;
    BlockWord(p, 0);
    BlockWord(p, 15);
    forall k: nat | 1 <= k < 15
      ensures Words(p)[k] == 0
    {
      BlockWord(p, k);
    }
    ThatIsAbc(Words(p));
  }

  lemma ThatIsAbc(block: seq<word>)
    requires |block| == 16 && block[0] == 0x61626380 && block[15] == 0x18 && forall k: nat | 1 <= k < 15 :: block[k] == 0
    ensures IsAbc(block)
  {
  }

  lemma BlockWord(p: seq<byte>, k: nat)
    requires |p| == 64 && k < 16
    ensures Words(p)[k] == BigEndianWord([p[4 * k], p[4 * k + 1], p[4 * k + 2], p[4 * k + 3]])
  {
    assert p[4 * k..4 * k + 4] == [p[4 * k], p[4 * k + 1], p[4 * k + 2], p[4 * k + 3]];
  }

  lemma Padded(m: seq<byte>)
    requires m == [0x61, 0x62, 0x63]
    ensures |Pad(m)| == 64 && Pad(m)[..4] == [0x61, 0x62, 0x63, 0x80] && Pad(m)[63] == 0x18
    ensures forall k | 4 <= k < 63 :: Pad(m)[k] == 0
  {
    hide BigEndian64, ZeroCount;
    var v := 8 * |m|;
    LengthField(v);
    ZerosOfAbc(|m|);
    assert Pad(m) == m + [0x80] + Zeros(52) + BigEndian64(v);
  }

  lemma ZerosOfAbc(length: nat)
    requires length == 3
    ensures ZeroCount(length) == 52
  {
  }

  lemma LengthField(v: nat)
    requires v == 24
    ensures BigEndian64(v) == [0, 0, 0, 0, 0, 0, 0, 0x18]
  {
    hide Low8;
    LowByte(v, 0x18);
    LowByte(v / 0x100, 0);
    LowByte(v / 0x1_0000, 0);
    LowByte(v / 0x100_0000, 0);
    LowByte(v / 0x1_0000_0000, 0);
    LowByte(v / 0x100_0000_0000, 0);
    LowByte(v / 0x1_0000_0000_0000, 0);
    LowByte(v / 0x100_0000_0000_0000, 0);
  }

  lemma LowByte(v: nat, b: byte)
    requires v % 256 == b as nat
    ensures Low8(v) == b
  {
    hide ByteOf;
    assert Low8(v) as nat == b as nat;
  }

  lemma OneBlock(m: seq<byte>)
    requires |m| == 64
    ensures Fold(H0, m) == AddHash(H0, Rounds(H0, Words(m), |K|))
  {
    assert m[..0] == [] && m[0..] == m;
    assert Fold(H0, m[..0]) == H0;
  }

  lemma Digest(v: Hash)
    requires v == Vars(0x506e3058, 0xd39a2165, 0x04d24d6c, 0xb85e2ce9, 0x5ef50f24, 0xfb121210, 0x948d25b6, 0x961f4894)
    ensures HashBytes(AddHash(H0, v)) == [0xba, 0x78, 0x16, 0xbf, 0x8f, 0x01, 0xcf, 0xea,
                                      0x41, 0x41, 0x40, 0xde, 0x5d, 0xae, 0x22, 0x23,
                                      0xb0, 0x03, 0x61, 0xa3, 0x96, 0x17, 0x7a, 0x9c,
                                      0xb4, 0x10, 0xff, 0x61, 0xf2, 0x00, 0x15, 0xad]
  {
  }

  // Section B.1: the hash of "abc".
  lemma HashOfAbc(m: seq<byte>)
    requires m == [0x61, 0x62, 0x63]
    ensures Sha256(m) == [0xba, 0x78, 0x16, 0xbf, 0x8f, 0x01, 0xcf, 0xea,
                              0x41, 0x41, 0x40, 0xde, 0x5d, 0xae, 0x22, 0x23,
                              0xb0, 0x03, 0x61, 0xa3, 0x96, 0x17, 0x7a, 0x9c,
                              0xb4, 0x10, 0xff, 0x61, 0xf2, 0x00, 0x15, 0xad]
  {
    hide Pad, Words, Fold, Rounds, HashBytes, AddHash, IsAbc;
    Padded(m);
    var p := Pad(m);
    Block(p);
    Rounds7(Words(p));
    OneBlock(p);
    Digest(Rounds(H0, Words(p), |K|));
  }

}
