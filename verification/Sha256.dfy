/** The streaming hasher of sha256.cpp. The union of bytes and words is modelled by its words; byte number i of the
    union is byte i % 4, counted from the low end, of word i / 4, as on the little-endian targets of the firmware. */
module Sha256Streaming {
  import opened Fips180
  import opened Rfc2104

  const BUFFER_SIZE := 64

  // ---- words and bytes -------------------------------------------------------------------------------------------

  lemma OneTurnMore(x: word, n: bv8)
    requires 0 < n <= 32
    ensures var y := (x >> 1) | (x << 31);
            (y << (32 - (n - 1))) | (y >> (n - 1)) == (x << (32 - n)) | (x >> n)
  {
  }

  // Two shifts make a circular shift, for every distance and not only for the ten in use.
  lemma {:induction false} TwoShiftsRotate(x: word, n: bv8)
    requires n <= 32
    ensures (x << (32 - n)) | (x >> n) == RotR(x, n)
    decreases n
  {
    if n != 0 {
      OneTurnMore(x, n);
      TwoShiftsRotate((x >> 1) | (x << 31), n - 1);
    }
  }

  method Ror32(number: word, bits: bv8) returns (r: word)
    requires bits <= 32
    ensures r == RotR(number, bits)
  {
    TwoShiftsRotate(number, bits);
    r := (number << (32 - bits)) | (number >> bits);
  }

  function GetByte(w: word, lane: nat): byte
    requires lane < 4
  {
    match lane
    case 0 => (w & 0xff) as byte
    case 1 => ((w >> 8) & 0xff) as byte
    case 2 => ((w >> 16) & 0xff) as byte
    case _ => ((w >> 24) & 0xff) as byte
  }

  function SetByte(w: word, lane: nat, data: byte): word
    requires lane < 4
  {
    match lane
    case 0 => (w & 0xffffff00) | data as word
    case 1 => (w & 0xffff00ff) | (data as word << 8)
    case 2 => (w & 0xff00ffff) | (data as word << 16)
    case _ => (w & 0x00ffffff) | (data as word << 24)
  }

  lemma SetByteChangesOneLane(w: word, lane: nat, data: byte, other: nat)
    requires lane < 4 && other < 4
    ensures GetByte(SetByte(w, lane, data), other) == if other == lane then data else GetByte(w, other)
  {
    if lane == 0 {
      if other == 0 {
      } else if other == 1 {
      } else if other == 2 {
      }
    } else if lane == 1 {
      if other == 0 {
      } else if other == 1 {
      } else if other == 2 {
      }
    } else if lane == 2 {
      if other == 0 {
      } else if other == 1 {
      } else if other == 2 {
      }
    } else {
      if other == 0 {
      } else if other == 1 {
      } else if other == 2 {
      }
    }
  }

  lemma WordFromLanes(w: word)
    ensures w == BigEndianWord([GetByte(w, 3), GetByte(w, 2), GetByte(w, 1), GetByte(w, 0)])
  {
  }

  // The byte order reversal at the end of a hash: afterwards the low byte comes first.
  function SwapBytes(a: word): word
  {
    (a << 24) | ((a << 8) & 0x00ff0000) | ((a >> 8) & 0x0000ff00) | (a >> 24)
  }

  function LittleEndianBytes(w: word): seq<byte>
  {
    [GetByte(w, 0), GetByte(w, 1), GetByte(w, 2), GetByte(w, 3)]
  }

  lemma SwapMakesBigEndian(w: word)
    ensures LittleEndianBytes(SwapBytes(w)) == WordBytes(w)
  {
  }

  // The bitwise exclusive or of two numbers.
  function Xor(x: nat, y: nat): nat
  {
    if x == 0 then y else 2 * Xor(x / 2, y / 2) + (x + y) % 2
  }

  // offset ^ 3 turns the position of a byte in the message into its place in a little-endian word.
  lemma XorThreeReversesLanes(offset: nat)
    ensures Xor(offset, 3) / 4 == offset / 4 && Xor(offset, 3) % 4 == 3 - offset % 4
  {
    var q, r := offset / 4, offset % 4;
    assert offset / 2 == 2 * q + r / 2;
    XorLowBits(q, r);
  }

  lemma XorLowBits(q: nat, r: nat)
    requires r < 4
    ensures Xor(4 * q + r, 3) == 4 * q + (3 - r)
  {
    hide Xor;
    XorZero(q);
    XorOneBit(q, r / 2, 0);
    XorOneBit(2 * q + r / 2, r % 2, 1);
  }

  lemma XorOneBit(x: nat, bit: nat, y: nat)
    requires bit < 2
    ensures Xor(2 * x + bit, 2 * y + 1) == 2 * Xor(x, y) + (1 - bit)
  {
    assert (2 * x + bit) / 2 == x && (2 * y + 1) / 2 == y;
    assert 2 * x + bit + (2 * y + 1) == 2 * (x + y + bit) + (1 - bit);
    if x == 0 && bit == 0 {
      assert Xor(0, y) == y;
    }
  }

  lemma {:induction false} XorZero(x: nat)
    ensures Xor(x, 0) == x
  {
    if x > 0 {
      XorZero(x / 2);
    }
  }

  // ---- the rewritten round functions -----------------------------------------------------------------------------

  function Choose(e: word, f: word, g: word): word { g ^ (e & (g ^ f)) }
  function Majority(a: word, b: word, c: word): word { (b & c) | (a & (b | c)) }

  lemma ChooseBits(e: word, f: word, g: word)
    ensures g ^ (e & (g ^ f)) == Ch(e, f, g)
  {
  }

  lemma ChooseIsCh(e: word, f: word, g: word)
    ensures Choose(e, f, g) == Ch(e, f, g)
  {
    ChooseBits(e, f, g);
  }

  lemma MajorityBits(a: word, b: word, c: word)
    ensures (b & c) | (a & (b | c)) == Maj(a, b, c)
  {
  }

  lemma MajorityIsMaj(a: word, b: word, c: word)
    ensures Majority(a, b, c) == Maj(a, b, c)
  {
    MajorityBits(a, b, c);
  }

  // ---- the pieces of a round -------------------------------------------------------------------------------------

  method ThreeRotations(x: word, n: bv8, m: bv8, k: bv8) returns (r: word)
    requires n <= 32 && m <= 32 && k <= 32
    ensures r == Xor3(RotR(x, n), RotR(x, m), RotR(x, k))
  {
    var u := Ror32(x, n);
    var v := Ror32(x, m);
    var w := Ror32(x, k);
    r := Xor3(u, v, w);
  }

  method TwoRotationsAndShift(x: word, n: bv8, m: bv8, k: bv8) returns (r: word)
    requires n <= 32 && m <= 32 && k <= 32
    ensures r == Xor3(RotR(x, n), RotR(x, m), x >> k)
  {
    var u := Ror32(x, n);
    var v := Ror32(x, m);
    r := Xor3(u, v, x >> k);
  }

  lemma ScheduleStep(block: seq<word>, i: nat)
    requires |block| == 16 && 16 <= i
    ensures W(block, i)
         == Sum4(SmallSigma1(W(block, i - 2)), W(block, i - 7), SmallSigma0(W(block, i - 15)), W(block, i - 16))
  {
    hide SmallSigma0, SmallSigma1, Sum4;
  }

  lemma SumReordered(a: word, b: word, c: word, d: word)
    ensures a + b + c + d == Sum4(c, b, d, a)
  {
  }

  // ---- the hasher ------------------------------------------------------------------------------------------------

  function HashOf(w: seq<word>): Hash
    requires |w| == 8
  {
    Vars(w[0], w[1], w[2], w[3], w[4], w[5], w[6], w[7])
  }

  // What state and buffer hold after a number of bytes: the fold over the full blocks, and the rest of the bytes.
  ghost predicate Absorbed(state: seq<word>, buffer: seq<word>, fed: seq<byte>)
  {
    && |state| == 8 && |buffer| == 16
    && HashOf(state) == Fold(H0, fed[..|fed| - |fed| % 64])
    && TailStored(buffer, fed[|fed| - |fed| % 64..])
  }

  // The unfinished block sits in the buffer, byte j in lane 3 - j % 4 of word j / 4.
  ghost predicate TailStored(buffer: seq<word>, tail: seq<byte>)
  {
    && |buffer| == 16 && |tail| <= 64
    && forall j :: 0 <= j < |tail| ==> GetByte(buffer[j / 4], 3 - j % 4) == tail[j]
  }

  function StoreAt(buffer: seq<word>, offset: nat, data: byte): seq<word>
    requires |buffer| == 16 && offset < 64
  {
    buffer[offset / 4 := SetByte(buffer[offset / 4], 3 - offset % 4, data)]
  }

  lemma StoreExtendsTail(buffer: seq<word>, tail: seq<byte>, data: byte)
    requires TailStored(buffer, tail) && |tail| < 64
    ensures TailStored(StoreAt(buffer, |tail|, data), tail + [data])
  {
    hide GetByte, SetByte;
    var n := |tail|;
    forall j | 0 <= j <= n
      ensures GetByte(StoreAt(buffer, n, data)[j / 4], 3 - j % 4) == (tail + [data])[j]
    {
      SetByteChangesOneLane(buffer[n / 4], 3 - n % 4, data, 3 - j % 4);
      assert j < n ==> GetByte(buffer[j / 4], 3 - j % 4) == tail[j];
    }
  }

  lemma AbsorbIntoTail(state: seq<word>, buffer: seq<word>, fed: seq<byte>, data: byte)
    requires Absorbed(state, buffer, fed) && |fed| % 64 != 63
    ensures Absorbed(state, StoreAt(buffer, |fed| % 64, data), fed + [data])
  {
    hide Fold, GetByte, SetByte;
    var n := |fed| - |fed| % 64;
    StoreExtendsTail(buffer, fed[n..], data);
    var more := fed + [data];
    assert |more| - |more| % 64 == n;
    assert more[..n] == fed[..n] && more[n..] == fed[n..] + [data];
  }

  lemma AbsorbFullBlock(state: seq<word>, buffer: seq<word>, fed: seq<byte>, data: byte, next: seq<word>, left: seq<word>)
    requires Absorbed(state, buffer, fed) && |fed| % 64 == 63 && |next| == 8 && |left| == 16
    requires HashOf(next) == Compress(HashOf(state), StoreAt(buffer, 63, data))
    ensures Absorbed(next, left, fed + [data])
  {
    hide Compress, Words, GetByte, SetByte, Fold, TailStored, StoreAt;
    var n := |fed| - 63;
    StoreExtendsTail(buffer, fed[n..], data);
    var more := fed + [data];
    assert more[..|more| - 64] == fed[..n] && more[|more| - 64..] == fed[n..] + [data];
    TailIsBlock(more[|more| - 64..], StoreAt(buffer, 63, data));
    FoldOneBlock(more);
    NothingStored(left);
    assert more[..|more|] == more && more[|more|..] == [];
  }

  lemma NothingStored(buffer: seq<word>)
    requires |buffer| == 16
    ensures TailStored(buffer, [])
  {
  }

  // A full buffer is the block its sixty-four bytes spell.
  lemma TailIsBlock(tail: seq<byte>, buffer: seq<word>)
    requires TailStored(buffer, tail) && |tail| == 64
    ensures buffer == Words(tail)
  {
    hide GetByte, BigEndianWord;
    forall i | 0 <= i < 16
      ensures buffer[i] == Words(tail)[i]
    {
      WordFromLanes(buffer[i]);
      var j := 4 * i;
      assert tail[j] == GetByte(buffer[j / 4], 3 - j % 4);
      assert tail[j + 1] == GetByte(buffer[(j + 1) / 4], 3 - (j + 1) % 4);
      assert tail[j + 2] == GetByte(buffer[(j + 2) / 4], 3 - (j + 2) % 4);
      assert tail[j + 3] == GetByte(buffer[(j + 3) / 4], 3 - (j + 3) % 4);
      assert tail[j..j + 4] == [GetByte(buffer[i], 3), GetByte(buffer[i], 2), GetByte(buffer[i], 1), GetByte(buffer[i], 0)];
    }
  }

  lemma FoldOneBlock(m: seq<byte>)
    requires |m| % 64 == 0 && m != []
    ensures Fold(H0, m) == Compress(Fold(H0, m[..|m| - 64]), Words(m[|m| - 64..]))
  {
  }

  class Sha256Class {
    const buffer: array<word>
    const state: array<word>
    const keyBuffer: array<byte>
    const innerHash: array<byte>
    var bufferOffset: nat
    var byteCount: nat

    // Every byte absorbed since init, the ones added by padding included.
    ghost var fed: seq<byte>

    constructor ()
      ensures Shape() && fresh(buffer) && fresh(state) && fresh(keyBuffer) && fresh(innerHash)
    {
      buffer := new word[16];
      state := new word[8];
      keyBuffer := new byte[64];
      innerHash := new byte[32];
      bufferOffset, byteCount, fed := 0, 0, [];
    }

    ghost predicate Shape()
    {
      && buffer.Length == 16 && state.Length == 8 && keyBuffer.Length == 64 && innerHash.Length == 32
      && buffer != state && keyBuffer != innerHash
    }

    ghost predicate Valid()
      reads this, buffer, state
    {
      && Shape()
      && bufferOffset == |fed| % 64
      && byteCount < 0x1_0000_0000
      && Absorbed(state[..], buffer[..], fed)
    }

    // No padding has been added: byteCount tells the length, modulo 2^32.
    ghost predicate Streaming()
      reads this, buffer, state
    {
      Valid() && byteCount == |fed| % 0x1_0000_0000
    }

    method Init()
      requires Shape()
      modifies this, state
      ensures Streaming() && fed == []
    {
      state[0], state[1], state[2], state[3] := 0x6a09e667, 0xbb67ae85, 0x3c6ef372, 0xa54ff53a;
      state[4], state[5], state[6], state[7] := 0x510e527f, 0x9b05688c, 0x1f83d9ab, 0x5be0cd19;
      byteCount := 0;
      bufferOffset := 0;
      fed := [];
    }

    method AddUncounted(data: byte)
      requires Valid()
      modifies this`bufferOffset, this`fed, buffer, state
      ensures Valid() && fed == old(fed) + [data]
      ensures bufferOffset == (old(bufferOffset) + 1) % BUFFER_SIZE
    {
      hide Absorbed, Compress, StoreAt;
      ghost var words, bytes := buffer[..], state[..];
      StoreByte(data);
      bufferOffset := bufferOffset + 1;
      if bufferOffset == BUFFER_SIZE {
        HashBlock();
        AbsorbFullBlock(bytes, words, fed, data, state[..], buffer[..]);
        bufferOffset := 0;
      } else {
        AbsorbIntoTail(bytes, words, fed, data);
      }
      fed := fed + [data];
    }

    method StoreByte(data: byte)
      requires buffer.Length == 16 && bufferOffset < 64
      modifies buffer
      ensures buffer[..] == StoreAt(old(buffer[..]), bufferOffset, data)
    {
      hide SetByte, Xor;
      XorThreeReversesLanes(bufferOffset);
      var place := Xor(bufferOffset, 3);
      buffer[place / 4] := SetByte(buffer[place / 4], place % 4, data);
    }

    method Write(data: byte)
      requires Streaming()
      modifies this, buffer, state
      ensures Streaming() && fed == old(fed) + [data]
    {
      hide Absorbed;
      CountOneMore(|fed|);
      byteCount := (byteCount + 1) % 0x1_0000_0000;
      AddUncounted(data);
    }

    method HashBlock()
      requires Shape()
      modifies buffer, state
      ensures HashOf(state[..]) == Compress(old(HashOf(state[..])), old(buffer[..]))
    {
      ghost var block, v := buffer[..], HashOf(state[..]);
      assert Ring(block, 0);
      hide Sum2, Sum5, AddHash, BigSigma0, BigSigma1, Ch, Maj, W;
      var a, b, c, d := state[0], state[1], state[2], state[3];
      var e, f, g, h := state[4], state[5], state[6], state[7];
      for i := 0 to |K|
        invariant Vars(a, b, c, d, e, f, g, h) == Rounds(v, block, i)
        invariant Ring(block, i)
        invariant state[..] == old(state[..])
      {
        var w := Schedule(block, i);
        var t1, t2 := Mix(a, b, c, e, f, g, h, i, w);
        h, g, f, e, d, c, b, a := g, f, e, Sum2(d, t1), c, b, a, Sum2(t1, t2);
      }
      AddToState(a, b, c, d, e, f, g, h);
    }

    // Before step i the ring holds the sixteen newest schedule words, word t in place t modulo 16.
    ghost predicate Ring(block: seq<word>, i: nat)
      reads buffer
    {
      && |block| == 16 && buffer.Length == 16
      && forall t :: Oldest(i) <= t < Oldest(i) + 16 ==> buffer[t % 16] == W(block, t)
    }

    method Schedule(ghost block: seq<word>, i: nat) returns (w: word)
      requires Shape() && Ring(block, i)
      modifies buffer
      ensures Ring(block, i + 1) && w == W(block, i)
    {
      hide W;
      if i >= 16 {
        w := ScheduleWord(block, i);
        ghost var before := buffer[..];
        buffer[i % 16] := w;
        forall t | i - 16 < t <= i
          ensures buffer[t % 16] == W(block, t)
        {
          assert t < i ==> before[t % 16] == W(block, t);
          assert t < i ==> t % 16 != i % 16;
        }
      } else {
        w := buffer[i % 16];
      }
    }

    method AddToState(a: word, b: word, c: word, d: word, e: word, f: word, g: word, h: word)
      requires state.Length == 8
      modifies state
      ensures HashOf(state[..]) == AddHash(old(HashOf(state[..])), Vars(a, b, c, d, e, f, g, h))
    {
      state[0], state[1], state[2], state[3] := Sum2(state[0], a), Sum2(state[1], b), Sum2(state[2], c), Sum2(state[3], d);
      state[4], state[5], state[6], state[7] := Sum2(state[4], e), Sum2(state[5], f), Sum2(state[6], g), Sum2(state[7], h);
    }

    // Lines 54 to 58: the word that takes the place of the one sixteen steps older.
    method ScheduleWord(ghost block: seq<word>, i: nat) returns (t1: word)
      requires Shape() && |block| == 16 && 16 <= i
      requires forall t :: i - 16 <= t < i ==> buffer[t % 16] == W(block, t)
      ensures t1 == W(block, i)
    {
      hide RotR, Xor3, Sum4, W;
      ScheduleStep(block, i);
      assert i % 16 == (i - 16) % 16;
      var w16, w7, w2, w15 := buffer[i % 16], buffer[(i - 7) % 16], buffer[(i - 2) % 16], buffer[(i - 15) % 16];
      var s1 := TwoRotationsAndShift(w2, 17, 19, 10);
      var s0 := TwoRotationsAndShift(w15, 7, 18, 3);
      t1 := w16 + w7 + s1 + s0;
      SumReordered(w16, w7, s1, s0);
    }

    // Lines 61 to 67.
    method Mix(a: word, b: word, c: word, e: word, f: word, g: word, h: word, i: nat, w: word) returns (t1: word, t2: word)
      requires i < |K|
      ensures t1 == Sum5(h, BigSigma1(e), Ch(e, f, g), K[i], w)
      ensures t2 == Sum2(BigSigma0(a), Maj(a, b, c))
    {
      var s1 := ThreeRotations(e, 6, 11, 25);
      ChooseIsCh(e, f, g);
      t1 := Sum5(h, s1, Choose(e, f, g), K[i], w);
      var s0 := ThreeRotations(a, 2, 13, 22);
      MajorityIsMaj(a, b, c);
      t2 := Sum2(s0, Majority(a, b, c));
    }

    // 0x80, zeros up to offset 56 and the length, which ends the block.
    method Pad()
      requires Streaming()
      modifies this`bufferOffset, this`fed, buffer, state
      ensures Valid() && fed == PadWrapped(old(fed)) && bufferOffset == 0
    {
      hide Absorbed, Low8;
      ghost var m := fed;
      AddUncounted(0x80);
      ghost var zeros := 0;
      while bufferOffset != 56
        invariant Valid() && zeros <= ZeroCount(|m|)
        invariant fed == m + [0x80] + Zeros(zeros)
        decreases ZeroCount(|m|) - zeros
      {
        FewerZerosMissTheMark(|m|, zeros);
        AddUncounted(0);
        zeros := zeros + 1;
        assert Zeros(zeros) == Zeros(zeros - 1) + [0];
      }
      FewerZerosMissTheMark(|m|, zeros);
      AddLength();
    }

    method AddLength()
      requires Valid() && bufferOffset == 56
      modifies this`bufferOffset, this`fed, buffer, state
      ensures Valid() && fed == old(fed) + LengthField(byteCount) && bufferOffset == 0
    {
      hide Absorbed, Low8;
      AddFour(0, 0, 0, Low8(byteCount / 0x2000_0000));
      AddFour(Low8(byteCount / 0x20_0000), Low8(byteCount / 0x2000), Low8(byteCount / 0x20), Low8(byteCount * 8 % 0x1_0000_0000));
    }

    method AddFour(b0: byte, b1: byte, b2: byte, b3: byte)
      requires Valid() && bufferOffset <= 60
      modifies this`bufferOffset, this`fed, buffer, state
      ensures Valid() && fed == old(fed) + [b0, b1, b2, b3]
      ensures bufferOffset == (old(bufferOffset) + 4) % BUFFER_SIZE
    {
      hide Valid;
      AddUncounted(b0);
      AddUncounted(b1);
      AddUncounted(b2);
      AddUncounted(b3);
    }

    // The hash of everything written since Init. The words end up byte-swapped in place, so the hasher has to be
    // initialised again before the next use.
    method Result() returns (digest: seq<byte>)
      requires Streaming()
      modifies this`bufferOffset, this`fed, buffer, state
      ensures digest == HashBytes(Fold(H0, PadWrapped(old(fed))))
      ensures |old(fed)| < 0x1_0000_0000 ==> digest == Sha256(old(fed))
      ensures digest == StateBytes(state[..])
    {
      hide Absorbed, Fold, PadWrapped, HashBytes, StateBytes, Fips180.Pad;
      ghost var m := fed;
      Pad();
      AllFolded();
      SwapState();
      digest := StateBytes(state[..]);
      if |m| < 0x1_0000_0000 {
        PaddingAgreesBelow4GB(m);
      }
    }

    // At the end of a block nothing is left in the buffer.
    lemma AllFolded()
      requires Valid() && |fed| % 64 == 0
      ensures HashOf(state[..]) == Fold(H0, fed)
    {
      hide Fold, TailStored;
      assert fed[..|fed|] == fed;
    }

    method SwapState()
      requires state.Length == 8
      modifies state
      ensures StateBytes(state[..]) == HashBytes(old(HashOf(state[..])))
    {
      hide SwapBytes;
      ghost var v := HashOf(state[..]);
      ghost var before := state[..];
      for i := 0 to 8
        invariant forall j :: 0 <= j < i ==> state[j] == SwapBytes(before[j])
        invariant forall j :: i <= j < 8 ==> state[j] == before[j]
      {
        state[i] := SwapBytes(state[i]);
      }
      SwappedStateBytes(before, state[..]);
    }

    method WriteAll(bytes: seq<byte>)
      requires Streaming()
      modifies this, buffer, state
      ensures Streaming() && fed == old(fed) + bytes
    {
      hide Absorbed;
      for i := 0 to |bytes|
        invariant Streaming() && fed == old(fed) + bytes[..i]
      {
        Write(bytes[i]);
      }
      assert bytes[..|bytes|] == bytes;
    }

    method WriteMasked(bytes: array<byte>, mask: byte)
      requires Streaming()
      requires bytes == keyBuffer
      modifies this, buffer, state
      ensures Streaming() && fed == old(fed) + Xored(bytes[..], mask)
    {
      hide Absorbed;
      for i := 0 to bytes.Length
        invariant Streaming() && fed == old(fed) + Xored(bytes[..], mask)[..i]
      {
        Write(bytes[i] ^ mask);
      }
    }

    // The memset and memcpy of lines 140 to 149.
    method StoreKey(bytes: seq<byte>)
      requires keyBuffer.Length == 64 && |bytes| <= 64
      modifies keyBuffer
      ensures keyBuffer[..] == bytes + Zeros(64 - |bytes|)
    {
      forall i | 0 <= i < 64 {
        keyBuffer[i] := 0;
      }
      forall i | 0 <= i < |bytes| {
        keyBuffer[i] := bytes[i];
      }
    }

    // keyLength is an int in the source, so a key has fewer than 2^31 bytes.
    method InitHmac(key: seq<byte>)
      requires Shape() && |key| < 0x8000_0000
      modifies this, buffer, state, keyBuffer
      ensures Streaming() && keyBuffer[..] == KeyBlock(key) && fed == Xored(KeyBlock(key), 0x36)
    {
      hide Absorbed, Fips180.Sha256, PadWrapped, Fold, HashBytes, StateBytes, Xored;
      if |key| > 64 {
        Init();
        WriteAll(key);
        assert fed == key;
        var digest := Result();
        StoreKey(digest);
      } else {
        StoreKey(key);
      }
      Init();
      WriteMasked(keyBuffer, 0x36);
      assert fed == Xored(KeyBlock(key), 0x36);
    }

    // To be called after InitHmac(key) and the writes of text.
    method ResultHmac(ghost key: seq<byte>, ghost text: seq<byte>) returns (mac: seq<byte>)
      requires Streaming() && keyBuffer[..] == KeyBlock(key) && fed == Xored(KeyBlock(key), 0x36) + text
      modifies this, buffer, state, innerHash
      ensures 64 + |text| < 0x1_0000_0000 ==> mac == Hmac(key, text)
    {
      hide Absorbed, Fips180.Sha256, PadWrapped, Fold, HashBytes, StateBytes, Xored;
      var inner := Result();
      forall i | 0 <= i < 32 {
        innerHash[i] := inner[i];
      }
      assert innerHash[..] == inner;
      assert keyBuffer[..] == KeyBlock(key);
      Init();
      WriteMasked(keyBuffer, 0x5c);
      assert fed == Xored(KeyBlock(key), 0x5c);
      WriteAll(innerHash[..]);
      mac := Result();
    }
  }

  // ---- padding ---------------------------------------------------------------------------------------------------

  // The length field as the firmware fills it in from its 32-bit count.
  function LengthField(byteCount: nat): (s: seq<byte>)
    ensures |s| == 8
  {
    [0, 0, 0, Low8(byteCount / 0x2000_0000), Low8(byteCount / 0x20_0000), Low8(byteCount / 0x2000),
     Low8(byteCount / 0x20), Low8(byteCount * 8 % 0x1_0000_0000)]
  }

  function PadWrapped(m: seq<byte>): (p: seq<byte>)
    ensures |p| % 64 == 0
  {
    PaddedLength(|m|);
    m + [0x80] + Zeros(ZeroCount(|m|)) + LengthField(|m| % 0x1_0000_0000)
  }

  lemma CountOneMore(n: nat)
    ensures (n % 0x1_0000_0000 + 1) % 0x1_0000_0000 == (n + 1) % 0x1_0000_0000
  {
  }

  lemma FewerZerosMissTheMark(length: nat, zeros: nat)
    requires zeros <= ZeroCount(length)
    ensures (length + 1 + zeros) % 64 == 56 <==> zeros == ZeroCount(length)
  {
  }

  lemma LengthFieldIsBitLength(n: nat)
    requires n < 0x1_0000_0000
    ensures LengthField(n) == BigEndian64(8 * n)
  {
    assert 8 * n / 0x100_0000_0000_0000 == 8 * n / 0x1_0000_0000_0000 == 8 * n / 0x100_0000_0000 == 0;
    ZeroByte();
    hide Low8;
    assert 8 * n / 0x1_0000_0000 == n / 0x2000_0000;
    assert 8 * n / 0x100_0000 == n / 0x20_0000;
    assert 8 * n / 0x1_0000 == n / 0x2000;
    assert 8 * n / 0x100 == n / 0x20;
    WrappingKeepsLowByte(8 * n);
  }

  lemma WrappingKeepsLowByte(v: nat)
    ensures Low8(v % 0x1_0000_0000) == Low8(v)
  {
    WrappingKeepsRemainder(v);
  }

  lemma WrappingKeepsRemainder(v: nat)
    ensures v % 0x1_0000_0000 % 256 == v % 256
  {
    var q, r := v / 0x1_0000_0000, v % 0x1_0000_0000;
    assert v == 256 * (0x100_0000 * q) + r;
    WithoutMultiples(0x100_0000 * q, r);
  }

  lemma WithoutMultiples(k: nat, r: nat)
    ensures (256 * k + r) % 256 == r % 256
  {
  }

  lemma PaddingAgreesBelow4GB(m: seq<byte>)
    requires |m| < 0x1_0000_0000
    ensures PadWrapped(m) == Fips180.Pad(m)
  {
    hide LengthField, BigEndian64;
    LengthFieldIsBitLength(|m|);
  }

  // Beyond 4 GB the count has wrapped and the length field is wrong: the padding is the standard one exactly below.
  lemma PaddingIsStandardExactlyBelow4GB(m: seq<byte>)
    requires |m| < 0x2000_0000_0000_0000
    ensures PadWrapped(m) == Fips180.Pad(m) <==> |m| < 0x1_0000_0000
  {
    hide LengthField, BigEndian64, Low8;
    if |m| < 0x1_0000_0000 {
      PaddingAgreesBelow4GB(m);
    } else if PadWrapped(m) == Fips180.Pad(m) {
      var n, wrapped := |m| + 1 + ZeroCount(|m|), |m| % 0x1_0000_0000;
      assert LengthField(wrapped) == PadWrapped(m)[n..] == Fips180.Pad(m)[n..] == BigEndian64(8 * |m|);
      UpperBytesTell(|m|, wrapped);
      assert false;
    }
  }

  lemma Low8Injective(u: nat, v: nat)
    requires Low8(u) == Low8(v)
    ensures u % 256 == v % 256
  {
  }

  // In a standard length field the upper bytes tell lengths of 4 GB and more; the firmware leaves them zero.
  lemma UpperBytesTell(n: nat, byteCount: nat)
    requires n < 0x2000_0000_0000_0000 && byteCount < 0x1_0000_0000
    requires LengthField(byteCount) == BigEndian64(8 * n)
    ensures n < 0x1_0000_0000
  {
    hide Low8;
    var x, y := LengthField(byteCount), BigEndian64(8 * n);
    assert x[0] == y[0] && x[1] == y[1] && x[2] == y[2] && x[3] == y[3];
    var h := n / 0x2000_0000;
    ZeroByte();
    Low8Injective(8 * n / 0x100_0000_0000_0000, 0);
    Low8Injective(8 * n / 0x1_0000_0000_0000, 0);
    Low8Injective(8 * n / 0x100_0000_0000, 0);
    Low8Injective(8 * n / 0x1_0000_0000, byteCount / 0x2000_0000);
    hide *;
    assert 8 * n / 0x100_0000_0000_0000 == h / 0x100_0000;
    assert 8 * n / 0x1_0000_0000_0000 == h / 0x1_0000;
    assert 8 * n / 0x100_0000_0000 == h / 0x100;
    assert 8 * n / 0x1_0000_0000 == h;
    SmallUpperBytes(h);
  }

  lemma ZeroByte()
    ensures Low8(0) == 0
  {
  }

  lemma SmallUpperBytes(h: nat)
    requires h < 0x1_0000_0000
    requires h / 0x100_0000 % 256 == 0 && h / 0x1_0000 % 256 == 0 && h / 0x100 % 256 == 0 && h % 256 < 8
    ensures h < 8
  {
  }

  // ---- the final byte order --------------------------------------------------------------------------------------

  function StateBytes(w: seq<word>): seq<byte>
    requires |w| == 8
  {
    LittleEndianBytes(w[0]) + LittleEndianBytes(w[1]) + LittleEndianBytes(w[2]) + LittleEndianBytes(w[3])
    + LittleEndianBytes(w[4]) + LittleEndianBytes(w[5]) + LittleEndianBytes(w[6]) + LittleEndianBytes(w[7])
  }

  lemma SwappedStateBytes(before: seq<word>, after: seq<word>)
    requires |before| == |after| == 8
    requires forall j :: 0 <= j < 8 ==> after[j] == SwapBytes(before[j])
    ensures StateBytes(after) == HashBytes(HashOf(before))
  {
    forall j | 0 <= j < 8
      ensures LittleEndianBytes(after[j]) == WordBytes(before[j])
    {
      SwapMakesBigEndian(before[j]);
    }
    hide SwapBytes, LittleEndianBytes, WordBytes;
  }

  // The step whose schedule word is the oldest one still in the ring before step i.
  function Oldest(i: nat): nat
  {
    if i < 16 then 0 else i - 16
  }
}
