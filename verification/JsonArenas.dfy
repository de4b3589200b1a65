/** The two memory arenas of ArduinoJson: DynamicJsonBuffer.hpp, which grows by doubling blocks, and StaticJsonBuffer.hpp,
    which has one buffer. Sizes are unsigned 32-bit numbers, an empty block takes 12 bytes, and no object of half the
    address space, 2 to the power 31, or more can be allocated, nor is one asked for. */
module JsonArenas {
  import opened Basics

  function Wrap(x: nat): nat { x % 0x1_0000_0000 }

  // JsonBuffer::round_size_up: adds 3 and clears the two low bits.
  function RoundSizeUp(bytes: nat): nat { Wrap(bytes + 3) / 4 * 4 }

  lemma Rounded(bytes: nat)
    requires bytes < 0x1_0000_0000 - 3
    ensures RoundSizeUp(bytes) % 4 == 0 && bytes <= RoundSizeUp(bytes) <= bytes + 3
    ensures bytes % 4 == 0 ==> RoundSizeUp(bytes) == bytes
  {
  }

  ghost predicate Aligned(start: nat) { start % 4 == 0 }

  // Is there an aligned place for so many bytes behind the first size ones?
  ghost predicate RoomFor(size: nat, bytes: nat, capacity: nat)
  {
    exists start: nat :: Aligned(start) && size <= start && start + bytes <= capacity
  }

  // Rounding finds the first such place.
  lemma RoomWhereRounded(size: nat, bytes: nat, capacity: nat)
    requires size < 0x1_0000_0000 - 3
    ensures RoomFor(size, bytes, capacity) <==> RoundSizeUp(size) + bytes <= capacity
    ensures Aligned(RoundSizeUp(size)) && size <= RoundSizeUp(size) < size + 4
  {
    Rounded(size);
    assert Aligned(RoundSizeUp(size));
    forall start: nat | Aligned(start) && size <= start
      ensures RoundSizeUp(size) <= start
    {
      NoMultipleBetween(size, start);
    }
  }

  lemma NoMultipleBetween(size: nat, start: nat)
    requires start % 4 == 0 && size <= start && size < 0x1_0000_0000 - 3
    ensures RoundSizeUp(size) <= start
  {
    assert (size + 3) / 4 <= start / 4;
  }

  // initial, doubled n times.
  function Doubled(initial: nat, n: nat): nat
  {
    if n == 0 then initial else 2 * Doubled(initial, n - 1)
  }

  // ---- what an arena gives out -----------------------------------------------------------------------------------

  // So many bytes of a block, named by its place in the list.
  datatype Region = Region(block: nat, start: nat, length: nat)

  // What an arena has given out: a region for the caller to use, or a finished string with its terminator.
  datatype Grant = Allocated(place: Region) | Built(place: Region, chars: string)

  ghost predicate Apart(a: Region, b: Region)
  {
    a.block != b.block || a.start + a.length <= b.start || b.start + b.length <= a.start
  }

  ghost predicate AllApart(grants: seq<Grant>)
  {
    forall k, l :: 0 <= k < l < |grants| ==> Apart(grants[k].place, grants[l].place)
  }

  lemma OneGrantMore(grants: seq<Grant>, g: Grant)
    requires AllApart(grants) && forall k :: 0 <= k < |grants| ==> Apart(grants[k].place, g.place)
    ensures AllApart(grants + [g])
  {
    hide Apart;
  }

  // A grant is where it should be, in memory of the given content and fill: a region aligned, a string still readable.
  ghost predicate Sound(g: Grant, data: array<char>, size: nat)
    reads data
  {
    && g.place.start + g.place.length <= data.Length && g.place.start + g.place.length <= size
    && (g.Allocated? ==> Aligned(g.place.start))
    && (g.Built? ==> |g.chars| == g.place.length && Reads(data, g.place.start, g.chars))
  }

  ghost predicate Reads(data: array<char>, start: nat, chars: string)
    requires start + |chars| <= data.Length
    reads data
  {
    forall i :: 0 <= i < |chars| ==> data[start + i] == chars[i]
  }

  // ---- the growing arena -----------------------------------------------------------------------------------------

  class Block {
    const data: array<char>
    var size: nat

    constructor (capacity: nat)
      ensures data.Length == capacity && size == 0 && fresh(data)
    {
      data := new char[capacity];
      size := 0;
    }
  }

  ghost predicate Distinct(blocks: seq<Block>)
  {
    forall i, j :: 0 <= i < j < |blocks| ==> blocks[i] != blocks[j] && blocks[i].data != blocks[j].data
  }

  ghost predicate DoubledEachTime(blocks: seq<Block>, initial: nat)
  {
    forall i :: 0 <= i < |blocks| ==> blocks[i].data.Length >= Doubled(initial, i)
  }

  lemma OneBlockMore(blocks: seq<Block>, b: Block, initial: nat)
    requires Distinct(blocks) && DoubledEachTime(blocks, initial) && b.data.Length >= Doubled(initial, |blocks|)
    requires forall x :: x in blocks ==> x != b && x.data != b.data
    ensures Distinct(blocks + [b]) && DoubledEachTime(blocks + [b], initial)
  {
    hide Doubled;
  }

  // The blocks together hold at least what so many doublings add up to.
  ghost function TotalCapacity(blocks: seq<Block>): nat
  {
    if blocks == [] then 0 else TotalCapacity(blocks[..|blocks| - 1]) + blocks[|blocks| - 1].data.Length
  }

  function Pow2(n: nat): nat
  {
    if n == 0 then 1 else 2 * Pow2(n - 1)
  }

  lemma {:induction false} CapacityDoubles(blocks: seq<Block>, initial: nat)
    requires DoubledEachTime(blocks, initial)
    ensures TotalCapacity(blocks) >= initial * (Pow2(|blocks|) - 1)
  {
    if blocks != [] {
      CapacityDoubles(blocks[..|blocks| - 1], initial);
      DoubledIs(initial, |blocks| - 1);
    } else {
      assert initial * (Pow2(0) - 1) == 0;
    }
  }

  lemma {:induction false} DoubledIs(initial: nat, n: nat)
    ensures Doubled(initial, n) == initial * Pow2(n)
    ensures initial * (Pow2(n) - 1) + initial * Pow2(n) == initial * (Pow2(n + 1) - 1)
  {
    if n > 0 {
      DoubledIs(initial, n - 1);
    }
  }

  class DynamicBuffer {
    // The list, newest block last.
    var blocks: seq<Block>
    var nextBlockCapacity: nat

    // The capacity to begin with since the last clear, what has been given out since then, and how often malloc has
    // refused.
    ghost var initial: nat
    ghost var grants: seq<Grant>
    ghost var refusals: nat

    // Everything given out is still where it should be, says what it said, and is apart from everything else.
    ghost predicate Valid()
      reads this, blocks, set b | b in blocks :: b.data
    {
      && Distinct(blocks) && DoubledEachTime(blocks, initial)
      && initial < 0x8000_0000 && nextBlockCapacity == Doubled(initial, |blocks|) < 0x1_0000_0000 - 2 * 12
      && SoundBlocks() && SoundGrants() && AllApart(grants)
    }

    ghost predicate SoundBlocks()
      reads this, blocks
    {
      forall i :: 0 <= i < |blocks| ==> SoundBlock(blocks[i])
    }

    // Rounding may leave the size up to three bytes past the end.
    ghost predicate SoundBlock(b: Block)
      reads b
    {
      && b.data.Length + 12 < 0x8000_0000
      && (b.size <= b.data.Length || (b.size % 4 == 0 && b.size <= b.data.Length + 3))
    }

    ghost predicate SoundGrants()
      reads this, blocks, set b | b in blocks :: b.data
    {
      forall k :: 0 <= k < |grants| ==> SoundGrant(grants[k])
    }

    ghost predicate SoundGrant(g: Grant)
      reads this, blocks, set b | b in blocks :: b.data
    {
      g.place.block < |blocks| && Sound(g, blocks[g.place.block].data, blocks[g.place.block].size)
    }

    // The list has at most got longer, by blocks that are new, and its blocks fuller.
    twostate predicate OnlyGrew()
      reads this, blocks, set b | b in blocks :: b.data
    {
      && old(blocks) <= blocks
      && (forall i :: |old(blocks)| <= i < |blocks| ==> fresh(blocks[i]) && fresh(blocks[i].data))
      && (forall i :: 0 <= i < |old(blocks)| ==> Kept(blocks[i]))
    }

    // What lies below the fill is left alone.
    twostate predicate Kept(b: Block)
      reads b, b.data
    {
      old(b.size) <= b.size && forall i :: 0 <= i < b.data.Length && i < old(b.size) ==> b.data[i] == old(b.data[i])
    }

    constructor (initialSize: nat)
      requires initialSize < 0x8000_0000
      ensures Valid() && blocks == [] && grants == [] && initial == initialSize && refusals == 0
    {
      blocks, nextBlockCapacity := [], initialSize;
      initial, grants, refusals := initialSize, [], 0;
    }

    function Head(): Block
      requires blocks != []
      reads this
    {
      blocks[|blocks| - 1]
    }

    // malloc
    method Allocate(bytes: nat) returns (granted: bool)
      requires bytes < 0x1_0000_0000
      modifies this`refusals
      ensures granted ==> bytes < 0x8000_0000
      ensures refusals == old(refusals) + if granted then 0 else 1
    {
      var willing: bool := *;
      granted := willing && bytes < 0x8000_0000;
      if !granted {
        refusals := refusals + 1;
      }
    }

    method AlignNextAlloc()
      requires Valid()
      modifies if blocks == [] then {} else {Head()}
      ensures Valid()
      ensures blocks != [] ==> Head().size == RoundSizeUp(old(Head().size))
      ensures blocks != [] ==> Aligned(Head().size) && old(Head().size) <= Head().size < old(Head().size) + 4
    {
      hide Distinct, DoubledEachTime, Doubled, AllApart, Reads;
      if blocks != [] {
        Rounded(Head().size);
        Head().size := RoundSizeUp(Head().size);
        assert forall k :: 0 <= k < |grants| ==> old(SoundGrant(grants[k]));
      }
    }

    function CanAllocInHead(bytes: nat): (fits: bool)
      requires Valid() && bytes < 0x8000_0000
      reads this, blocks, set b | b in blocks :: b.data
      ensures fits <==> blocks != [] && Head().size + bytes <= Head().data.Length
    {
      blocks != [] && Wrap(Head().size + bytes) <= Head().data.Length
    }

    // The bytes given out lie at the old size of the newest block.
    method AllocInHead(bytes: nat) returns (start: nat)
      requires Valid() && blocks != [] && Head().size + bytes <= Head().data.Length
      modifies Head()
      ensures Valid() && start == old(Head().size) && Head().size == start + bytes && OnlyGrew()
    {
      hide Distinct, DoubledEachTime, Doubled, AllApart, Reads;
      start := Head().size;
      Head().size := start + bytes;
      assert forall k :: 0 <= k < |grants| ==> old(SoundGrant(grants[k]));
    }

    method AddNewBlock(capacity: nat) returns (added: bool)
      requires capacity < 0x1_0000_0000 - 12
      modifies this`blocks, this`refusals
      ensures refusals == old(refusals) + if added then 0 else 1
      ensures OnlyGrew()
      ensures !added ==> blocks == old(blocks)
      ensures added ==>
                && blocks != [] && blocks == old(blocks) + [Head()] && Head().size == 0
                && Head().data.Length == capacity && capacity + 12 < 0x8000_0000
    {
      var bytes := Wrap(12 + capacity);
      added := Allocate(bytes);
      if added {
        var block := new Block(capacity);
        blocks := blocks + [block];
      }
    }

    method AllocInNewBlock(bytes: nat) returns (start: Option<nat>)
      requires Valid() && bytes < 0x8000_0000
      modifies this
      ensures Valid() && initial == old(initial) && grants == old(grants) && OnlyGrew()
      ensures refusals == old(refusals) + if start.Some? then 0 else 1
      ensures start.None? ==> blocks == old(blocks)
      ensures start.Some? ==>
                && start.value == 0 && blocks != [] && blocks == old(blocks) + [Head()]
                && Head().size == bytes <= Head().data.Length
    {
      hide Distinct, DoubledEachTime, Doubled, AllApart, Sound;
      var capacity := nextBlockCapacity;
      if bytes > capacity {
        capacity := bytes;
      }
      DoubledOnce(initial, |blocks|);
      ghost var before := blocks;
      var added := AddNewBlock(capacity);
      if !added {
        return None;
      }
      OneBlockMore(before, Head(), initial);
      nextBlockCapacity := Wrap(nextBlockCapacity * 2);
      assert forall k :: 0 <= k < |grants| ==> old(SoundGrant(grants[k]));
      var s := AllocInHead(bytes);
      start := Some(s);
    }

    // alloc: every region is aligned, inside its block and apart from everything given out before. It is taken from the
    // first aligned place of the newest block if there is room, and otherwise begins a new block; it is refused if and
    // only if malloc refuses that block.
    method Alloc(bytes: nat) returns (r: Option<Region>)
      requires Valid() && bytes < 0x8000_0000
      modifies this, if blocks == [] then {} else {Head()}
      ensures Valid() && initial == old(initial) && OnlyGrew()
      ensures refusals == old(refusals) + if r.Some? then 0 else 1
      ensures r.None? ==> grants == old(grants) && blocks == old(blocks)
      ensures r.Some? ==>
                && grants == old(grants) + [Allocated(r.value)] && r.value.length == bytes
                && blocks != [] && r.value.block == |blocks| - 1 && Head().size == r.value.start + bytes
      ensures old(blocks) != [] && RoomFor(old(Head().size), bytes, old(Head().data.Length)) ==>
                && r.Some? && blocks == old(blocks)
                && old(Head().size) <= r.value.start < old(Head().size) + 4
      ensures r.Some? && !(old(blocks) != [] && RoomFor(old(Head().size), bytes, old(Head().data.Length))) ==>
                r.value.start == 0 && blocks == old(blocks) + [Head()]
    {
      hide Distinct, DoubledEachTime, Doubled, AllApart, Sound, RoundSizeUp, RoomFor, Apart;
      if blocks != [] {
        HeadIsSmall();
        RoomWhereRounded(Head().size, bytes, Head().data.Length);
      }
      AlignNextAlloc();
      r := Carve(bytes);
      if r.Some? {
        HandOut(Allocated(r.value));
      }
    }

    // From the newest block if there is room, from a new one otherwise.
    method Carve(bytes: nat) returns (r: Option<Region>)
      requires Valid() && bytes < 0x8000_0000 && (blocks != [] ==> Aligned(Head().size))
      modifies this, if blocks == [] then {} else {Head()}
      ensures Valid() && initial == old(initial) && grants == old(grants) && OnlyGrew()
      ensures refusals == old(refusals) + if r.Some? then 0 else 1
      ensures r.None? ==> blocks == old(blocks)
      ensures r.Some? ==> MayHandOut(Allocated(r.value)) && r.value.length == bytes
      ensures r.Some? ==> r.value.block == |blocks| - 1 && Head().size == r.value.start + bytes
      ensures old(blocks) != [] && old(Head().size) + bytes <= old(Head().data.Length) ==>
                r.Some? && blocks == old(blocks) && r.value.start == old(Head().size)
      ensures r.Some? && !(old(blocks) != [] && old(Head().size) + bytes <= old(Head().data.Length)) ==>
                r.value.start == 0 && blocks == old(blocks) + [Head()]
    {
      hide Distinct, DoubledEachTime, Doubled, AllApart, Reads;
      if CanAllocInHead(bytes) {
        var start := AllocInHead(bytes);
        r := Some(Region(|blocks| - 1, start, bytes));
      } else {
        var start := AllocInNewBlock(bytes);
        if start.None? {
          return None;
        }
        r := Some(Region(|blocks| - 1, start.value, bytes));
      }
      assert forall k :: 0 <= k < |grants| ==> old(SoundGrant(grants[k]));
    }

    ghost predicate MayHandOut(g: Grant)
      reads this, blocks, set b | b in blocks :: b.data
    {
      SoundGrant(g) && forall k :: 0 <= k < |grants| ==> Apart(grants[k].place, g.place)
    }

    ghost method HandOut(g: Grant)
      requires Valid() && MayHandOut(g)
      modifies this`grants
      ensures Valid() && grants == old(grants) + [g]
    {
      hide Distinct, DoubledEachTime, Doubled, AllApart, Apart, Sound;
      OneGrantMore(grants, g);
      grants := grants + [g];
    }

    // One character more behind the fill.
    method Put(c: char) returns (end: nat)
      requires Valid() && blocks != [] && Head().size + 1 <= Head().data.Length
      modifies Head(), Head().data
      ensures Valid() && end == old(Head().size) && Head().size == end + 1
      ensures OnlyGrew()
      ensures Head().data[end] == c && forall i :: 0 <= i < end ==> Head().data[i] == old(Head().data[i])
    {
      hide DoubledEachTime, Doubled, AllApart;
      end := AllocInHead(1);
      Head().data[end] := c;
      assert forall k :: 0 <= k < |grants| ==> old(SoundGrant(grants[k]));
    }

    // Lines 95 and 96, for a new block in which nothing has been given out.
    method FillHead(from: string, at: nat, c: char)
      requires Valid() && blocks != [] && |from| <= at && Head().size == at + 1 <= Head().data.Length
      requires forall k :: 0 <= k < |grants| ==> grants[k].place.block < |blocks| - 1
      modifies Head().data
      ensures Valid() && Head().data[at] == c && forall i :: 0 <= i < |from| ==> Head().data[i] == from[i]
    {
      hide DoubledEachTime, Doubled, AllApart;
      forall i | 0 <= i < |from| {
        Head().data[i] := from[i];
      }
      Head().data[at] := c;
      assert forall k :: 0 <= k < |grants| ==> old(SoundGrant(grants[k]));
    }

    lemma HeadIsSmall()
      requires Valid() && blocks != []
      ensures Head().size < 0x8000_0000
    {
    }

    // The loop over the list: size() counts the padding too.
    method Size() returns (total: nat)
      requires Valid()
      ensures total == TotalSize(blocks)
    {
      total := 0;
      var i: nat := |blocks|;
      assert blocks[..i] == blocks;
      while i > 0
        invariant i <= |blocks| && total + TotalSize(blocks[..i]) == TotalSize(blocks)
      {
        assert blocks[..i][..i - 1] == blocks[..i - 1];
        i := i - 1;
        total := total + blocks[i].size;
      }
    }

    ghost function TotalSize(bs: seq<Block>): nat
      reads bs
    {
      if bs == [] then 0 else TotalSize(bs[..|bs| - 1]) + bs[|bs| - 1].size
    }

    // clear goes from the newest block to the oldest, whose capacity is what the next block starts from.
    method Clear()
      requires Valid()
      modifies this
      ensures Valid() && blocks == [] && grants == [] && refusals == old(refusals)
      ensures initial == if old(blocks) == [] then old(initial) else old(blocks)[0].data.Length
    {
      hide Distinct, DoubledEachTime, Doubled, Sound;
      NothingDoubled(initial);
      var i: nat := |blocks|;
      while i > 0
        invariant i <= |blocks| && blocks == old(blocks) && initial == old(initial) && refusals == old(refusals)
        invariant nextBlockCapacity == if i == |blocks| then old(nextBlockCapacity) else blocks[i].data.Length
        decreases i
      {
        i := i - 1;
        nextBlockCapacity := blocks[i].data.Length;
      }
      Start(nextBlockCapacity);
      initial := nextBlockCapacity;
      blocks, grants := [], [];
    }
  }

  lemma Start(initial: nat)
    ensures Distinct([]) && DoubledEachTime([], initial) && Doubled(initial, 0) == initial
  {
  }

  lemma NothingDoubled(initial: nat)
    ensures Doubled(initial, 0) == initial
  {
  }

  lemma DoubledOnce(initial: nat, n: nat)
    ensures Doubled(initial, n + 1) == 2 * Doubled(initial, n)
  {
  }

  // String: text that grows at the end of the newest block and moves to a new one when that is full.
  class TextBuilder {
    const parent: DynamicBuffer
    var start: Option<(nat, nat)>
    var length: nat

    // What has been appended, and whether malloc has refused a block for it on the way.
    ghost var text: string
    ghost var lost: bool

    // Nobody else has allocated in between: what there is of the text is the last thing in the newest block.
    ghost predicate Building()
      reads this, parent, parent.blocks, set b | b in parent.blocks :: b.data
    {
      && parent.Valid() && length == |text| < 0x8000_0000 - 1
      && (start.Some? ==> InPlace())
      && (!lost ==> if start.Some? then Reads(parent.Head().data, start.value.1, text) else text == "")
    }

    ghost predicate InPlace()
      reads this, parent, parent.blocks
    {
      && parent.blocks != [] && start.Some? && start.value.0 == |parent.blocks| - 1
      && start.value.1 + |text| == parent.Head().size <= parent.Head().data.Length
      && forall k :: 0 <= k < |parent.grants| ==> Below(parent.grants[k])
    }

    ghost predicate Below(g: Grant)
      requires start.Some?
      reads this
    {
      g.place.block == start.value.0 ==> g.place.start + g.place.length <= start.value.1
    }

    constructor (parent: DynamicBuffer)
      requires parent.Valid()
      ensures this.parent == parent && Building() && text == "" && !lost
    {
      this.parent, start, length, text, lost := parent, None, 0, "", false;
    }

    method Append(c: char)
      requires Building() && length < 0x8000_0000 - 2
      modifies this, parent, if parent.blocks == [] then {} else {parent.Head(), parent.Head().data}
      ensures Building() && text == old(text) + [c] && length == old(length) + 1
      ensures lost <==> old(lost) || parent.refusals > old(parent.refusals)
      ensures parent.OnlyGrew() && parent.refusals >= old(parent.refusals)
      ensures parent.grants == old(parent.grants) && parent.initial == old(parent.initial)
    {
      if parent.CanAllocInHead(1) {
        AppendInHead(c);
      } else {
        Relocate(c);
      }
    }

    method AppendInHead(c: char)
      requires Building() && length < 0x8000_0000 - 2
      requires parent.blocks != [] && parent.Head().size + 1 <= parent.Head().data.Length
      modifies this, parent.Head(), parent.Head().data
      ensures Building() && text == old(text) + [c] && lost == old(lost) && length == old(length) + 1
      ensures parent.OnlyGrew()
    {
      hide DynamicBuffer.Valid;
      GrantsBelow();
      var end := parent.Put(c);
      if length == 0 {
        start := Some((|parent.blocks| - 1, end));
      }
      length := length + 1;
      text := text + [c];
    }

    lemma GrantsBelow()
      requires Building() && parent.blocks != []
      ensures forall k :: 0 <= k < |parent.grants| && parent.grants[k].place.block == |parent.blocks| - 1 ==>
                parent.grants[k].place.start + parent.grants[k].place.length <= parent.Head().size
    {
    }

    lemma GrantsInBlocks()
      requires Building()
      ensures forall k :: 0 <= k < |parent.grants| ==> parent.grants[k].place.block < |parent.blocks|
    {
    }

    // Lines 93 to 97: the text moves to a block of its own.
    method Relocate(c: char)
      requires Building() && length < 0x8000_0000 - 2
      modifies this, parent
      ensures Building() && text == old(text) + [c] && length == old(length) + 1
      ensures lost <==> old(lost) || parent.refusals > old(parent.refusals)
      ensures parent.OnlyGrew() && parent.refusals >= old(parent.refusals)
      ensures parent.grants == old(parent.grants) && parent.initial == old(parent.initial)
    {
      hide DynamicBuffer.Valid;
      var from := if start.Some? then parent.Head().data[start.value.1..start.value.1 + length] else [];
      GrantsInBlocks();
      var newStart := parent.AllocInNewBlock(length + 1);
      if newStart.Some? {
        parent.FillHead(from, length, c);
        start := Some((|parent.blocks| - 1, newStart.value));
      } else {
        start := None;
        lost := true;
      }
      length := length + 1;
      text := text + [c];
    }

    // c_str: unless malloc has refused, the characters appended with a terminator behind them, wherever the text has
    // moved to; they count as given out from now on.
    method CStr() returns (where: Option<(nat, nat)>)
      requires Building() && length < 0x8000_0000 - 2
      modifies this, parent, if parent.blocks == [] then {} else {parent.Head(), parent.Head().data}
      ensures parent.Valid() && text == old(text) + ['\0'] && where == start
      ensures lost <==> old(lost) || parent.refusals > old(parent.refusals)
      ensures parent.OnlyGrew() && parent.refusals >= old(parent.refusals) && parent.initial == old(parent.initial)
      ensures lost ==> parent.grants == old(parent.grants)
      ensures !lost ==>
                && where.Some? && parent.blocks != [] && where.value.0 == |parent.blocks| - 1
                && where.value.1 + |text| == parent.Head().size <= parent.Head().data.Length
                && parent.Head().data[where.value.1..where.value.1 + |text|] == text
                && parent.grants
                   == old(parent.grants) + [Built(Region(where.value.0, where.value.1, |text|), text)]
    {
      Append('\0');
      where := start;
      if !lost {
        Finish();
      }
    }

    ghost method Finish()
      requires Building() && start.Some? && !lost
      modifies parent`grants
      ensures parent.Valid()
      ensures parent.grants == old(parent.grants) + [Built(Region(start.value.0, start.value.1, |text|), text)]
    {
      var g := Built(Region(start.value.0, start.value.1, |text|), text);
      forall k | 0 <= k < |parent.grants|
        ensures Apart(parent.grants[k].place, g.place)
      {
        assert Below(parent.grants[k]);
      }
      parent.HandOut(g);
    }

    method AppendAll(s: string)
      requires Building() && length + |s| < 0x8000_0000 - 1
      modifies this, parent, if parent.blocks == [] then {} else {parent.Head(), parent.Head().data}
      ensures Building() && text == old(text) + s && length == old(length) + |s|
      ensures lost <==> old(lost) || parent.refusals > old(parent.refusals)
      ensures parent.OnlyGrew() && parent.refusals >= old(parent.refusals)
      ensures parent.grants == old(parent.grants) && parent.initial == old(parent.initial)
    {
      hide DynamicBuffer.Valid, Building;
      for i := 0 to |s|
        invariant Building() && text == old(text) + s[..i] && length == old(length) + i
        invariant lost <==> old(lost) || parent.refusals > old(parent.refusals)
        invariant parent.OnlyGrew() && parent.refusals >= old(parent.refusals)
        invariant parent.grants == old(parent.grants) && parent.initial == old(parent.initial)
      {
        Append(s[i]);
      }
      assert s[..|s|] == s;
    }

    // A whole string and its terminator: exactly these characters, across every relocation.
    method Write(s: string) returns (where: Option<(nat, nat)>)
      requires Building() && text == "" && !lost && |s| < 0x8000_0000 - 2
      modifies this, parent, if parent.blocks == [] then {} else {parent.Head(), parent.Head().data}
      ensures parent.Valid() && parent.OnlyGrew() && parent.initial == old(parent.initial)
      ensures parent.refusals >= old(parent.refusals) && (lost <==> parent.refusals > old(parent.refusals))
      ensures lost ==> parent.grants == old(parent.grants)
      ensures !lost ==>
                && where.Some? && where.value.0 < |parent.blocks|
                && where.value.1 + |s| + 1 <= parent.blocks[where.value.0].data.Length
                && parent.blocks[where.value.0].data[where.value.1..where.value.1 + |s| + 1] == s + ['\0']
                && parent.grants
                   == old(parent.grants) + [Built(Region(where.value.0, where.value.1, |s| + 1), s + ['\0'])]
    {
      hide DynamicBuffer.Valid, Building;
      LengthOfNothing();
      AppendAll(s);
      where := CStr();
      assert text == s + ['\0'];
    }

    lemma LengthOfNothing()
      requires Building() && text == ""
      ensures length == 0
    {
    }
  }

  // ---- the fixed arena -------------------------------------------------------------------------------------------

  class StaticBuffer {
    const buffer: array<char>
    var size: nat

    // What has been given out since the last clear; all of it in block 0, the only one.
    ghost var grants: seq<Grant>

    ghost predicate Valid()
      reads this, buffer
    {
      && buffer.Length < 0x8000_0000 - 3
      && (size <= buffer.Length || (size % 4 == 0 && size <= buffer.Length + 3))
      && SoundGrants() && AllApart(grants)
    }

    ghost predicate SoundGrants()
      reads this, buffer
    {
      forall k :: 0 <= k < |grants| ==> SoundGrant(grants[k])
    }

    ghost predicate SoundGrant(g: Grant)
      reads this, buffer
    {
      g.place.block == 0 && Sound(g, buffer, size)
    }

    // What lies below the fill is left alone.
    twostate predicate Kept()
      reads this, buffer
    {
      old(size) <= size && forall i :: 0 <= i < buffer.Length && i < old(size) ==> buffer[i] == old(buffer[i])
    }

    constructor (capacity: nat)
      requires capacity < 0x8000_0000 - 3
      ensures Valid() && fresh(buffer) && buffer.Length == capacity && size == 0 && grants == []
    {
      buffer := new char[capacity];
      size, grants := 0, [];
    }

    method AlignNextAlloc()
      requires Valid()
      modifies this`size
      ensures Valid() && Aligned(size) && size == RoundSizeUp(old(size))
    {
      hide AllApart, Reads;
      Rounded(size);
      size := RoundSizeUp(size);
      assert forall k :: 0 <= k < |grants| ==> old(SoundGrant(grants[k]));
    }

    function CanAlloc(bytes: nat): (fits: bool)
      requires Valid() && bytes < 0x8000_0000
      reads this, buffer
      ensures fits <==> size + bytes <= buffer.Length
    {
      Wrap(size + bytes) <= buffer.Length
    }

    method DoAlloc(bytes: nat) returns (start: nat)
      requires Valid() && size + bytes <= buffer.Length
      modifies this`size
      ensures Valid() && start == old(size) && size == start + bytes
    {
      hide AllApart, Reads;
      start := size;
      size := size + bytes;
      assert forall k :: 0 <= k < |grants| ==> old(SoundGrant(grants[k]));
    }

    // alloc: granted if and only if an aligned place behind the fill has room, and then the first such place.
    method Alloc(bytes: nat) returns (r: Option<Region>)
      requires Valid() && bytes < 0x8000_0000
      modifies this
      ensures Valid() && Kept()
      ensures r.Some? <==> RoomFor(old(size), bytes, buffer.Length)
      ensures r.None? ==> grants == old(grants) && size < old(size) + 4
      ensures r.Some? ==>
                && grants == old(grants) + [Allocated(r.value)] && r.value.length == bytes
                && old(size) <= r.value.start < old(size) + 4 && size == r.value.start + bytes
    {
      hide AllApart, Reads, RoomFor, RoundSizeUp;
      RoomWhereRounded(size, bytes, buffer.Length);
      AlignNextAlloc();
      if !CanAlloc(bytes) {
        return None;
      }
      var start := DoAlloc(bytes);
      r := Some(Region(0, start, bytes));
      assert forall k :: 0 <= k < |grants| ==> old(SoundGrant(grants[k]));
      HandOut(Allocated(r.value));
    }

    ghost method HandOut(g: Grant)
      requires Valid() && SoundGrant(g) && forall k :: 0 <= k < |grants| ==> Apart(grants[k].place, g.place)
      modifies this`grants
      ensures Valid() && grants == old(grants) + [g]
    {
      hide AllApart, Apart, Sound;
      OneGrantMore(grants, g);
      grants := grants + [g];
    }

    // One character behind the fill.
    method Put(c: char) returns (last: nat)
      requires Valid() && size + 1 <= buffer.Length
      modifies this`size, buffer
      ensures Valid() && last == old(size) && size == last + 1 && buffer[last] == c && Kept()
    {
      hide AllApart;
      last := DoAlloc(1);
      buffer[last] := c;
      assert forall k :: 0 <= k < |grants| ==> old(SoundGrant(grants[k]));
    }

    method Clear()
      requires Valid()
      modifies this
      ensures Valid() && size == 0 && grants == []
    {
      size, grants := 0, [];
    }
  }

  // String on the fixed arena: characters that no longer fit are dropped without a word until c_str tells.
  class StaticTextBuilder {
    const parent: StaticBuffer
    const start: nat
    ghost var text: string
    ghost var dropped: bool

    // Once something has been dropped nothing fits any more, whatever else is allocated in between.
    ghost predicate Honest()
      reads this, parent, parent.buffer
    {
      parent.Valid() && start <= parent.size && (dropped ==> parent.size + 1 > parent.buffer.Length)
    }

    // Nobody else has allocated in between.
    ghost predicate Building()
      reads this, parent, parent.buffer
    {
      && Honest()
      && (forall k :: 0 <= k < |parent.grants| ==> Below(parent.grants[k]))
      && (!dropped ==> start + |text| == parent.size)
      && (!dropped && parent.size <= parent.buffer.Length ==> Reads(parent.buffer, start, text))
      && (!dropped && parent.size > parent.buffer.Length ==> text == "")
    }

    ghost predicate Below(g: Grant)
      reads this
    {
      g.place.start + g.place.length <= start
    }

    constructor (parent: StaticBuffer)
      requires parent.Valid()
      ensures this.parent == parent && Building() && text == "" && !dropped && start == parent.size
    {
      this.parent, start := parent, parent.size;
      text, dropped := "", false;
    }

    method Append(c: char)
      requires Honest()
      modifies this, parent`size, parent.buffer
      ensures Honest() && (old(Building()) ==> Building()) && text == old(text) + [c]
      ensures dropped <==> old(dropped) || old(parent.size) >= parent.buffer.Length
      ensures parent.Kept() && parent.size == old(parent.size) + if old(parent.size) < parent.buffer.Length then 1 else 0
    {
      hide StaticBuffer.Valid;
      if parent.CanAlloc(1) {
        var _ := parent.Put(c);
      } else {
        dropped := true;
      }
      text := text + [c];
    }

    // Not null means that nothing was dropped, even with other allocations in between; without them, the characters are
    // there as appended, the terminator behind them, and count as given out. Null means that something was dropped or
    // the terminator is.
    method CStr() returns (where: Option<nat>)
      requires Honest()
      modifies parent`size, parent`grants, parent.buffer
      ensures Honest() && parent.Kept() && (where.Some? ==> where.value == start && !dropped)
      ensures where.None? <==> old(parent.size) >= parent.buffer.Length
      ensures parent.size == old(parent.size) + if where.Some? then 1 else 0
      ensures old(Building()) && where.Some? ==>
                && start + |text| < parent.buffer.Length
                && parent.buffer[start..start + |text|] == text && parent.buffer[start + |text|] == '\0'
                && parent.grants == old(parent.grants) + [Built(Region(0, start, |text| + 1), text + ['\0'])]
      ensures !(old(Building()) && where.Some?) ==> parent.grants == old(parent.grants)
    {
      hide StaticBuffer.Valid;
      if !parent.CanAlloc(1) {
        return None;
      }
      ghost var building := Building();
      var last := parent.Put('\0');
      where := Some(start);
      if building {
        Finish();
      }
    }

    // The terminator has just been written.
    ghost method Finish()
      requires parent.Valid() && start + |text| + 1 == parent.size <= parent.buffer.Length
      requires Reads(parent.buffer, start, text + ['\0'])
      requires forall k :: 0 <= k < |parent.grants| ==> Below(parent.grants[k])
      modifies parent`grants
      ensures parent.Valid()
      ensures parent.grants == old(parent.grants) + [Built(Region(0, start, |text| + 1), text + ['\0'])]
    {
      var g := Built(Region(0, start, |text| + 1), text + ['\0']);
      forall k | 0 <= k < |parent.grants|
        ensures Apart(parent.grants[k].place, g.place)
      {
        assert Below(parent.grants[k]);
      }
      parent.HandOut(g);
    }

    method AppendAll(s: string)
      requires Building()
      modifies this, parent`size, parent.buffer
      ensures Building() && text == old(text) + s && parent.Kept()
      ensures dropped <==> old(dropped) || (s != [] && old(parent.size) + |s| > parent.buffer.Length)
    {
      hide StaticBuffer.Valid, Building;
      BuildingIsHonest();
      for i := 0 to |s|
        invariant Building() && Honest() && text == old(text) + s[..i] && parent.Kept()
        invariant dropped <==> old(dropped) || (i > 0 && old(parent.size) + i > parent.buffer.Length)
        invariant dropped || parent.size == old(parent.size) + i
      {
        Append(s[i]);
      }
      assert s[..|s|] == s;
    }

    lemma BuildingIsHonest()
      requires Building()
      ensures Honest()
    {
    }
  }

  // ---- whole runs ------------------------------------------------------------------------------------------------

  datatype Step = Request(bytes: nat) | Text(chars: string)

  ghost predicate Small(step: Step)
  {
    match step
    case Request(bytes) => bytes < 0x8000_0000
    case Text(chars) => |chars| < 0x8000_0000 - 2
  }

  // A region of that size, or the string with its terminator.
  ghost predicate Fulfils(step: Step, g: Grant)
  {
    match step
    case Request(bytes) => g.Allocated? && g.place.length == bytes
    case Text(chars) => g.Built? && g.chars == chars + ['\0']
  }

  ghost predicate Answered(steps: seq<Step>, answers: seq<Option<Grant>>)
  {
    |answers| == |steps| && forall i :: 0 <= i < |steps| && answers[i].Some? ==> Fulfils(steps[i], answers[i].value)
  }

  ghost function Granted(answers: seq<Option<Grant>>): seq<Grant>
  {
    if answers == [] then []
    else
      var last := answers[|answers| - 1];
      Granted(answers[..|answers| - 1]) + if last.Some? then [last.value] else []
  }

  lemma OneAnswerMore(steps: seq<Step>, i: nat, answers: seq<Option<Grant>>, a: Option<Grant>)
    requires i < |steps| && Answered(steps[..i], answers) && (a.Some? ==> Fulfils(steps[i], a.value))
    ensures Answered(steps[..i + 1], answers + [a])
    ensures Granted(answers + [a]) == Granted(answers) + if a.Some? then [a.value] else []
  {
    hide Fulfils;
    assert (answers + [a])[..|answers|] == answers;
  }

  // A string built from beginning to end, across every relocation.
  method BuildText(buffer: DynamicBuffer, s: string) returns (where: Option<(nat, nat)>, ghost g: Option<Grant>)
    requires buffer.Valid() && |s| < 0x8000_0000 - 2
    modifies buffer, if buffer.blocks == [] then {} else {buffer.Head(), buffer.Head().data}
    ensures buffer.Valid() && buffer.OnlyGrew() && buffer.initial == old(buffer.initial)
    ensures buffer.refusals >= old(buffer.refusals) && (g.None? <==> buffer.refusals > old(buffer.refusals))
    ensures buffer.grants == old(buffer.grants) + if g.Some? then [g.value] else []
    ensures g.Some? ==>
              && Fulfils(Text(s), g.value) && where == Some((g.value.place.block, g.value.place.start))
              && where.value.0 < |buffer.blocks| && where.value.1 + |s| + 1 <= buffer.blocks[where.value.0].data.Length
              && buffer.blocks[where.value.0].data[where.value.1..where.value.1 + |s| + 1] == s + ['\0']
  {
    hide DynamicBuffer.Valid, TextBuilder.Building;
    var text := new TextBuilder(buffer);
    where := text.Write(s);
    assert old(buffer.grants) + [] == old(buffer.grants);
    g := if text.lost then None else Some(Built(Region(where.value.0, where.value.1, |s| + 1), s + ['\0']));
  }

  /** Any sequence of allocations and string building: when it is over, everything given out before and during the run is
      still sound and apart from everything else, and only malloc has kept anything from being given. */
  method Run(buffer: DynamicBuffer, steps: seq<Step>) returns (ghost answers: seq<Option<Grant>>)
    requires buffer.Valid() && forall i :: 0 <= i < |steps| ==> Small(steps[i])
    modifies buffer, if buffer.blocks == [] then {} else {buffer.Head(), buffer.Head().data}
    ensures buffer.Valid() && buffer.OnlyGrew() && buffer.initial == old(buffer.initial)
    ensures Answered(steps, answers) && buffer.grants == old(buffer.grants) + Granted(answers)
    ensures buffer.refusals == old(buffer.refusals) <==> None !in answers
  {
    hide DynamicBuffer.Valid, Granted, Fulfils, Answered;
    answers := [];
    NothingAnswered();
    for i := 0 to |steps|
      invariant buffer.Valid() && buffer.OnlyGrew() && buffer.initial == old(buffer.initial)
      invariant Answered(steps[..i], answers) && buffer.grants == old(buffer.grants) + Granted(answers)
      invariant buffer.refusals >= old(buffer.refusals)
      invariant buffer.refusals == old(buffer.refusals) <==> None !in answers
    {
      ghost var a := DoStep(buffer, steps[i]);
      OneAnswerMore(steps, i, answers, a);
      answers := answers + [a];
    }
    assert steps[..|steps|] == steps;
  }

  lemma NothingAnswered()
    ensures Answered([], []) && Granted([]) == []
  {
  }

  method DoStep(buffer: DynamicBuffer, step: Step) returns (ghost a: Option<Grant>)
    requires buffer.Valid() && Small(step)
    modifies buffer, if buffer.blocks == [] then {} else {buffer.Head(), buffer.Head().data}
    ensures buffer.Valid() && buffer.OnlyGrew() && buffer.initial == old(buffer.initial)
    ensures buffer.refusals >= old(buffer.refusals) && (a.None? <==> buffer.refusals > old(buffer.refusals))
    ensures a.Some? ==> Fulfils(step, a.value)
    ensures buffer.grants == old(buffer.grants) + if a.Some? then [a.value] else []
  {
    hide DynamicBuffer.Valid;
    match step {
      case Request(bytes) =>
        var r := buffer.Alloc(bytes);
        a := if r.Some? then Some(Allocated(r.value)) else None;
      case Text(chars) =>
        var _, g := BuildText(buffer, chars);
        a := g;
    }
  }

  // What the invariant says of a dynamic arena after any run.
  lemma EverythingSoundAndApart(buffer: DynamicBuffer)
    requires buffer.Valid()
    ensures forall g :: g in buffer.grants ==>
              && g.place.block < |buffer.blocks|
              && g.place.start + g.place.length <= buffer.blocks[g.place.block].data.Length
              && (g.Allocated? ==> g.place.start % 4 == 0)
              && (g.Built? ==> buffer.blocks[g.place.block].data[g.place.start..g.place.start + g.place.length] == g.chars)
    ensures forall k, l :: 0 <= k < l < |buffer.grants| ==> Apart(buffer.grants[k].place, buffer.grants[l].place)
    ensures TotalCapacity(buffer.blocks) >= buffer.initial * (Pow2(|buffer.blocks|) - 1)
  {
    CapacityDoubles(buffer.blocks, buffer.initial);
    hide DoubledEachTime, Distinct, Doubled, Apart;
    forall g | g in buffer.grants
      ensures buffer.SoundGrant(g)
    {
      var k :| 0 <= k < |buffer.grants| && buffer.grants[k] == g;
      assert buffer.SoundGrant(buffer.grants[k]);
    }
  }

  // An allocation after a finished string stays off it, and the string still reads as it did.
  method AllocAfterText(buffer: DynamicBuffer, s: string, bytes: nat)
    returns (where: Option<(nat, nat)>, r: Option<Region>)
    requires buffer.Valid() && |s| < 0x8000_0000 - 2 && bytes < 0x8000_0000
    modifies buffer, if buffer.blocks == [] then {} else {buffer.Head(), buffer.Head().data}
    ensures buffer.Valid() && buffer.OnlyGrew()
    ensures buffer.refusals == old(buffer.refusals) ==>
              && where.Some? && r.Some? && Apart(Region(where.value.0, where.value.1, |s| + 1), r.value)
              && where.value.0 < |buffer.blocks| && where.value.1 + |s| + 1 <= buffer.blocks[where.value.0].data.Length
              && buffer.blocks[where.value.0].data[where.value.1..where.value.1 + |s| + 1] == s + ['\0']
  {
    hide DynamicBuffer.Valid, Apart;
    ghost var g;
    where, g := BuildText(buffer, s);
    r := buffer.Alloc(bytes);
    EverythingSoundAndApart(buffer);
    if g.Some? && r.Some? {
      var n := |buffer.grants|;
      assert buffer.grants[n - 2] == g.value && buffer.grants[n - 1] == Allocated(r.value);
      assert g.value in buffer.grants;
    }
  }

  // A string on the fixed arena: given out if and only if it fits with its terminator, and otherwise refused.
  method BuildStaticText(buffer: StaticBuffer, s: string) returns (where: Option<nat>, ghost g: Option<Grant>)
    requires buffer.Valid()
    modifies buffer, buffer.buffer
    ensures buffer.Valid() && buffer.Kept() && (where.Some? <==> g.Some?)
    ensures where.Some? <==> old(buffer.size) + |s| + 1 <= buffer.buffer.Length
    ensures buffer.grants == old(buffer.grants) + if g.Some? then [g.value] else []
    ensures g.Some? ==>
              && Fulfils(Text(s), g.value) && where == Some(g.value.place.start) && where.value == old(buffer.size)
              && where.value + |s| < buffer.buffer.Length
              && buffer.buffer[where.value..where.value + |s|] == s && buffer.buffer[where.value + |s|] == '\0'
  {
    var text := new StaticTextBuilder(buffer);
    text.AppendAll(s);
    where := text.CStr();
    assert text.text == s;
    assert old(buffer.grants) + [] == old(buffer.grants);
    g := if where.None? then None else Some(Built(Region(0, where.value, |s| + 1), s + ['\0']));
  }

  // The same for any sequence on the fixed arena.
  method RunStatic(buffer: StaticBuffer, steps: seq<Step>) returns (ghost answers: seq<Option<Grant>>)
    requires buffer.Valid() && forall i :: 0 <= i < |steps| ==> Small(steps[i])
    modifies buffer, buffer.buffer
    ensures buffer.Valid() && buffer.Kept()
    ensures Answered(steps, answers) && buffer.grants == old(buffer.grants) + Granted(answers)
  {
    hide StaticBuffer.Valid, Granted, Fulfils, Answered;
    answers := [];
    NothingAnswered();
    for i := 0 to |steps|
      invariant buffer.Valid() && buffer.Kept()
      invariant Answered(steps[..i], answers) && buffer.grants == old(buffer.grants) + Granted(answers)
    {
      ghost var a := DoStaticStep(buffer, steps[i]);
      OneAnswerMore(steps, i, answers, a);
      answers := answers + [a];
    }
    assert steps[..|steps|] == steps;
  }

  method DoStaticStep(buffer: StaticBuffer, step: Step) returns (ghost a: Option<Grant>)
    requires buffer.Valid() && Small(step)
    modifies buffer, buffer.buffer
    ensures buffer.Valid() && buffer.Kept() && (a.Some? ==> Fulfils(step, a.value))
    ensures buffer.grants == old(buffer.grants) + if a.Some? then [a.value] else []
    ensures a.Some? <==> match step
                         case Request(bytes) => RoomFor(old(buffer.size), bytes, buffer.buffer.Length)
                         case Text(chars) => old(buffer.size) + |chars| + 1 <= buffer.buffer.Length
  {
    hide StaticBuffer.Valid;
    match step {
      case Request(bytes) =>
        var r := buffer.Alloc(bytes);
        a := if r.Some? then Some(Allocated(r.value)) else None;
      case Text(chars) =>
        var _, g := BuildStaticText(buffer, chars);
        a := g;
    }
  }
}
