/** The value trees of agenttypesystem.c: deep copy and destruction, with every block of storage accounted for. A tree is
    a value that carries the addresses of the blocks it lives in; the heap knows which addresses are live. */
module ValueTrees {
  import opened Basics

  type Addr = nat

  // Text stands for decimals and the two kinds of string, which own one block each. Unsupported stands for durations,
  // streams, times of day and the geography and geometry types.
  datatype Value =
    | NoType
    | NullType
    | Scalar(tag: nat, payload: int)
    | Unsupported(tag: nat)
    | Text(tag: nat, block: Addr, chars: string)
    | Binary(data: Option<Addr>, bytes: seq<int>)
    | Complex(fields: Addr, slots: seq<Slot>)

  // A COMPLEX_TYPE_FIELD_TYPE, either of whose pointers may still be NULL.
  datatype Slot = Slot(name: Option<Name>, cell: Option<Cell>)
  datatype Name = Name(block: Addr, text: string)
  datatype Cell = Cell(block: Addr, value: Value)

  datatype Code = Ok | Error | InvalidArg | NotImplemented

  class Heap {
    var live: set<Addr>
    ghost var failures: nat

    constructor ()
      ensures live == {} && failures == 0
    {
      live, failures := {}, 0;
    }

    method Malloc() returns (p: Option<Addr>)
      modifies this
      ensures p.Some? ==> p.value !in old(live) && live == old(live) + {p.value} && failures == old(failures)
      ensures p.None? ==> live == old(live) && failures == old(failures) + 1
    {
      var refused: bool := *;
      if refused {
        failures := failures + 1;
        return None;
      }
      SomeAddressIsFree(live);
      var a: Addr :| a !in live;
      live := live + {a};
      p := Some(a);
    }

    // Freeing anything but a live block is what the callers have to rule out.
    method Free(a: Addr)
      requires a in live
      modifies this`live
      ensures live == old(live) - {a}
    {
      live := live - {a};
    }

    // free as C has it: nothing happens for a null pointer.
    method FreeIfAny(a: Option<Addr>)
      requires a.Some? ==> a.value in live
      modifies this`live
      ensures live == old(live) - Blocks(a)
    {
      if a.Some? {
        Free(a.value);
      }
    }
  }

  lemma {:induction false} SomeAddressIsFree(s: set<Addr>)
    ensures exists a: Addr :: a !in s
  {
    var bound := Bound(s);
    assert bound !in s;
  }

  lemma {:induction false} Bound(s: set<Addr>) returns (b: nat)
    ensures forall a :: a in s ==> a < b
  {
    if s == {} {
      b := 0;
    } else {
      var x :| x in s;
      var c := Bound(s - {x});
      b := if x < c then c else x + 1;
      assert forall a :: a in s ==> a == x || a in s - {x};
    }
  }

  // ---- ownership -------------------------------------------------------------------------------------------------

  function Blocks(a: Option<Addr>): set<Addr>
  {
    if a.Some? then {a.value} else {}
  }

  // The blocks that destroying a value has to free.
  ghost function Owned(v: Value): set<Addr>
    decreases v, 1, 0
  {
    match v
    case Text(_, block, _) => {block}
    case Binary(data, _) => Blocks(data)
    case Complex(fields, slots) => {fields} + OwnedSlots(v, |slots|)
    case _ => {}
  }

  // Those of the first n members.
  ghost function OwnedSlots(v: Value, n: nat): set<Addr>
    requires v.Complex? && n <= |v.slots|
    decreases v, 0, n
  {
    if n == 0 then {} else OwnedSlots(v, n - 1) + OwnedSlot(v.slots[n - 1])
  }

  ghost function OwnedSlot(s: Slot): set<Addr>
    decreases s, 1
  {
    OwnedName(s) + OwnedCell(s)
  }

  ghost function OwnedName(s: Slot): set<Addr>
  {
    if s.name.Some? then {s.name.value.block} else {}
  }

  ghost function OwnedCell(s: Slot): set<Addr>
    decreases s, 0
  {
    if s.cell.Some? then {s.cell.value.block} + Owned(s.cell.value.value) else {}
  }

  // No block is owned twice.
  ghost predicate Separate(v: Value)
    decreases v, 1, 0
  {
    v.Complex? ==> v.fields !in OwnedSlots(v, |v.slots|) && SeparateSlots(v, |v.slots|)
  }

  ghost predicate SeparateSlots(v: Value, n: nat)
    requires v.Complex? && n <= |v.slots|
    decreases v, 0, n
  {
    n > 0 ==>
      && SeparateSlots(v, n - 1) && SeparateSlot(v.slots[n - 1])
      && OwnedSlots(v, n - 1) !! OwnedSlot(v.slots[n - 1])
  }

  ghost predicate SeparateSlot(s: Slot)
    decreases s, 0
  {
    && OwnedName(s) !! OwnedCell(s)
    && (s.cell.Some? ==> s.cell.value.block !in Owned(s.cell.value.value) && Separate(s.cell.value.value))
  }

  // ---- what a value says -----------------------------------------------------------------------------------------

  // The tree without its addresses.
  datatype Shape =
    | Plain(value: Value)
    | TextShape(tag: nat, chars: string)
    | BinaryShape(bytes: seq<int>)
    | ComplexShape(members: seq<(string, Shape)>)

  ghost predicate Complete(v: Value)
    decreases v, 1, 0
  {
    v.Complex? ==> forall i :: 0 <= i < |v.slots| ==> CompleteSlot(v.slots[i])
  }

  ghost predicate CompleteSlot(s: Slot)
    decreases s, 0
  {
    s.name.Some? && s.cell.Some? && Complete(s.cell.value.value)
  }

  ghost function ShapeOf(v: Value): Shape
    requires Complete(v)
    decreases v, 1, 0
  {
    match v
    case Text(tag, _, chars) => TextShape(tag, chars)
    case Binary(_, bytes) => BinaryShape(bytes)
    case Complex(_, slots) => ComplexShape(Members(v, |slots|))
    case _ => Plain(v)
  }

  ghost function Members(v: Value, n: nat): (m: seq<(string, Shape)>)
    requires v.Complex? && n <= |v.slots| && forall i :: 0 <= i < n ==> CompleteSlot(v.slots[i])
    ensures |m| == n
    decreases v, 0, n
  {
    if n == 0 then []
    else
      assert CompleteSlot(v.slots[n - 1]);
      Members(v, n - 1) + [(v.slots[n - 1].name.value.text, ShapeOf(v.slots[n - 1].cell.value.value))]
  }

  // Everything in it can be copied.
  ghost predicate Copyable(v: Value)
    requires Complete(v)
    decreases v, 1, 0
  {
    && !v.Unsupported?
    && (v.Complex? ==> v.slots != [] && CopyableSlots(v, |v.slots|))
  }

  ghost predicate CopyableSlots(v: Value, n: nat)
    requires v.Complex? && n <= |v.slots| && Complete(v)
    decreases v, 0, n
  {
    n > 0 ==>
      assert CompleteSlot(v.slots[n - 1]);
      CopyableSlots(v, n - 1) && Copyable(v.slots[n - 1].cell.value.value)
  }

  // ---- destruction -----------------------------------------------------------------------------------------------

  // Destroy_AGENT_DATA_TYPE: frees exactly what the value owns, and nothing the second time.
  method Destroy(heap: Heap, v: Value) returns (after: Value)
    requires Owned(v) <= heap.live && Separate(v)
    modifies heap`live
    ensures heap.live == old(heap.live) - Owned(v)
    ensures after == NoType
    decreases v, 1, 0
  {
    match v {
      case Text(_, block, _) => heap.Free(block);
      case Binary(data, _) => heap.FreeIfAny(data);
      case Complex(fields, slots) =>
        var i := 0;
        while i < |slots|
          invariant i <= |slots| && heap.live == old(heap.live) - OwnedSlots(v, i)
        {
          StillOwned(v, i, old(heap.live));
          DestroySlot(heap, slots[i]);
          i := i + 1;
        }
        heap.Free(fields);
      case _ =>
    }
    after := NoType;
  }

  method DestroySlot(heap: Heap, s: Slot)
    requires OwnedSlot(s) <= heap.live && SeparateSlot(s)
    modifies heap`live
    ensures heap.live == old(heap.live) - OwnedSlot(s)
    decreases s, 0
  {
    if s.name.Some? {
      heap.Free(s.name.value.block);
    }
    if s.cell.Some? {
      var _ := Destroy(heap, s.cell.value.value);
      heap.Free(s.cell.value.block);
    }
  }

  // The members that are left when the first i are gone.
  lemma StillOwned(v: Value, i: nat, live: set<Addr>)
    requires v.Complex? && i < |v.slots| && Separate(v) && Owned(v) <= live
    ensures OwnedSlot(v.slots[i]) <= live - OwnedSlots(v, i) && SeparateSlot(v.slots[i])
    ensures v.fields !in OwnedSlots(v, i) + OwnedSlot(v.slots[i])
  {
    hide OwnedSlot, SeparateSlot;
    SlotsWithin(v, i + 1, |v.slots|);
  }

  lemma {:induction false} SlotsWithin(v: Value, i: nat, n: nat)
    requires v.Complex? && i <= n <= |v.slots|
    ensures OwnedSlots(v, i) <= OwnedSlots(v, n)
    ensures SeparateSlots(v, n) ==> SeparateSlots(v, i)
    decreases n
  {
    if i < n {
      SlotsWithin(v, i, n - 1);
    }
  }

  // ---- deep copy -------------------------------------------------------------------------------------------------

  // A copy as it should be: all its blocks are new, and no two the same.
  ghost predicate NewTree(v: Value, before: set<Addr>, after: set<Addr>)
  {
    Separate(v) && Owned(v) !! before && after == before + Owned(v)
  }

  // Create_AGENT_DATA_TYPE_from_AGENT_DATA_TYPE. Whatever allocations fail, a failed copy leaves the heap as it was;
  // and when none fails, the copy succeeds exactly for what can be copied.
  method Copy(heap: Heap, src: Value) returns (result: Code, dest: Value)
    requires Complete(src)
    modifies heap
    ensures result == Ok ==> Complete(dest) && ShapeOf(dest) == ShapeOf(src) && NewTree(dest, old(heap.live), heap.live)
    ensures result != Ok ==> dest == NoType && heap.live == old(heap.live)
    ensures heap.failures >= old(heap.failures)
    ensures result == Ok <==> Copyable(src) && heap.failures == old(heap.failures)
    ensures result == NotImplemented <==> src.Unsupported?
    ensures result == InvalidArg <==> src.Complex? && src.slots == []
    decreases src, 1, 0
  {
    dest := NoType;
    match src {
      case NoType => return Ok, src;
      case NullType => return Ok, src;
      case Scalar(_, _) => return Ok, src;
      case Unsupported(_) => return NotImplemented, NoType;
      case Text(tag, _, chars) =>
        var p := heap.Malloc();
        if p.None? {
          return Error, NoType;
        }
        return Ok, Text(tag, p.value, chars);
      case Binary(_, bytes) =>
        if bytes == [] {
          return Ok, Binary(None, []);
        }
        var p := heap.Malloc();
        if p.None? {
          return Error, NoType;
        }
        return Ok, Binary(p, bytes);
      case Complex(_, slots) =>
        if slots == [] {
          return InvalidArg, NoType;
        }
        result, dest := CopyComplex(heap, src);
    }
  }

  // The members of the half-built copy d that have been copied, the first n, and nothing after them.
  ghost predicate CopiedTo(src: Value, d: Value, n: nat)
    requires src.Complex? && Complete(src)
  {
    && d.Complex? && |d.slots| == |src.slots| && n <= |src.slots|
    && (forall i :: 0 <= i < n ==> CompleteSlot(d.slots[i]))
    && (forall i :: n <= i < |d.slots| ==> d.slots[i] == Slot(None, None))
    && CopyableSlots(src, n)
    && Members(d, n) == SourceMembers(src, n)
  }

  ghost function SourceMembers(v: Value, n: nat): seq<(string, Shape)>
    requires v.Complex? && Complete(v) && n <= |v.slots|
  {
    assert forall i :: 0 <= i < n ==> CompleteSlot(v.slots[i]);
    Members(v, n)
  }

  // Lines 2686 to 2758.
  method CopyComplex(heap: Heap, src: Value) returns (result: Code, dest: Value)
    requires Complete(src) && src.Complex? && src.slots != []
    modifies heap
    ensures result == Ok ==> Complete(dest) && ShapeOf(dest) == ShapeOf(src) && NewTree(dest, old(heap.live), heap.live)
    ensures result != Ok ==> dest == NoType && heap.live == old(heap.live)
    ensures heap.failures >= old(heap.failures)
    ensures result == Ok <==> Copyable(src) && heap.failures == old(heap.failures)
    ensures result == Ok || result == Error
    decreases src, 0, |src.slots| + 2
  {
    hide NewTree, Copyable, Complete, ShapeOf;
    var p := heap.Malloc();
    if p.None? {
      return Error, NoType;
    }
    result, dest := CopyMembers(heap, src, p.value, old(heap.live));
    NewTreeGone(dest, old(heap.live), heap.live);
    if result != Ok {
      DestroyHalfBaked(heap, dest);
      dest := NoType;
    }
  }

  // The loop of lines 2708 to 2748, in the block p: it stops at the first failure and leaves what it has built.
  method CopyMembers(heap: Heap, src: Value, p: Addr, ghost before: set<Addr>) returns (result: Code, dest: Value)
    requires Complete(src) && src.Complex? && src.slots != []
    requires p !in before && heap.live == before + {p}
    modifies heap
    ensures result == Ok || result == Error
    ensures dest.Complex? && dest.fields == p && NewTree(dest, before, heap.live)
    ensures result == Ok ==> Complete(dest) && ShapeOf(dest) == ShapeOf(src)
    ensures heap.failures >= old(heap.failures)
    ensures result == Ok <==> Copyable(src) && heap.failures == old(heap.failures)
    decreases src, 0, |src.slots| + 1
  {
    hide Separate, SeparateSlot, OwnedSlot, Owned, Copyable, CopiedTo, NewTree;
    var empty := Slot(None, None);
    dest := Complex(p, seq(|src.slots|, i => empty));
    NothingCopied(src, dest, before);
    result := Ok;
    var i := 0;
    while i < |src.slots| && result == Ok
      invariant i <= |src.slots| && dest.Complex? && dest.fields == p && |dest.slots| == |src.slots|
      invariant heap.failures >= old(heap.failures) && (result == Ok || result == Error)
      invariant result == Ok ==> CopiedTo(src, dest, i) && (i < |src.slots| ==> dest.slots[i] == empty)
      invariant result == Ok ==> heap.failures == old(heap.failures)
      invariant result == Error ==> heap.failures > old(heap.failures) || !Copyable(src)
      invariant NewTree(dest, before, heap.live)
    {
      assert CompleteSlot(src.slots[i]);
      var slot;
      ghost var was, between := dest, heap.live;
      result, slot := CopySlot(heap, src.slots[i]);
      dest := Complex(p, dest.slots[i := slot]);
      PutInTree(was, dest, i, slot, before, between);
      PutCopied(src, was, dest, i, slot, result == Ok);
      i := i + 1;
    }
    if result == Ok {
      AllCopied(src, dest);
    }
  }

  lemma NewTreeGone(v: Value, before: set<Addr>, after: set<Addr>)
    requires NewTree(v, before, after)
    ensures Separate(v) && Owned(v) <= after && after - Owned(v) == before
  {
  }

  lemma AllCopied(src: Value, d: Value)
    requires src.Complex? && Complete(src) && src.slots != [] && CopiedTo(src, d, |src.slots|)
    ensures Complete(d) && ShapeOf(d) == ShapeOf(src) && Copyable(src)
  {
  }

  lemma NothingCopied(src: Value, d: Value, before: set<Addr>)
    requires src.Complex? && Complete(src) && d.Complex? && |d.slots| == |src.slots| && d.fields !in before
    requires forall i :: 0 <= i < |d.slots| ==> d.slots[i] == Slot(None, None)
    ensures CopiedTo(src, d, 0) && NewTree(d, before, before + {d.fields})
  {
    NothingOwned(d, |d.slots|);
  }

  lemma {:induction false} NothingOwned(d: Value, n: nat)
    requires d.Complex? && n <= |d.slots| && forall i :: 0 <= i < |d.slots| ==> d.slots[i] == Slot(None, None)
    ensures OwnedSlots(d, n) == {} && SeparateSlots(d, n)
  {
    if n > 0 {
      NothingOwned(d, n - 1);
    }
  }

  lemma PutInTree(was: Value, d: Value, i: nat, slot: Slot, before: set<Addr>, between: set<Addr>)
    requires was.Complex? && i < |was.slots| && was.slots[i] == Slot(None, None)
    requires d == Complex(was.fields, was.slots[i := slot])
    requires NewTree(was, before, between) && SeparateSlot(slot) && OwnedSlot(slot) !! between
    ensures NewTree(d, before, between + OwnedSlot(slot))
  {
    hide OwnedSlot, SeparateSlot;
    PutOwned(was, d, i, slot, |was.slots|);
  }

  lemma {:induction false} PutOwned(was: Value, d: Value, i: nat, slot: Slot, n: nat)
    requires was.Complex? && i < |was.slots| && was.slots[i] == Slot(None, None)
    requires d == Complex(was.fields, was.slots[i := slot]) && n <= |was.slots|
    requires SeparateSlots(was, n) && SeparateSlot(slot) && OwnedSlot(slot) !! OwnedSlots(was, n)
    ensures OwnedSlots(d, n) == OwnedSlots(was, n) + if i < n then OwnedSlot(slot) else {}
    ensures SeparateSlots(d, n)
  {
    hide SeparateSlot;
    if n > 0 {
      PutOwned(was, d, i, slot, n - 1);
    }
  }

  lemma PutCopied(src: Value, was: Value, d: Value, i: nat, slot: Slot, ok: bool)
    requires src.Complex? && Complete(src) && CopiedTo(src, was, i) && i < |src.slots|
    requires d == Complex(was.fields, was.slots[i := slot])
    requires CompleteSlot(src.slots[i])
    requires ok ==> SlotCopied(src.slots[i], slot) && Copyable(src.slots[i].cell.value.value)
    ensures ok ==> CopiedTo(src, d, i + 1)
    ensures !ok && !Copyable(src.slots[i].cell.value.value) ==> !Copyable(src)
  {
    SameMembers(was, d, i);
    if CopyableSlots(src, |src.slots|) {
      CopyableMember(src, i, |src.slots|);
    }
  }

  lemma {:induction false} CopyableMember(src: Value, i: nat, n: nat)
    requires src.Complex? && Complete(src) && i < n <= |src.slots| && CopyableSlots(src, n)
    ensures CompleteSlot(src.slots[i]) && Copyable(src.slots[i].cell.value.value)
    decreases n
  {
    if i < n - 1 {
      CopyableMember(src, i, n - 1);
    }
  }

  lemma {:induction false} SameMembers(was: Value, d: Value, n: nat)
    requires was.Complex? && d.Complex? && n <= |was.slots| == |d.slots|
    requires forall k :: 0 <= k < n ==> CompleteSlot(was.slots[k]) && d.slots[k] == was.slots[k]
    ensures Members(d, n) == Members(was, n)
  {
    if n > 0 {
      SameMembers(was, d, n - 1);
    }
  }

  // Lines 2717 to 2747: one member's name and value.
  method CopySlot(heap: Heap, from: Slot) returns (result: Code, slot: Slot)
    requires CompleteSlot(from)
    modifies heap
    ensures result == Ok || result == Error
    ensures result == Ok ==>
              SlotCopied(from, slot) && Copyable(from.cell.value.value) && heap.failures == old(heap.failures)
    ensures result == Error ==> heap.failures > old(heap.failures) || !Copyable(from.cell.value.value)
    ensures heap.failures >= old(heap.failures)
    ensures SeparateSlot(slot) && OwnedSlot(slot) !! old(heap.live) && heap.live == old(heap.live) + OwnedSlot(slot)
    decreases from, 0
  {
    slot := Slot(None, None);
    var nameBlock := heap.Malloc();
    if nameBlock.None? {
      return Error, slot;
    }
    slot := Slot(Some(Name(nameBlock.value, from.name.value.text)), None);
    var cellBlock := heap.Malloc();
    if cellBlock.None? {
      return Error, slot;
    }
    var code, value := Copy(heap, from.cell.value.value);
    slot := Slot(slot.name, Some(Cell(cellBlock.value, value)));
    result := if code != Ok then Error else Ok;
  }

  ghost predicate SlotCopied(from: Slot, to: Slot)
    requires CompleteSlot(from)
  {
    && CompleteSlot(to) && to.name.value.text == from.name.value.text
    && ShapeOf(to.cell.value.value) == ShapeOf(from.cell.value.value)
  }

  // DestroyHalfBakedComplexType: like destruction, but members may be missing.
  method DestroyHalfBaked(heap: Heap, v: Value)
    requires v.Complex? && Owned(v) <= heap.live && Separate(v)
    modifies heap`live
    ensures heap.live == old(heap.live) - Owned(v)
  {
    var i := 0;
    while i < |v.slots|
      invariant i <= |v.slots| && heap.live == old(heap.live) - OwnedSlots(v, i)
    {
      StillOwned(v, i, old(heap.live));
      DestroySlot(heap, v.slots[i]);
      i := i + 1;
    }
    heap.Free(v.fields);
  }

  // ---- copy, then destroy ----------------------------------------------------------------------------------------

  // Destroying a copy undoes copying it, to the last block, and the source's blocks were never touched.
  method CopyAndDestroy(heap: Heap, src: Value) returns (result: Code)
    requires Complete(src) && Owned(src) <= heap.live
    modifies heap
    ensures heap.live == old(heap.live)
  {
    var dest;
    result, dest := Copy(heap, src);
    if result == Ok {
      var _ := Destroy(heap, dest);
    }
  }

  // ---- several values side by side -------------------------------------------------------------------------------

  ghost function OwnedAll(vs: seq<Value>): set<Addr>
  {
    if vs == [] then {} else OwnedAll(vs[..|vs| - 1]) + Owned(vs[|vs| - 1])
  }

  ghost predicate SeparateAll(vs: seq<Value>)
  {
    vs != [] ==>
      && SeparateAll(vs[..|vs| - 1]) && Separate(vs[|vs| - 1])
      && OwnedAll(vs[..|vs| - 1]) !! Owned(vs[|vs| - 1])
  }

  // So many new trees, one after the other.
  ghost predicate NewTrees(vs: seq<Value>, before: set<Addr>, after: set<Addr>)
  {
    SeparateAll(vs) && OwnedAll(vs) !! before && after == before + OwnedAll(vs)
  }

  lemma OneMoreTree(vs: seq<Value>, v: Value, before: set<Addr>, between: set<Addr>, after: set<Addr>)
    requires NewTrees(vs, before, between) && NewTree(v, between, after)
    ensures NewTrees(vs + [v], before, after)
  {
    hide Separate, Owned;
    assert (vs + [v])[..|vs|] == vs;
  }

  lemma {:induction false} FirstOwned(vs: seq<Value>, k: nat)
    requires k < |vs| && SeparateAll(vs)
    ensures Separate(vs[k]) && Owned(vs[k]) <= OwnedAll(vs) && OwnedAll(vs[..k + 1]) <= OwnedAll(vs)
    ensures OwnedAll(vs[..k + 1]) == OwnedAll(vs[..k]) + Owned(vs[k]) && OwnedAll(vs[..k]) !! Owned(vs[k])
    decreases |vs|
  {
    hide Separate, Owned;
    if k < |vs| - 1 {
      var front := vs[..|vs| - 1];
      FirstOwned(front, k);
      assert front[..k + 1] == vs[..k + 1] && front[..k] == vs[..k];
    } else {
      assert vs[..k + 1] == vs;
    }
  }

  // The loops that destroy the first values of an array.
  method DestroyAll(heap: Heap, vs: seq<Value>, ghost before: set<Addr>)
    requires NewTrees(vs, before, heap.live)
    modifies heap`live
    ensures heap.live == before
  {
    hide Separate, Owned;
    var k := 0;
    assert vs[..0] == [];
    while k < |vs|
      invariant k <= |vs| && heap.live == before + (OwnedAll(vs) - OwnedAll(vs[..k]))
    {
      FirstOwned(vs, k);
      var _ := Destroy(heap, vs[k]);
      k := k + 1;
    }
    assert vs[..k] == vs;
  }

  // ---- composing a value from members ----------------------------------------------------------------------------

  ghost predicate NoTwoSame(names: seq<string>)
  {
    forall i, j :: 0 <= i < j < |names| ==> names[i] != names[j]
  }

  // areThereTwoSameNames; the number of names is not zero, or the outer loop would not end at its start.
  method TwoSameNames(names: seq<string>) returns (found: bool)
    requires names != []
    ensures found <==> !NoTwoSame(names)
  {
    found := false;
    var i := 0;
    while i < |names| - 1
      invariant i <= |names| - 1
      invariant forall a, b :: 0 <= a < i && a < b < |names| ==> names[a] != names[b]
    {
      var j := i + 1;
      while j < |names|
        invariant i < j <= |names| && forall b :: i < b < j ==> names[i] != names[b]
      {
        if names[i] == names[j] {
          return true;
        }
        j := j + 1;
      }
      i := i + 1;
    }
  }

  // The members as the copying loop sees them; their own addresses do not matter to it.
  function Gathered(names: seq<string>, values: seq<Value>): Value
    requires |names| == |values|
  {
    Complex(0, seq(|names|, i requires 0 <= i < |names| => Slot(Some(Name(0, names[i])), Some(Cell(0, values[i])))))
  }

  ghost predicate AllComplete(values: seq<Value>)
  {
    forall i :: 0 <= i < |values| ==> Complete(values[i])
  }

  ghost predicate AllCopyable(values: seq<Value>)
    requires AllComplete(values)
  {
    forall i :: 0 <= i < |values| ==> Copyable(values[i])
  }

  ghost function Shapes(names: seq<string>, values: seq<Value>): seq<(string, Shape)>
    requires |names| == |values| && AllComplete(values)
  {
    if names == [] then []
    else Shapes(names[..|names| - 1], values[..|names| - 1]) + [(names[|names| - 1], ShapeOf(values[|names| - 1]))]
  }

  lemma GatheredIs(names: seq<string>, values: seq<Value>)
    requires |names| == |values| && AllComplete(values)
    ensures Complete(Gathered(names, values))
    ensures ShapeOf(Gathered(names, values)) == ComplexShape(Shapes(names, values))
    ensures Copyable(Gathered(names, values)) <==> names != [] && AllCopyable(values)
  {
    GatheredMembers(names, values, |names|);
    assert names[..|names|] == names && values[..|names|] == values;
  }

  lemma {:induction false} GatheredMembers(names: seq<string>, values: seq<Value>, n: nat)
    requires |names| == |values| && AllComplete(values) && n <= |names|
    ensures var g := Gathered(names, values);
            && (forall i :: 0 <= i < |names| ==> CompleteSlot(g.slots[i]))
            && Members(g, n) == Shapes(names[..n], values[..n])
            && (CopyableSlots(g, n) <==> AllCopyable(values[..n]))
  {
    if n > 0 {
      GatheredMembers(names, values, n - 1);
      assert values[..n] == values[..n - 1] + [values[n - 1]];
      assert names[..n][..n - 1] == names[..n - 1] && values[..n][..n - 1] == values[..n - 1];
    }
  }

  // Create_AGENT_DATA_TYPE_from_Members. Where copying a member fails, what has been copied stays allocated: the half-built
  // value has not been given its type yet, so that DestroyHalfBakedComplexType leaves it alone.
  method CreateFromMembers(heap: Heap, names: seq<string>, values: seq<Value>) returns (result: Code, dest: Value)
    requires |names| == |values| && AllComplete(values)
    modifies heap
    ensures result == Ok ==>
              && Complete(dest) && Copyable(dest) && ShapeOf(dest) == ComplexShape(Shapes(names, values))
              && NewTree(dest, old(heap.live), heap.live)
    ensures result == Ok <==>
            names != [] && NoTwoSame(names) && AllCopyable(values) && heap.failures == old(heap.failures)
    ensures result == InvalidArg <==> names == [] || !NoTwoSame(names)
    ensures result == Ok || result == InvalidArg || result == Error
    ensures heap.failures >= old(heap.failures) && old(heap.live) <= heap.live
    ensures result == InvalidArg ==> heap.live == old(heap.live)
  {
    hide NewTree, Copyable, Complete, ShapeOf, Owned, NoTwoSame, AllCopyable;
    if names == [] {
      return InvalidArg, NoType;
    }
    var same := TwoSameNames(names);
    if same {
      return InvalidArg, NoType;
    }
    var p := heap.Malloc();
    if p.None? {
      return Error, NoType;
    }
    var src := Gathered(names, values);
    GatheredIs(names, values);
    result, dest := CopyMembers(heap, src, p.value, old(heap.live));
    NewTreeGone(dest, old(heap.live), heap.live);
    if result == Ok {
      SameShapeCopyable(src, dest);
    }
  }

  // Whether a value can be copied shows in its shape.
  lemma {:induction false} SameShapeCopyable(v: Value, w: Value)
    requires Complete(v) && Complete(w) && ShapeOf(v) == ShapeOf(w)
    ensures Copyable(v) ==> Copyable(w)
    decreases v, 1, 0
  {
    if v.Complex? && Copyable(v) {
      SameMembersCopyable(v, w, |v.slots|);
    }
  }

  lemma {:induction false} SameMembersCopyable(v: Value, w: Value, n: nat)
    requires v.Complex? && w.Complex? && Complete(v) && Complete(w) && n <= |v.slots| && n <= |w.slots|
    requires Members(v, n) == Members(w, n) && CopyableSlots(v, n)
    ensures CopyableSlots(w, n)
    decreases v, 0, n
  {
    if n > 0 {
      assert CompleteSlot(v.slots[n - 1]) && CompleteSlot(w.slots[n - 1]);
      assert Members(v, n)[..n - 1] == Members(w, n)[..n - 1];
      assert Members(v, n)[n - 1] == Members(w, n)[n - 1];
      SameMembersCopyable(v, w, n - 1);
      SameShapeCopyable(v.slots[n - 1].cell.value.value, w.slots[n - 1].cell.value.value);
    }
  }

  // ---- what shape and ownership amount to ------------------------------------------------------------------------

  // The same value, at whatever addresses.
  ghost predicate SameButAddresses(v: Value, w: Value)
    decreases v, 1
  {
    match v
    case Text(tag, _, chars) => w.Text? && w.tag == tag && w.chars == chars
    case Binary(_, bytes) => w.Binary? && w.bytes == bytes
    case Complex(_, slots) =>
      w.Complex? && |w.slots| == |slots| && forall i :: 0 <= i < |slots| ==> SameSlot(slots[i], w.slots[i])
    case _ => v == w
  }

  ghost predicate SameSlot(s: Slot, t: Slot)
    decreases s, 0
  {
    && s.name.Some? && t.name.Some? && s.name.value.text == t.name.value.text
    && s.cell.Some? && t.cell.Some? && SameButAddresses(s.cell.value.value, t.cell.value.value)
  }

  lemma {:induction false} ShapeTells(v: Value, w: Value)
    requires Complete(v) && Complete(w)
    ensures ShapeOf(v) == ShapeOf(w) <==> SameButAddresses(v, w)
    decreases v, 1
  {
    if v.Complex? && w.Complex? && |v.slots| == |w.slots| {
      var n := |v.slots|;
      forall i | 0 <= i < n
        ensures Members(v, n)[i] == Members(w, n)[i] <==> SameSlot(v.slots[i], w.slots[i])
      {
        SlotShapeTells(v, w, i);
      }
      hide ShapeOf, SameSlot, CompleteSlot;
    }
  }

  lemma {:induction false} MemberAt(v: Value, n: nat, i: nat)
    requires v.Complex? && Complete(v) && i < n <= |v.slots|
    ensures Members(v, n)[i] == (v.slots[i].name.value.text, ShapeOf(v.slots[i].cell.value.value))
    decreases n
  {
    if i < n - 1 {
      MemberAt(v, n - 1, i);
    }
  }

  lemma {:induction false} SlotShapeTells(v: Value, w: Value, i: nat)
    requires v.Complex? && w.Complex? && Complete(v) && Complete(w) && i < |v.slots| == |w.slots|
    ensures Members(v, |v.slots|)[i] == Members(w, |v.slots|)[i] <==> SameSlot(v.slots[i], w.slots[i])
    decreases v, 0
  {
    assert CompleteSlot(v.slots[i]) && CompleteSlot(w.slots[i]);
    MemberAt(v, |v.slots|, i);
    MemberAt(w, |v.slots|, i);
    ShapeTells(v.slots[i].cell.value.value, w.slots[i].cell.value.value);
  }

  // All addresses in a value, one after another.
  ghost function Addresses(v: Value): seq<Addr>
    decreases v, 1, 0
  {
    match v
    case Text(_, block, _) => [block]
    case Binary(Some(block), _) => [block]
    case Complex(fields, slots) => [fields] + SlotAddresses(v, |slots|)
    case _ => []
  }

  ghost function SlotAddresses(v: Value, n: nat): seq<Addr>
    requires v.Complex? && n <= |v.slots|
    decreases v, 0, n
  {
    if n == 0 then [] else SlotAddresses(v, n - 1) + InSlot(v.slots[n - 1])
  }

  ghost function InSlot(s: Slot): seq<Addr>
    decreases s, 1
  {
    (if s.name.Some? then [s.name.value.block] else [])
    + (if s.cell.Some? then [s.cell.value.block] + Addresses(s.cell.value.value) else [])
  }

  ghost predicate NoRepeats(a: seq<Addr>)
  {
    forall i, j :: 0 <= i < j < |a| ==> a[i] != a[j]
  }

  lemma NoRepeatsInBoth(a: seq<Addr>, b: seq<Addr>)
    ensures NoRepeats(a + b) <==> NoRepeats(a) && NoRepeats(b) && forall x :: x in a ==> x !in b
  {
    var c := a + b;
    if NoRepeats(c) {
      assert a == c[..|a|] && b == c[|a|..];
    } else if NoRepeats(a) && NoRepeats(b) {
      var i, j :| 0 <= i < j < |c| && c[i] == c[j];
      assert i < |a| <= j;
      var x := c[i];
      assert a[i] == x && b[j - |a|] == x;
      assert x in a && x in b;
    }
  }

  // What a value owns are the addresses in it; nothing is owned twice exactly when none of them is there twice.
  lemma {:induction false} OwnedIsAddresses(v: Value)
    ensures forall a :: a in Owned(v) <==> a in Addresses(v)
    ensures Separate(v) <==> NoRepeats(Addresses(v))
    decreases v, 1, 0
  {
    if v.Complex? {
      OwnedSlotsAreAddresses(v, |v.slots|);
      FewDoNotRepeat([v.fields]);
      NoRepeatsInBoth([v.fields], SlotAddresses(v, |v.slots|));
    }
  }

  lemma {:induction false} OwnedSlotsAreAddresses(v: Value, n: nat)
    requires v.Complex? && n <= |v.slots|
    ensures forall a :: a in OwnedSlots(v, n) <==> a in SlotAddresses(v, n)
    ensures SeparateSlots(v, n) <==> NoRepeats(SlotAddresses(v, n))
    decreases v, 0, n
  {
    if n > 0 {
      OwnedSlotsAreAddresses(v, n - 1);
      OwnedSlotIsAddresses(v.slots[n - 1]);
      NoRepeatsInBoth(SlotAddresses(v, n - 1), InSlot(v.slots[n - 1]));
      Apart(OwnedSlots(v, n - 1), OwnedSlot(v.slots[n - 1]), SlotAddresses(v, n - 1), InSlot(v.slots[n - 1]));
      hide OwnedSlot, SeparateSlot, InSlot, NoRepeats;
    }
  }

  lemma {:induction false} OwnedSlotIsAddresses(s: Slot)
    ensures forall a :: a in OwnedSlot(s) <==> a in InSlot(s)
    ensures SeparateSlot(s) <==> NoRepeats(InSlot(s))
    decreases s, 1
  {
    hide NoRepeats, Owned, Separate, Addresses;
    var name := if s.name.Some? then [s.name.value.block] else [];
    var cell := if s.cell.Some? then [s.cell.value.block] + Addresses(s.cell.value.value) else [];
    assert InSlot(s) == name + cell;
    FewDoNotRepeat(name);
    NoRepeatsInBoth(name, cell);
    if s.cell.Some? {
      var b, v := s.cell.value.block, s.cell.value.value;
      OwnedIsAddresses(v);
      FewDoNotRepeat([b]);
      NoRepeatsInBoth([b], Addresses(v));
      assert b in [b];
      assert NoRepeats(cell) <==> b !in Owned(v) && Separate(v);
    } else {
      FewDoNotRepeat(cell);
    }
    Apart(OwnedName(s), OwnedCell(s), name, cell);
  }

  lemma Apart(s: set<Addr>, t: set<Addr>, a: seq<Addr>, b: seq<Addr>)
    requires (forall x :: x in s <==> x in a) && (forall x :: x in t <==> x in b)
    ensures s !! t <==> forall x :: x in a ==> x !in b
  {
  }

  lemma FewDoNotRepeat(a: seq<Addr>)
    requires |a| <= 1
    ensures NoRepeats(a)
  {
  }
}
