/** validateModel_vs_Multitree of commanddecoder.c: a JSON tree of desired properties is ingested child by child into the
    memory of a device, wherever the model has a place for it. */
module DesiredProperties {
  import opened Basics
  import opened ValueTrees
  import opened Commands

  // A property converted into memory, and a call of one of the model's change callbacks with the address of the model.
  datatype Effect = Written(address: nat, shape: Shape) | Notified(address: nat)

  // ---- what can be ingested, and to what effect ------------------------------------------------------------------

  ghost predicate Ingestible(s: Schema, model: nat, tree: Node)
    requires ValidSchema(s) && model in s.models
    decreases tree, 1
  {
    forall i :: 0 <= i < |tree.children| ==> ChildIngestible(s, model, tree.children[i])
  }

  ghost predicate ChildIngestible(s: Schema, model: nat, c: Child)
    requires ValidSchema(s) && model in s.models
    decreases c, 0
  {
    && c.name in s.models[model].elements
    && match s.models[model].elements[c.name]
       case Desired(typeName, _, _) => Conforms(s, c.node, typeName)
       case ModelInModel(m, _, _) => Ingestible(s, m, c.node)
       case _ => false
  }

  // A property goes to the sum of the offsets along its path; a model's callback gets the address of what contains it.
  ghost function Effects(s: Schema, model: nat, tree: Node, offset: nat, n: nat): seq<Effect>
    requires ValidSchema(s) && model in s.models && n <= |tree.children|
    requires forall i :: 0 <= i < n ==> ChildIngestible(s, model, tree.children[i])
    decreases tree, 0, n
  {
    if n == 0 then []
    else Effects(s, model, tree, offset, n - 1) + ChildEffects(s, model, tree.children[n - 1], offset)
  }

  ghost function ChildEffects(s: Schema, model: nat, c: Child, offset: nat): seq<Effect>
    requires ValidSchema(s) && model in s.models && ChildIngestible(s, model, c)
    decreases c, 0
  {
    match s.models[model].elements[c.name]
    case Desired(typeName, o, notifies) =>
      [Written(offset + o, Expected(s, c.node, typeName))] + Notice(notifies, offset)
    case ModelInModel(m, o, notifies) =>
      assert Ingestible(s, m, c.node);
      Effects(s, m, c.node, offset + o, |c.node.children|) + Notice(notifies, offset)
  }

  function Notice(notifies: bool, address: nat): seq<Effect>
  {
    if notifies then [Notified(address)] else []
  }

  ghost predicate IngestedTo(s: Schema, model: nat, tree: Node, offset: nat, before: seq<Effect>, after: seq<Effect>, n: nat)
    requires ValidSchema(s) && model in s.models && n <= |tree.children|
  {
    && (forall k :: 0 <= k < n ==> ChildIngestible(s, model, tree.children[k]))
    && after == before + Effects(s, model, tree, offset, n)
  }

  lemma NothingIngested(s: Schema, model: nat, tree: Node, offset: nat, before: seq<Effect>)
    requires ValidSchema(s) && model in s.models
    ensures IngestedTo(s, model, tree, offset, before, before, 0)
  {
  }

  lemma IngestedOneMore(s: Schema, model: nat, tree: Node, offset: nat, before: seq<Effect>, now: seq<Effect>, i: nat)
    requires ValidSchema(s) && model in s.models && i < |tree.children|
    requires IngestedTo(s, model, tree, offset, before, now, i) && ChildIngestible(s, model, tree.children[i])
    ensures IngestedTo(s, model, tree, offset, before, now + ChildEffects(s, model, tree.children[i], offset), i + 1)
  {
    hide ChildIngestible, ChildEffects, ValidSchema;
  }

  lemma IngestedAll(s: Schema, model: nat, tree: Node, offset: nat, before: seq<Effect>, now: seq<Effect>)
    requires ValidSchema(s) && model in s.models && IngestedTo(s, model, tree, offset, before, now, |tree.children|)
    ensures Ingestible(s, model, tree) && now == before + Effects(s, model, tree, offset, |tree.children|)
  {
    hide ChildIngestible, ChildEffects, ValidSchema;
  }

  lemma MustBeIngestible(s: Schema, model: nat, tree: Node, i: nat)
    requires ValidSchema(s) && model in s.models && i < |tree.children|
    ensures Ingestible(s, model, tree) ==> ChildIngestible(s, model, tree.children[i])
  {
    hide ChildIngestible, ValidSchema;
  }

  // ---- the same by paths -----------------------------------------------------------------------------------------

  // A path is the numbers of the children on the way down. It reaches an element if every child before the last stands
  // for a model within the one before.
  ghost function Reached(s: Schema, model: nat, tree: Node, path: seq<nat>): Option<Element>
    decreases |path|
  {
    if path == [] || path[0] >= |tree.children| || model !in s.models
       || tree.children[path[0]].name !in s.models[model].elements then None
    else
      var e := s.models[model].elements[tree.children[path[0]].name];
      if |path| == 1 then Some(e)
      else if e.ModelInModel? then Reached(s, e.model, tree.children[path[0]].node, path[1..])
      else None
  }

  ghost function NodeAt(tree: Node, path: seq<nat>): Node
  {
    if path == [] || path[0] >= |tree.children| then tree else NodeAt(tree.children[path[0]].node, path[1..])
  }

  ghost function OffsetOf(e: Option<Element>): nat
  {
    match e
    case Some(Desired(_, offset, _)) => offset
    case Some(ModelInModel(_, offset, _)) => offset
    case _ => 0
  }

  // The sum of the offsets of all elements on the way, the last included.
  ghost function OffsetSum(s: Schema, model: nat, tree: Node, path: seq<nat>): nat
    decreases |path|
  {
    if path == [] then 0
    else OffsetSum(s, model, tree, path[..|path| - 1]) + OffsetOf(Reached(s, model, tree, path))
  }

  // What happens at a path: a property is written where its offsets lead, and a notice bears the address of the model
  // around it.
  ghost function EffectsAt(s: Schema, model: nat, tree: Node, start: nat, path: seq<nat>): seq<Effect>
  {
    match Reached(s, model, tree, path)
    case Some(Desired(typeName, _, notifies)) =>
      (if Conforms(s, NodeAt(tree, path), typeName) then
         [Written(start + OffsetSum(s, model, tree, path), Expected(s, NodeAt(tree, path), typeName))]
       else [])
      + if notifies then [Notified(start + OffsetSum(s, model, tree, path[..|path| - 1]))] else []
    case Some(ModelInModel(_, _, notifies)) =>
      if notifies then [Notified(start + OffsetSum(s, model, tree, path[..|path| - 1]))] else []
    case _ => []
  }

  ghost function EffectsAlong(s: Schema, model: nat, tree: Node, start: nat, paths: seq<seq<nat>>): seq<Effect>
  {
    if paths == [] then []
    else EffectsAt(s, model, tree, start, paths[0]) + EffectsAlong(s, model, tree, start, paths[1..])
  }

  // The order of the tree, what is below first.
  ghost predicate Before(p: seq<nat>, q: seq<nat>)
    decreases |p|
  {
    p != [] && (q == [] || p[0] < q[0] || (p[0] == q[0] && Before(p[1..], q[1..])))
  }

  // All paths that reach something, each once, in the order of the tree.
  ghost predicate Tour(s: Schema, model: nat, tree: Node, paths: seq<seq<nat>>)
  {
    && (forall p :: p in paths <==> Reached(s, model, tree, p).Some?)
    && (forall i, j :: 0 <= i < j < |paths| ==> Before(paths[i], paths[j]))
  }

  ghost function Below(i: nat, paths: seq<seq<nat>>): (below: seq<seq<nat>>)
    ensures |below| == |paths| && forall k :: 0 <= k < |paths| ==> below[k] == [i] + paths[k]
  {
    seq(|paths|, k requires 0 <= k < |paths| => [i] + paths[k])
  }

  ghost function Walk(s: Schema, model: nat, tree: Node, n: nat): seq<seq<nat>>
    requires n <= |tree.children|
    decreases tree, 0, n
  {
    if n == 0 then [] else Walk(s, model, tree, n - 1) + ChildWalk(s, model, tree.children[n - 1], n - 1)
  }

  ghost function ChildWalk(s: Schema, model: nat, c: Child, i: nat): seq<seq<nat>>
    decreases c, 0
  {
    if model !in s.models || c.name !in s.models[model].elements then []
    else
      (match s.models[model].elements[c.name]
       case ModelInModel(m, _, _) => Below(i, Walk(s, m, c.node, |c.node.children|))
       case _ => [])
      + [[i]]
  }

  lemma BelowReaches(s: Schema, model: nat, tree: Node, i: nat, q: seq<nat>)
    requires model in s.models && i < |tree.children| && tree.children[i].name in s.models[model].elements
    ensures var e := s.models[model].elements[tree.children[i].name];
            && Reached(s, model, tree, [i]) == Some(e)
            && (q != [] ==> Reached(s, model, tree, [i] + q)
                            == if e.ModelInModel? then Reached(s, e.model, tree.children[i].node, q) else None)
  {
    assert ([i] + q)[1..] == q;
  }

  lemma {:induction false} OffsetsBelow(s: Schema, model: nat, tree: Node, i: nat, q: seq<nat>)
    requires model in s.models && i < |tree.children| && tree.children[i].name in s.models[model].elements
    requires s.models[model].elements[tree.children[i].name].ModelInModel?
    ensures var e := s.models[model].elements[tree.children[i].name];
            OffsetSum(s, model, tree, [i] + q) == e.offset + OffsetSum(s, e.model, tree.children[i].node, q)
    decreases |q|
  {
    hide Reached;
    BelowReaches(s, model, tree, i, q);
    if q == [] {
      assert [i] + q == [i] && [i][..0] == [];
      assert OffsetSum(s, model, tree, []) == 0;
    } else {
      var p := [i] + q;
      assert p[..|p| - 1] == [i] + q[..|q| - 1];
      OffsetsBelow(s, model, tree, i, q[..|q| - 1]);
    }
  }

  lemma EffectsBelow(s: Schema, model: nat, tree: Node, start: nat, i: nat, q: seq<nat>)
    requires model in s.models && i < |tree.children| && tree.children[i].name in s.models[model].elements
    requires s.models[model].elements[tree.children[i].name].ModelInModel? && q != []
    ensures var e := s.models[model].elements[tree.children[i].name];
            EffectsAt(s, model, tree, start, [i] + q) == EffectsAt(s, e.model, tree.children[i].node, start + e.offset, q)
  {
    hide Reached, OffsetSum, Conforms, Expected;
    var p := [i] + q;
    BelowReaches(s, model, tree, i, q);
    OffsetsBelow(s, model, tree, i, q);
    OffsetsBelow(s, model, tree, i, q[..|q| - 1]);
    assert p[..|p| - 1] == [i] + q[..|q| - 1] && p[1..] == q;
    assert NodeAt(tree, p) == NodeAt(tree.children[i].node, q);
    hide NodeAt;
  }

  lemma {:induction false} EffectsAlongBelow(s: Schema, model: nat, tree: Node, start: nat, i: nat, paths: seq<seq<nat>>)
    requires model in s.models && i < |tree.children| && tree.children[i].name in s.models[model].elements
    requires s.models[model].elements[tree.children[i].name].ModelInModel? && [] !in paths
    ensures var e := s.models[model].elements[tree.children[i].name];
            EffectsAlong(s, model, tree, start, Below(i, paths))
            == EffectsAlong(s, e.model, tree.children[i].node, start + e.offset, paths)
    decreases |paths|
  {
    hide EffectsAt;
    if paths != [] {
      EffectsBelow(s, model, tree, start, i, paths[0]);
      EffectsAlongBelow(s, model, tree, start, i, paths[1..]);
      assert Below(i, paths)[1..] == Below(i, paths[1..]);
    }
  }

  lemma {:induction false} EffectsAlongBoth(s: Schema, model: nat, tree: Node, start: nat, a: seq<seq<nat>>, b: seq<seq<nat>>)
    ensures EffectsAlong(s, model, tree, start, a + b)
         == EffectsAlong(s, model, tree, start, a) + EffectsAlong(s, model, tree, start, b)
    decreases |a|
  {
    hide EffectsAt;
    if a == [] {
      assert a + b == b;
    } else {
      assert (a + b)[1..] == a[1..] + b;
      EffectsAlongBoth(s, model, tree, start, a[1..], b);
    }
  }

  ghost predicate InOrder(paths: seq<seq<nat>>)
  {
    forall i, j :: 0 <= i < j < |paths| ==> Before(paths[i], paths[j])
  }

  lemma {:induction false} WalkReaches(s: Schema, model: nat, tree: Node, n: nat)
    requires n <= |tree.children|
    ensures forall p :: p in Walk(s, model, tree, n) <==> p != [] && p[0] < n && Reached(s, model, tree, p).Some?
    ensures InOrder(Walk(s, model, tree, n))
    decreases tree, 0, n
  {
    hide Reached, Before, ChildWalk, InOrder;
    if n > 0 {
      WalkReaches(s, model, tree, n - 1);
      ChildWalkReaches(s, model, tree, n - 1);
      OrderedBoth(Walk(s, model, tree, n - 1), ChildWalk(s, model, tree.children[n - 1], n - 1), n - 1);
    } else {
      assert InOrder([]) by {
        NoneInOrder();
      }
    }
  }

  lemma NoneInOrder()
    ensures InOrder([])
  {
  }

  lemma OrderedBoth(a: seq<seq<nat>>, b: seq<seq<nat>>, n: nat)
    requires InOrder(a) && InOrder(b)
    requires (forall p :: p in a ==> p != [] && p[0] < n) && (forall p :: p in b ==> p != [] && p[0] == n)
    ensures InOrder(a + b)
  {
    var c := a + b;
    forall i, j | 0 <= i < j < |c|
      ensures Before(c[i], c[j])
    {
      if i < |a| <= j {
        assert c[i] in a && c[j] in b;
      }
    }
  }

  lemma {:induction false} ChildWalkReaches(s: Schema, model: nat, tree: Node, i: nat)
    requires i < |tree.children|
    ensures forall p :: p in ChildWalk(s, model, tree.children[i], i)
                   <==> p != [] && p[0] == i && Reached(s, model, tree, p).Some?
    ensures InOrder(ChildWalk(s, model, tree.children[i], i))
    decreases tree.children[i], 0
  {
    hide Before, InOrder, Reached;
    var c := tree.children[i];
    if model !in s.models || c.name !in s.models[model].elements {
      NoneInOrder();
      NowhereFrom(s, model, tree, i);
    } else {
      var e := s.models[model].elements[c.name];
      var below := if e.ModelInModel? then Walk(s, e.model, c.node, |c.node.children|) else [];
      if e.ModelInModel? {
        WalkReaches(s, e.model, c.node, |c.node.children|);
        OnlyInTree(s, e.model, c.node);
      } else {
        NoneInOrder();
      }
      assert ChildWalk(s, model, c, i) == Below(i, below) + [[i]];
      hide ChildWalk, Walk;
      OrderedBelow(i, below);
      forall p
        ensures p in Below(i, below) + [[i]] <==> p != [] && p[0] == i && Reached(s, model, tree, p).Some?
      {
        InBelowOrItself(s, model, tree, i, below, p);
      }
    }
  }

  lemma InBelowOrItself(s: Schema, model: nat, tree: Node, i: nat, below: seq<seq<nat>>, p: seq<nat>)
    requires model in s.models && i < |tree.children| && tree.children[i].name in s.models[model].elements
    requires var e := s.models[model].elements[tree.children[i].name];
             if e.ModelInModel? then
               forall q :: q in below <==> q != [] && Reached(s, e.model, tree.children[i].node, q).Some?
             else below == []
    ensures p in Below(i, below) + [[i]] <==> p != [] && p[0] == i && Reached(s, model, tree, p).Some?
  {
    hide Reached;
    if p != [] && p[0] == i {
      var q := p[1..];
      assert p == [i] + q;
      BelowReaches(s, model, tree, i, q);
      InBelow(i, below, q);
      if q == [] {
        assert p == [i] && (Below(i, below) + [[i]])[|below|] == [i];
      } else {
        assert p != [i];
      }
    }
  }

  lemma NowhereFrom(s: Schema, model: nat, tree: Node, i: nat)
    requires i < |tree.children| && (model !in s.models || tree.children[i].name !in s.models[model].elements)
    ensures forall p :: p != [] && p[0] == i ==> Reached(s, model, tree, p).None?
  {
  }

  lemma OnlyInTree(s: Schema, model: nat, tree: Node)
    ensures forall p :: Reached(s, model, tree, p).Some? ==> p != [] && p[0] < |tree.children|
  {
  }

  lemma InBelow(i: nat, paths: seq<seq<nat>>, q: seq<nat>)
    ensures [i] + q in Below(i, paths) <==> q in paths
  {
    if [i] + q in Below(i, paths) {
      var k :| 0 <= k < |paths| && Below(i, paths)[k] == [i] + q;
      assert ([i] + paths[k])[1..] == paths[k] && ([i] + q)[1..] == q;
    }
    if q in paths {
      var k :| 0 <= k < |paths| && paths[k] == q;
      assert Below(i, paths)[k] == [i] + q;
    }
  }

  lemma OrderedBelow(i: nat, paths: seq<seq<nat>>)
    requires InOrder(paths) && [] !in paths
    ensures InOrder(Below(i, paths) + [[i]])
  {
    var c := Below(i, paths) + [[i]];
    forall j, k | 0 <= j < k < |c|
      ensures Before(c[j], c[k])
    {
      assert c[j][1..] == paths[j] && paths[j] in paths;
      if k < |paths| {
        assert c[k][1..] == paths[k];
      }
    }
  }

  lemma {:induction false} WalkEffects(s: Schema, model: nat, tree: Node, start: nat, n: nat)
    requires ValidSchema(s) && model in s.models && n <= |tree.children|
    requires forall i :: 0 <= i < n ==> ChildIngestible(s, model, tree.children[i])
    ensures EffectsAlong(s, model, tree, start, Walk(s, model, tree, n)) == Effects(s, model, tree, start, n)
    decreases tree, 0, n
  {
    hide ChildIngestible, ChildWalk, ChildEffects, EffectsAt, ValidSchema;
    if n > 0 {
      WalkEffects(s, model, tree, start, n - 1);
      ChildWalkEffects(s, model, tree, start, n - 1);
      EffectsAlongBoth(s, model, tree, start, Walk(s, model, tree, n - 1), ChildWalk(s, model, tree.children[n - 1], n - 1));
    }
  }

  lemma {:induction false} ChildWalkEffects(s: Schema, model: nat, tree: Node, start: nat, i: nat)
    requires ValidSchema(s) && model in s.models && i < |tree.children| && ChildIngestible(s, model, tree.children[i])
    ensures EffectsAlong(s, model, tree, start, ChildWalk(s, model, tree.children[i], i))
         == ChildEffects(s, model, tree.children[i], start)
    decreases tree.children[i], 0
  {
    hide Conforms, Expected, EffectsAlong, Effects, Walk, Reached;
    var c := tree.children[i];
    BelowReaches(s, model, tree, i, []);
    EffectsOfOne(s, model, tree, start, i);
    match s.models[model].elements[c.name]
    case Desired(_, _, _) =>
      assert [] + [[i]] == [[i]];
    case ModelInModel(m, o, notifies) =>
      var below := Walk(s, m, c.node, |c.node.children|);
      assert Ingestible(s, m, c.node);
      WalkEffects(s, m, c.node, start + o, |c.node.children|);
      WalkReaches(s, m, c.node, |c.node.children|);
      EffectsAlongBelow(s, model, tree, start, i, below);
      EffectsAlongBoth(s, model, tree, start, Below(i, below), [[i]]);
    case _ =>
  }

  lemma EffectsOfOne(s: Schema, model: nat, tree: Node, start: nat, i: nat)
    requires model in s.models && i < |tree.children| && tree.children[i].name in s.models[model].elements
    ensures var e := s.models[model].elements[tree.children[i].name];
            && (e.Desired? && Conforms(s, tree.children[i].node, e.typeName) ==>
                  EffectsAlong(s, model, tree, start, [[i]])
                  == [Written(start + e.offset, Expected(s, tree.children[i].node, e.typeName))] + Notice(e.notifies, start))
            && (e.ModelInModel? ==> EffectsAlong(s, model, tree, start, [[i]]) == Notice(e.notifies, start))
  {
    hide Conforms, Expected;
    assert [i][1..] == [] && [i][..0] == [] && [[i]][1..] == [];
    assert OffsetSum(s, model, tree, []) == 0;
    assert NodeAt(tree, [i]) == tree.children[i].node;
    BelowReaches(s, model, tree, i, []);
  }

  // What a whole tree brings about: for every path that ends at a desired property one conversion, to the sum of the
  // offsets along the path, and the notices, in the order of the tree and nothing else.
  lemma EffectsByPaths(s: Schema, model: nat, tree: Node, start: nat)
    requires ValidSchema(s) && model in s.models && Ingestible(s, model, tree)
    ensures exists paths :: Tour(s, model, tree, paths)
                            && Effects(s, model, tree, start, |tree.children|) == EffectsAlong(s, model, tree, start, paths)
  {
    hide ChildIngestible, Effects, EffectsAlong, Walk, Tour, ValidSchema;
    var n := |tree.children|;
    WalkIsTour(s, model, tree);
    WalkEffects(s, model, tree, start, n);
    assert Tour(s, model, tree, Walk(s, model, tree, n));
  }

  lemma WalkIsTour(s: Schema, model: nat, tree: Node)
    ensures Tour(s, model, tree, Walk(s, model, tree, |tree.children|))
  {
    hide Reached, Before, Walk;
    WalkReaches(s, model, tree, |tree.children|);
    OnlyInTree(s, model, tree);
  }

  // A child is looked at if it is on the top level or within one that stands for a model.
  ghost predicate Visited(s: Schema, model: nat, tree: Node, path: seq<nat>)
    decreases |path|
  {
    && path != [] && path[0] < |tree.children|
    && (|path| == 1
        || (model in s.models && tree.children[path[0]].name in s.models[model].elements
            && s.models[model].elements[tree.children[path[0]].name].ModelInModel?
            && Visited(s, s.models[model].elements[tree.children[path[0]].name].model, tree.children[path[0]].node, path[1..])))
  }

  // It is a desired property and conforms to its type, or stands for a model.
  ghost predicate HasPlace(s: Schema, model: nat, tree: Node, path: seq<nat>)
  {
    match Reached(s, model, tree, path)
    case Some(Desired(typeName, _, _)) => Conforms(s, NodeAt(tree, path), typeName)
    case Some(ModelInModel(_, _, _)) => true
    case _ => false
  }

  ghost predicate AllHavePlaces(s: Schema, model: nat, tree: Node)
  {
    forall p :: Visited(s, model, tree, p) ==> HasPlace(s, model, tree, p)
  }

  ghost predicate StartsWith(path: seq<nat>, i: nat)
  {
    path != [] && path[0] == i
  }

  lemma {:induction false} IngestibleByPaths(s: Schema, model: nat, tree: Node)
    requires ValidSchema(s) && model in s.models
    ensures Ingestible(s, model, tree) <==> AllHavePlaces(s, model, tree)
    decreases tree, 1
  {
    hide Visited, HasPlace, ChildIngestible, ValidSchema, StartsWith;
    VisitedChild(s, model, tree);
    forall i | 0 <= i < |tree.children|
      ensures ChildIngestible(s, model, tree.children[i])
         <==> forall p :: Visited(s, model, tree, p) && StartsWith(p, i) ==> HasPlace(s, model, tree, p)
    {
      ChildIngestibleByPaths(s, model, tree, i);
    }
    if !AllHavePlaces(s, model, tree) {
      var p :| Visited(s, model, tree, p) && !HasPlace(s, model, tree, p);
      assert !ChildIngestible(s, model, tree.children[p[0]]);
    }
  }

  lemma VisitedChild(s: Schema, model: nat, tree: Node)
    ensures forall p :: Visited(s, model, tree, p) ==> p != [] && p[0] < |tree.children| && StartsWith(p, p[0])
  {
  }

  lemma {:induction false} ChildIngestibleByPaths(s: Schema, model: nat, tree: Node, i: nat)
    requires ValidSchema(s) && model in s.models && i < |tree.children|
    ensures ChildIngestible(s, model, tree.children[i])
       <==> forall p :: Visited(s, model, tree, p) && StartsWith(p, i) ==> HasPlace(s, model, tree, p)
    decreases tree, 0
  {
    hide Visited, HasPlace, Conforms, Ingestible, AllHavePlaces;
    var c := tree.children[i];
    OnTop(s, model, tree, i);
    if c.name in s.models[model].elements && s.models[model].elements[c.name].ModelInModel? {
      var m := s.models[model].elements[c.name].model;
      IngestibleByPaths(s, m, c.node);
      forall q
        ensures q != [] ==>
                  && (Visited(s, model, tree, [i] + q) <==> Visited(s, m, c.node, q))
                  && (HasPlace(s, model, tree, [i] + q) <==> HasPlace(s, m, c.node, q))
      {
        PlaceBelow(s, model, tree, i, q);
      }
      SameBelow(s, model, tree, i, m);
    } else {
      forall p | Visited(s, model, tree, p) && StartsWith(p, i)
        ensures p == [i]
      {
        NothingBelow(s, model, tree, i, p);
      }
    }
  }

  lemma OnTop(s: Schema, model: nat, tree: Node, i: nat)
    requires model in s.models && i < |tree.children|
    ensures Visited(s, model, tree, [i])
    ensures HasPlace(s, model, tree, [i])
       <==> tree.children[i].name in s.models[model].elements &&
            match s.models[model].elements[tree.children[i].name]
            case Desired(typeName, _, _) => Conforms(s, tree.children[i].node, typeName)
            case ModelInModel(_, _, _) => true
            case _ => false
  {
    hide Conforms;
    assert [i][1..] == [];
    assert NodeAt(tree, [i]) == tree.children[i].node;
  }

  lemma PlaceBelow(s: Schema, model: nat, tree: Node, i: nat, q: seq<nat>)
    requires model in s.models && i < |tree.children| && tree.children[i].name in s.models[model].elements
    requires s.models[model].elements[tree.children[i].name].ModelInModel?
    ensures var e := s.models[model].elements[tree.children[i].name];
            q != [] ==>
              && (Visited(s, model, tree, [i] + q) <==> Visited(s, e.model, tree.children[i].node, q))
              && (HasPlace(s, model, tree, [i] + q) <==> HasPlace(s, e.model, tree.children[i].node, q))
  {
    hide Conforms, Reached;
    BelowReaches(s, model, tree, i, q);
    assert ([i] + q)[1..] == q;
    assert NodeAt(tree, [i] + q) == NodeAt(tree.children[i].node, q);
  }

  lemma NothingBelow(s: Schema, model: nat, tree: Node, i: nat, p: seq<nat>)
    requires model in s.models && i < |tree.children| && Visited(s, model, tree, p) && p[0] == i
    requires tree.children[i].name !in s.models[model].elements || !s.models[model].elements[tree.children[i].name].ModelInModel?
    ensures p == [i]
  {
  }

  lemma SameBelow(s: Schema, model: nat, tree: Node, i: nat, m: nat)
    requires i < |tree.children| && Visited(s, model, tree, [i]) && HasPlace(s, model, tree, [i])
    requires forall q :: q != [] ==>
               && (Visited(s, model, tree, [i] + q) <==> Visited(s, m, tree.children[i].node, q))
               && (HasPlace(s, model, tree, [i] + q) <==> HasPlace(s, m, tree.children[i].node, q))
    ensures (forall p :: Visited(s, model, tree, p) && StartsWith(p, i) ==> HasPlace(s, model, tree, p))
       <==> AllHavePlaces(s, m, tree.children[i].node)
  {
    hide HasPlace;
    VisitedChild(s, model, tree);
    VisitedChild(s, m, tree.children[i].node);
    hide Visited;
    forall p | Visited(s, model, tree, p) && StartsWith(p, i)
      ensures p == [i] || (p == [i] + p[1..] && p[1..] != [])
    {
      assert p == [i] + p[1..];
    }
  }

  class Device {
    const schema: Schema
    const heap: Heap
    ghost var effects: seq<Effect>

    // How often a conversion into memory has been refused.
    ghost var refused: nat

    constructor (schema: Schema, heap: Heap)
      requires ValidSchema(schema)
      ensures this.schema == schema && this.heap == heap && effects == [] && refused == 0
    {
      this.schema, this.heap := schema, heap;
      effects, refused := [], 0;
    }

    // The generated function that converts a value into C data.
    method Convert(v: Value, address: nat) returns (ok: bool)
      requires Complete(v)
      modifies this
      ensures ok ==> effects == old(effects) + [Written(address, ShapeOf(v))] && refused == old(refused)
      ensures !ok ==> effects == old(effects) && refused == old(refused) + 1
    {
      ok := *;
      if ok {
        effects := effects + [Written(address, ShapeOf(v))];
      } else {
        refused := refused + 1;
      }
    }

    method Notify(notifies: bool, address: nat)
      modifies this`effects
      ensures effects == old(effects) + Notice(notifies, address)
    {
      if notifies {
        effects := effects + [Notified(address)];
      }
    }

    // No allocation and no conversion has failed since then.
    twostate predicate Smooth()
      reads this, heap
    {
      heap.failures == old(heap.failures) && refused == old(refused)
    }

    // It succeeds exactly when every child at every level can be ingested and nothing fails on the way; then the effects
    // are all of them, in order. Otherwise the effects up to the failure stay, and those after a refused conversion too.
    method Validate(model: nat, tree: Node, offset: nat) returns (ok: bool)
      requires ValidSchema(schema) && model in schema.models
      modifies this, heap
      ensures ok <==> Ingestible(schema, model, tree) && Smooth()
      ensures ok ==> effects == old(effects) + Effects(schema, model, tree, offset, |tree.children|)
      ensures ok <==> AllHavePlaces(schema, model, tree) && Smooth()
      ensures ok ==> exists paths :: Tour(schema, model, tree, paths)
                                     && effects == old(effects) + EffectsAlong(schema, model, tree, offset, paths)
      ensures old(effects) <= effects && heap.failures >= old(heap.failures) && refused >= old(refused)
      ensures old(heap.live) <= heap.live && (heap.failures == old(heap.failures) ==> heap.live == old(heap.live))
      decreases tree, 1
    {
      hide ChildIngestible, ChildEffects, ValidSchema, IngestedTo, Ingestible, Effects, EffectsAlong, Tour, AllHavePlaces;
      IngestibleByPaths(schema, model, tree);
      NothingIngested(schema, model, tree, offset, effects);
      var nChildren, processed, i := |tree.children|, 0, 0;
      while i < nChildren
        invariant processed <= i <= nChildren
        invariant old(effects) <= effects && heap.failures >= old(heap.failures) && refused >= old(refused)
        invariant old(heap.live) <= heap.live && (heap.failures == old(heap.failures) ==> heap.live == old(heap.live))
        invariant processed == i ==> Smooth() && IngestedTo(schema, model, tree, offset, old(effects), effects, i)
        invariant processed < i ==> !Smooth() || !Ingestible(schema, model, tree)
      {
        ghost var before := effects;
        var outcome := IngestChild(model, tree.children[i], offset);
        MustBeIngestible(schema, model, tree, i);
        match outcome {
          case Ingested =>
            if processed == i {
              IngestedOneMore(schema, model, tree, offset, old(effects), before, i);
            }
            processed := processed + 1;
            i := i + 1;
          case Skipped =>
            i := i + 1;
          case Stopped =>
            i := nChildren;
        }
      }
      ok := processed == nChildren;
      if ok {
        IngestedAll(schema, model, tree, offset, old(effects), effects);
        EffectsByPaths(schema, model, tree, offset);
      }
    }

    // One round of lines 812 to 922. A refused conversion does not end the loop; every other failure does.
    method IngestChild(model: nat, c: Child, offset: nat) returns (outcome: Step)
      requires ValidSchema(schema) && model in schema.models
      modifies this, heap
      ensures outcome.Ingested? <==> ChildIngestible(schema, model, c) && Smooth()
      ensures outcome.Ingested? ==> effects == old(effects) + ChildEffects(schema, model, c, offset)
      ensures outcome.Skipped? ==> refused > old(refused)
      ensures old(effects) <= effects && heap.failures >= old(heap.failures) && refused >= old(refused)
      ensures old(heap.live) <= heap.live && (heap.failures == old(heap.failures) ==> heap.live == old(heap.live))
      decreases c, 1
    {
      hide Conforms, Expected, Ingestible, Effects, Complete, ShapeOf, Owned, Separate, Copyable, Tour, EffectsAlong, AllHavePlaces;
      var childName := heap.Malloc();
      if childName.None? {
        return Stopped;
      }
      ghost var named := heap.live;
      outcome := Stopped;
      if c.name in schema.models[model].elements {
        match schema.models[model].elements[c.name] {
          case Desired(typeName, o, notifies) =>
            outcome := IngestProperty(c, typeName, offset + o, offset, notifies);
          case ModelInModel(m, o, notifies) =>
            var ok := Validate(m, c.node, offset + o);
            if ok {
              Notify(notifies, offset);
              outcome := Ingested;
            }
          case _ =>
        }
      }
      heap.Free(childName.value);
    }

    // Lines 857 to 891.
    method IngestProperty(c: Child, typeName: string, address: nat, container: nat, notifies: bool) returns (outcome: Step)
      modifies this, heap
      ensures outcome.Ingested? <==> Conforms(schema, c.node, typeName) && Smooth()
      ensures outcome.Ingested? ==>
                effects == old(effects) + [Written(address, Expected(schema, c.node, typeName))] + Notice(notifies, container)
      ensures outcome.Skipped? ==> refused > old(refused)
      ensures old(effects) <= effects && heap.failures >= old(heap.failures) && refused >= old(refused)
      ensures old(heap.live) <= heap.live && (heap.failures == old(heap.failures) ==> heap.live == old(heap.live))
    {
      hide Conforms, Expected, Complete, ShapeOf, NewTree, Owned, Separate, Copyable;
      var output := DecodeValue(heap, schema, c.node, typeName);
      if output.None? {
        return Stopped;
      }
      NewTreeGone(output.value, old(heap.live), heap.live);
      var converted := Convert(output.value, address);
      outcome := Skipped;
      if converted {
        Notify(notifies, container);
        outcome := Ingested;
      }
      var _ := Destroy(heap, output.value);
    }
  }

  datatype Step = Ingested | Skipped | Stopped
}
