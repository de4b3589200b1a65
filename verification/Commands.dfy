/** commanddecoder.c: decoding a JSON tree under the direction of a schema, and dispatching what it asks for. */
module Commands {
  import opened Basics
  import opened ValueTrees

  // ---- trees and schemas -----------------------------------------------------------------------------------------

  datatype Node = Node(value: Option<string>, children: seq<Child>)
  datatype Child = Child(name: string, node: Node)

  datatype Property = Property(name: string, typeName: string)

  // What CreateAgentDataType_From_String makes of a text.
  datatype Leaf = ScalarLeaf(tag: nat, payload: int) | TextLeaf(tag: nat, chars: string) | BinaryLeaf(bytes: seq<int>)

  datatype Element =
    | Desired(typeName: string, offset: nat, notifies: bool)
    | ModelInModel(model: nat, offset: nat, notifies: bool)
    | Reported
    | Plain

  datatype Model = Model(actions: map<string, seq<Property>>, methods: map<string, seq<Property>>,
                         elements: map<string, Element>)

  // Types are primitive or structs; a name in neither table is unknown. Models refer to one another by handle.
  datatype Schema = Schema(primitives: map<string, nat>, structs: map<string, seq<Property>>, models: map<nat, Model>,
                           parse: (nat, string) -> Option<Leaf>)

  predicate ValidSchema(s: Schema)
  {
    forall m, e :: m in s.models && e in s.models[m].elements && s.models[m].elements[e].ModelInModel?
                   ==> s.models[m].elements[e].model in s.models
  }

  // The first child of that name, or the number of children.
  function Find(children: seq<Child>, name: string): (i: nat)
    ensures i <= |children| && (i < |children| ==> children[i].name == name)
    ensures forall j :: 0 <= j < i ==> children[j].name != name
  {
    if children == [] || children[0].name == name then 0 else 1 + Find(children[1..], name)
  }

  method GetChildByName(node: Node, name: string) returns (i: nat)
    ensures i == Find(node.children, name)
  {
    i := 0;
    while i < |node.children|
      invariant i <= |node.children| && forall j :: 0 <= j < i ==> node.children[j].name != name
    {
      if node.children[i].name == name {
        break;
      }
      i := i + 1;
    }
    FirstIsFind(node.children, name, i);
  }

  lemma FirstIsFind(children: seq<Child>, name: string, i: nat)
    requires i <= |children| && (i < |children| ==> children[i].name == name)
    requires forall j :: 0 <= j < i ==> children[j].name != name
    ensures i == Find(children, name)
  {
    var f := Find(children, name);
    assert !(f < i) && !(i < f);
  }

  // ---- what conforms, and to what value it decodes ---------------------------------------------------------------

  ghost predicate Conforms(s: Schema, node: Node, typeName: string)
    decreases node, 1
  {
    if typeName in s.primitives then
      node.value.Some? && s.parse(s.primitives[typeName], node.value.value).Some?
    else
      && typeName in s.structs && s.structs[typeName] != [] && NoTwoSame(Names(s.structs[typeName]))
      && MembersConform(s, node, s.structs[typeName])
  }

  ghost predicate MembersConform(s: Schema, node: Node, props: seq<Property>)
    decreases node, 0, 1
  {
    forall i :: 0 <= i < |props| ==> MemberConforms(s, node, props[i])
  }

  ghost predicate MemberConforms(s: Schema, node: Node, p: Property)
    decreases node, 0, 0
  {
    var i := Find(node.children, p.name);
    i < |node.children| && Conforms(s, node.children[i].node, p.typeName)
  }

  function Names(props: seq<Property>): (names: seq<string>)
    ensures |names| == |props| && forall i :: 0 <= i < |props| ==> names[i] == props[i].name
  {
    seq(|props|, i requires 0 <= i < |props| => props[i].name)
  }

  function LeafShape(l: Leaf): Shape
  {
    match l
    case ScalarLeaf(tag, payload) => Shape.Plain(Scalar(tag, payload))
    case TextLeaf(tag, chars) => TextShape(tag, chars)
    case BinaryLeaf(bytes) => BinaryShape(bytes)
  }

  ghost function Expected(s: Schema, node: Node, typeName: string): Shape
    requires Conforms(s, node, typeName)
    decreases node, 1
  {
    if typeName in s.primitives then LeafShape(s.parse(s.primitives[typeName], node.value.value).value)
    else ComplexShape(ExpectedMembers(s, node, s.structs[typeName]))
  }

  ghost function ExpectedMembers(s: Schema, node: Node, props: seq<Property>): (m: seq<(string, Shape)>)
    requires MembersConform(s, node, props)
    ensures |m| == |props|
    decreases node, 0, |props|
  {
    if props == [] then []
    else
      var last := props[|props| - 1];
      assert MemberConforms(s, node, last);
      ExpectedMembers(s, node, props[..|props| - 1])
      + [(last.name, Expected(s, node.children[Find(node.children, last.name)].node, last.typeName))]
  }

  // The member i of a structure comes from the first child that has its name, read as its type.
  lemma {:induction false} ExpectedMemberIs(s: Schema, node: Node, props: seq<Property>, i: nat, k: nat)
    requires MembersConform(s, node, props) && i < |props| && IsFirst(node.children, props[i].name, k)
    ensures Conforms(s, node.children[k].node, props[i].typeName)
    ensures ExpectedMembers(s, node, props)[i] == (props[i].name, Expected(s, node.children[k].node, props[i].typeName))
    decreases |props|
  {
    hide Conforms, Expected;
    FirstIsFind(node.children, props[i].name, k);
    assert MemberConforms(s, node, props[i]);
    if i < |props| - 1 {
      ExpectedMemberIs(s, node, props[..|props| - 1], i, k);
    }
  }

  // ---- decoding --------------------------------------------------------------------------------------------------

  // A primitive value, with the storage it needs.
  method CreateFromLeaf(heap: Heap, leaf: Leaf) returns (v: Option<Value>)
    modifies heap
    ensures v.Some? ==>
              && Complete(v.value) && Copyable(v.value) && ShapeOf(v.value) == LeafShape(leaf)
              && NewTree(v.value, old(heap.live), heap.live)
    ensures v.Some? <==> heap.failures == old(heap.failures)
    ensures heap.failures >= old(heap.failures) && (v.None? ==> heap.live == old(heap.live))
  {
    match leaf {
      case ScalarLeaf(tag, payload) => return Some(Scalar(tag, payload));
      case TextLeaf(tag, chars) =>
        var p := heap.Malloc();
        return if p.None? then None else Some(Text(tag, p.value, chars));
      case BinaryLeaf(bytes) =>
        if bytes == [] {
          return Some(Binary(None, []));
        }
        var p := heap.Malloc();
        return if p.None? then None else Some(Binary(p, bytes));
    }
  }

  // DecodeValueFromNode: it succeeds exactly when the tree conforms to the type and no allocation fails, with a value of
  // the type's shape in new storage. Storage is only ever lost when an allocation fails.
  method DecodeValue(heap: Heap, s: Schema, node: Node, typeName: string) returns (v: Option<Value>)
    modifies heap
    ensures v.Some? ==>
              && Conforms(s, node, typeName) && Complete(v.value) && Copyable(v.value)
              && ShapeOf(v.value) == Expected(s, node, typeName) && NewTree(v.value, old(heap.live), heap.live)
    ensures v.Some? <==> Conforms(s, node, typeName) && heap.failures == old(heap.failures)
    ensures heap.failures >= old(heap.failures) && old(heap.live) <= heap.live
    ensures v.None? && heap.failures == old(heap.failures) ==> heap.live == old(heap.live)
    decreases node, 1
  {
    hide NewTree, Copyable, Complete, ShapeOf, MembersConform, NoTwoSame;
    if typeName in s.primitives {
      if node.value.None? {
        return None;
      }
      var leaf := s.parse(s.primitives[typeName], node.value.value);
      if leaf.None? {
        return None;
      }
      v := CreateFromLeaf(heap, leaf.value);
      if v.Some? {
        NewTreeGone(v.value, old(heap.live), heap.live);
      }
    } else {
      if typeName !in s.structs || s.structs[typeName] == [] {
        return None;
      }
      v := DecodeStruct(heap, s, node, s.structs[typeName]);
    }
  }

  // Lines 60 to 147: the arrays of names and values, the members, and the value made from them.
  method DecodeStruct(heap: Heap, s: Schema, node: Node, props: seq<Property>) returns (v: Option<Value>)
    requires props != []
    modifies heap
    ensures v.Some? ==>
              && MembersConform(s, node, props) && Complete(v.value) && Copyable(v.value)
              && ShapeOf(v.value) == ComplexShape(ExpectedMembers(s, node, props))
              && NewTree(v.value, old(heap.live), heap.live)
    ensures v.Some? <==> NoTwoSame(Names(props)) && MembersConform(s, node, props) && heap.failures == old(heap.failures)
    ensures heap.failures >= old(heap.failures) && old(heap.live) <= heap.live
    ensures v.None? && heap.failures == old(heap.failures) ==> heap.live == old(heap.live)
    decreases node, 0, |props| + 2
  {
    hide NewTree, NewTrees, Copyable, Complete, ShapeOf, MembersConform, NoTwoSame, AllComplete, AllCopyable, OwnedAll, SeparateAll;
    var memberValues := heap.Malloc();
    if memberValues.None? {
      return None;
    }
    var memberNames := heap.Malloc();
    if memberNames.None? {
      heap.Free(memberValues.value);
      return None;
    }
    ghost var arrays := heap.live;
    var values, ok := DecodeAll(heap, s, node, props);
    ghost var decoded := heap.live;
    v := None;
    if ok {
      var code, made := CreateFromMembers(heap, Names(props), values);
      if code == Ok {
        v := Some(made);
      }
    }
    ghost var made := heap.live;
    ghost var others := Others(values, arrays, decoded, made);
    DestroyAll(heap, values, others);
    heap.Free(memberNames.value);
    heap.Free(memberValues.value);
    if v.Some? {
      OnlyTheNewTree(v.value, values, old(heap.live), arrays, decoded, made, memberNames.value, memberValues.value);
    }
  }

  // What is live besides the decoded members.
  lemma Others(values: seq<Value>, arrays: set<Addr>, decoded: set<Addr>, live: set<Addr>) returns (others: set<Addr>)
    requires SeparateAll(values) && OwnedAll(values) !! arrays && arrays + OwnedAll(values) <= decoded <= live
    ensures NewTrees(values, others, live) && arrays <= others && others == live - OwnedAll(values)
    ensures live == arrays + OwnedAll(values) ==> others == arrays
  {
    others := live - OwnedAll(values);
  }

  lemma OnlyTheNewTree(v: Value, values: seq<Value>, before: set<Addr>, arrays: set<Addr>, decoded: set<Addr>,
                       made: set<Addr>, a: Addr, b: Addr)
    requires a !in before && b !in before && arrays == before + {a, b}
    requires OwnedAll(values) !! arrays && decoded == arrays + OwnedAll(values) && NewTree(v, decoded, made)
    ensures NewTree(v, before, made - OwnedAll(values) - {a} - {b})
  {
    hide OwnedAll, Owned, Separate;
  }

  // The three loops of lines 81 to 121, 242 to 271 and 347 to 377: child by child, until one is missing or does not
  // decode.
  method DecodeAll(heap: Heap, s: Schema, node: Node, props: seq<Property>) returns (values: seq<Value>, ok: bool)
    modifies heap
    ensures |values| <= |props| && AllComplete(values) && AllCopyable(values)
    ensures ok ==> |values| == |props| && MembersConform(s, node, props)
                   && Shapes(Names(props), values) == ExpectedMembers(s, node, props)
    ensures ok <==> MembersConform(s, node, props) && heap.failures == old(heap.failures)
    ensures heap.failures >= old(heap.failures)
    ensures SeparateAll(values) && OwnedAll(values) !! old(heap.live) && old(heap.live) + OwnedAll(values) <= heap.live
    ensures heap.failures == old(heap.failures) ==> heap.live == old(heap.live) + OwnedAll(values)
    decreases node, 0, |props| + 1
  {
    hide MemberConforms, NewTree, Copyable, Complete, ShapeOf, OwnedAll, SeparateAll, Shapes, ExpectedMembers;
    values, ok := [], true;
    NoMembersYet(s, node, props);
    var j := 0;
    while j < |props| && ok
      invariant j <= |props| && |values| <= j && AllComplete(values) && AllCopyable(values)
      invariant heap.failures >= old(heap.failures)
      invariant SeparateAll(values) && OwnedAll(values) !! old(heap.live) && old(heap.live) + OwnedAll(values) <= heap.live
      invariant heap.failures == old(heap.failures) ==> heap.live == old(heap.live) + OwnedAll(values)
      invariant ok ==> |values| == j && heap.failures == old(heap.failures)
      invariant ok ==> MembersConform(s, node, props[..j])
                       && Shapes(Names(props[..j]), values) == ExpectedMembers(s, node, props[..j])
      invariant !ok ==> heap.failures > old(heap.failures) || !MembersConform(s, node, props)
    {
      ghost var before := heap.live;
      var v := DecodeMember(heap, s, node, props[j]);
      if v.Some? {
        MemberAdded(s, node, props, j, values, v.value, old(heap.live), before, heap.live);
        values := values + [v.value];
      } else {
        ok := false;
        assert !MemberConforms(s, node, props[j]) ==> !MembersConform(s, node, props);
      }
      j := j + 1;
    }
    assert props[..|props|] == props;
  }

  // One round of the loop.
  method DecodeMember(heap: Heap, s: Schema, node: Node, p: Property) returns (v: Option<Value>)
    modifies heap
    ensures v.Some? ==>
              && MemberConforms(s, node, p) && Complete(v.value) && Copyable(v.value)
              && ShapeOf(v.value) == Expected(s, node.children[Find(node.children, p.name)].node, p.typeName)
              && NewTree(v.value, old(heap.live), heap.live)
    ensures v.Some? <==> MemberConforms(s, node, p) && heap.failures == old(heap.failures)
    ensures heap.failures >= old(heap.failures) && old(heap.live) <= heap.live
    ensures v.None? && heap.failures == old(heap.failures) ==> heap.live == old(heap.live)
    decreases node, 0, 0
  {
    hide NewTree, Copyable, Complete, ShapeOf, Conforms, Expected;
    var i := GetChildByName(node, p.name);
    if i == |node.children| {
      return None;
    }
    v := DecodeValue(heap, s, node.children[i].node, p.typeName);
  }

  lemma NoMembersYet(s: Schema, node: Node, props: seq<Property>)
    ensures SeparateAll([]) && OwnedAll([]) == {}
    ensures MembersConform(s, node, props[..0]) && Shapes(Names(props[..0]), []) == ExpectedMembers(s, node, props[..0])
  {
  }

  lemma MemberAdded(s: Schema, node: Node, props: seq<Property>, j: nat, values: seq<Value>, v: Value,
                    start: set<Addr>, before: set<Addr>, after: set<Addr>)
    requires j == |values| < |props| && AllComplete(values) && AllCopyable(values)
    requires MembersConform(s, node, props[..j]) && MemberConforms(s, node, props[j])
    requires Shapes(Names(props[..j]), values) == ExpectedMembers(s, node, props[..j])
    requires Complete(v) && Copyable(v)
    requires ShapeOf(v) == Expected(s, node.children[Find(node.children, props[j].name)].node, props[j].typeName)
    requires SeparateAll(values) && OwnedAll(values) !! start && before == start + OwnedAll(values)
    requires NewTree(v, before, after)
    ensures AllComplete(values + [v]) && AllCopyable(values + [v])
    ensures MembersConform(s, node, props[..j + 1])
    ensures Shapes(Names(props[..j + 1]), values + [v]) == ExpectedMembers(s, node, props[..j + 1])
    ensures SeparateAll(values + [v]) && OwnedAll(values + [v]) !! start && after == start + OwnedAll(values + [v])
  {
    hide Complete, Copyable, ShapeOf, OwnedAll, SeparateAll, MembersConform, Shapes, ExpectedMembers, MemberConforms, Expected;
    ShapeAdded(s, node, props, j, values, v);
    TreeAdded(values, v, start, before, after);
  }

  lemma ShapeAdded(s: Schema, node: Node, props: seq<Property>, j: nat, values: seq<Value>, v: Value)
    requires j == |values| < |props| && AllComplete(values) && Complete(v)
    requires MembersConform(s, node, props[..j]) && MemberConforms(s, node, props[j])
    requires Shapes(Names(props[..j]), values) == ExpectedMembers(s, node, props[..j])
    requires ShapeOf(v) == Expected(s, node.children[Find(node.children, props[j].name)].node, props[j].typeName)
    ensures AllComplete(values + [v]) && MembersConform(s, node, props[..j + 1])
    ensures Shapes(Names(props[..j + 1]), values + [v]) == ExpectedMembers(s, node, props[..j + 1])
  {
    hide Complete, ShapeOf, Expected, MemberConforms, MembersConform, Shapes, ExpectedMembers;
    ExpectedStep(s, node, props, j);
    ShapesStep(Names(props[..j]), props[j].name, values, v);
    assert Names(props[..j + 1]) == Names(props[..j]) + [props[j].name];
  }

  lemma ShapesStep(names: seq<string>, name: string, values: seq<Value>, v: Value)
    requires |names| == |values| && AllComplete(values) && Complete(v)
    ensures AllComplete(values + [v])
    ensures Shapes(names + [name], values + [v]) == Shapes(names, values) + [(name, ShapeOf(v))]
  {
    hide Complete, ShapeOf;
    assert (names + [name])[..|names|] == names && (values + [v])[..|values|] == values;
  }

  lemma ExpectedStep(s: Schema, node: Node, props: seq<Property>, j: nat)
    requires j < |props| && MembersConform(s, node, props[..j]) && MemberConforms(s, node, props[j])
    ensures MembersConform(s, node, props[..j + 1])
    ensures ExpectedMembers(s, node, props[..j + 1])
         == ExpectedMembers(s, node, props[..j])
            + [(props[j].name, Expected(s, node.children[Find(node.children, props[j].name)].node, props[j].typeName))]
  {
    hide Conforms, Expected;
    assert props[..j + 1][..j] == props[..j];
  }

  lemma TreeAdded(values: seq<Value>, v: Value, start: set<Addr>, before: set<Addr>, after: set<Addr>)
    requires SeparateAll(values) && OwnedAll(values) !! start && before == start + OwnedAll(values)
    requires NewTree(v, before, after)
    ensures SeparateAll(values + [v]) && OwnedAll(values + [v]) !! start && after == start + OwnedAll(values + [v])
  {
    hide Separate, Owned;
    OneMoreTree(values, v, start, before, after);
  }

  // ---- dispatching an action -------------------------------------------------------------------------------------

  // The first slash, or the length.
  function Slash(path: string): (k: nat)
    ensures k <= |path|
  {
    if path == "" || path[0] == '/' then 0 else 1 + Slash(path[1..])
  }

  // Schema_GetModelModelByName.
  function ChildModel(s: Schema, model: nat, name: string): (child: Option<nat>)
    requires ValidSchema(s) && model in s.models
    ensures child.Some? ==> child.value in s.models
  {
    if name in s.models[model].elements && s.models[model].elements[name].ModelInModel? then
      Some(s.models[model].elements[name].model)
    else None
  }

  // The model that a path's segments lead to, all but the last.
  ghost function Destination(s: Schema, model: nat, path: string): Option<nat>
    requires ValidSchema(s) && model in s.models
    decreases |path|
  {
    var k := Slash(path);
    if k == |path| then Some(model)
    else if ChildModel(s, model, path[..k]).Some? then
      Destination(s, ChildModel(s, model, path[..k]).value, path[k + 1..])
    else None
  }

  ghost function Last(path: string): (l: string)
    ensures |l| <= |path|
    decreases |path|
  {
    var k := Slash(path);
    if k == |path| then path else Last(path[k + 1..])
  }

  // Everything before the last slash.
  ghost function Relative(path: string): string
  {
    if |Last(path)| == |path| then "" else path[..|path| - |Last(path)| - 1]
  }

  lemma {:induction false} SlashIsFirst(path: string)
    ensures Slash(path) < |path| ==> path[Slash(path)] == '/'
    ensures '/' !in path[..Slash(path)]
  {
    if path != "" && path[0] != '/' {
      SlashIsFirst(path[1..]);
    }
  }

  // The path is the relative path and the last segment, with the last slash between them if there is one.
  lemma {:induction false} RelativeAndLast(path: string)
    ensures '/' !in Last(path) && Last(path) == path[|path| - |Last(path)|..]
    ensures |Last(path)| < |path| ==> path[|path| - |Last(path)| - 1] == '/'
    ensures if '/' in path then path == Relative(path) + "/" + Last(path) else Relative(path) == "" && Last(path) == path
    decreases |path|
  {
    hide Slash;
    var k := Slash(path);
    SlashIsFirst(path);
    if k < |path| {
      RelativeAndLast(path[k + 1..]);
      assert path[k + 1..][|path| - k - 1 - |Last(path)|..] == path[|path| - |Last(path)|..];
      BeforeLast(path, k);
    } else {
      assert path[..k] == path;
    }
  }

  lemma BeforeLast(path: string, k: nat)
    requires k < |path| && path[k] == '/' && |Last(path)| <= |path| - k - 1
    requires Last(path) == path[|path| - |Last(path)|..]
    requires |Last(path)| < |path| - k - 1 ==> path[|path| - |Last(path)| - 1] == '/'
    ensures path == Relative(path) + "/" + Last(path)
  {
    hide Last;
    var at := |path| - |Last(path)|;
    assert path[at - 1] == '/';
    assert path == path[..at - 1] + [path[at - 1]] + path[at..];
  }

  datatype Outcome = Success | Failure | CommandError

  // A call of the callback, with what its arguments said at that moment.
  datatype Call = Call(path: string, name: string, arguments: seq<(string, Shape)>)

  // ---- what a text asks for --------------------------------------------------------------------------------------

  ghost predicate IsFirst(children: seq<Child>, name: string, i: nat)
  {
    i < |children| && children[i].name == name && forall j :: 0 <= j < i ==> children[j].name != name
  }

  // From one model into the next by the elements named.
  ghost predicate Leads(s: Schema, from: nat, segments: seq<string>, to: nat)
    decreases |segments|
  {
    && from in s.models
    && if segments == [] then from == to
       else segments[0] in s.models[from].elements &&
            match s.models[from].elements[segments[0]]
            case ModelInModel(next, _, _) => Leads(s, next, segments[1..], to)
            case _ => false
  }

  // Every segment with a slash behind it.
  ghost function Slashed(segments: seq<string>): string
  {
    if segments == [] then "" else segments[0] + "/" + Slashed(segments[1..])
  }

  ghost function WithoutLast(s: string): string
  {
    if s == "" then "" else s[..|s| - 1]
  }

  ghost predicate NoSlashes(segments: seq<string>)
  {
    forall t :: t in segments ==> '/' !in t
  }

  // The text is the segments, the action and one closing character; the parameters have what the action takes.
  ghost predicate AsksWith(s: Schema, root: nat, text: string, command: Node, c: Call,
                           segments: seq<string>, to: nat, close: char, p: nat)
  {
    && text == Slashed(segments) + c.name + [close] && NoSlashes(segments) && '/' !in c.name && close != '/' && c.name != ""
    && c.path == WithoutLast(Slashed(segments)) && Leads(s, root, segments, to)
    && to in s.models && c.name in s.models[to].actions
    && IsFirst(command.children, "Parameters", p)
    && MembersConform(s, command.children[p].node, s.models[to].actions[c.name])
    && c.arguments == ExpectedMembers(s, command.children[p].node, s.models[to].actions[c.name])
  }

  ghost predicate AsksFor(s: Schema, root: nat, text: string, command: Node, c: Call)
  {
    exists segments, to, close, p: nat :: AsksWith(s, root, text, command, c, segments, to, close, p)
  }

  // The same of a whole command: its "Name" is an opening character and such a text.
  ghost predicate Requests(s: Schema, root: nat, command: Node, c: Call)
  {
    exists n: nat, open, text ::
      && IsFirst(command.children, "Name", n) && command.children[n].node.value == Some([open] + text)
      && AsksFor(s, root, text, command, c)
  }

  // A method is named without quotes, and may come without a payload if it takes no arguments.
  ghost predicate InvokesWith(s: Schema, root: nat, text: string, payload: Option<Node>, c: Call, segments: seq<string>, to: nat)
  {
    && text == Slashed(segments) + c.name && NoSlashes(segments) && '/' !in c.name && c.name != ""
    && c.path == WithoutLast(Slashed(segments)) && Leads(s, root, segments, to)
    && to in s.models && c.name in s.models[to].methods
    && if s.models[to].methods[c.name] == [] then c.arguments == []
       else && payload.Some? && MembersConform(s, payload.value, s.models[to].methods[c.name])
            && c.arguments == ExpectedMembers(s, payload.value, s.models[to].methods[c.name])
  }

  ghost predicate InvokesAs(s: Schema, root: nat, text: string, payload: Option<Node>, c: Call)
  {
    exists segments, to: nat :: InvokesWith(s, root, text, payload, c, segments, to)
  }

  lemma {:induction false} LeadsThere(s: Schema, from: nat, segments: seq<string>, to: nat, last: string)
    requires ValidSchema(s) && from in s.models && NoSlashes(segments) && '/' !in last
    ensures Leads(s, from, segments, to) <==> Destination(s, from, Slashed(segments) + last) == Some(to)
    ensures Last(Slashed(segments) + last) == last
    decreases |segments|
  {
    var path := Slashed(segments) + last;
    if segments == [] {
      assert path == last;
      NoSlash(path);
    } else {
      var tail := Slashed(segments[1..]) + last;
      assert path == segments[0] + "/" + tail;
      FirstSlash(segments[0], tail);
      var child := ChildModel(s, from, segments[0]);
      if child.Some? {
        LeadsThere(s, child.value, segments[1..], to, last);
      } else {
        LeadsThere(s, from, segments[1..], to, last);
      }
    }
  }

  lemma {:induction false} FirstSlash(segment: string, tail: string)
    requires '/' !in segment
    ensures var path := segment + "/" + tail;
            Slash(path) == |segment| < |path| && path[..|segment|] == segment && path[|segment| + 1..] == tail
  {
    var path := segment + "/" + tail;
    if segment != "" {
      FirstSlash(segment[1..], tail);
      assert path[1..] == segment[1..] + "/" + tail;
      assert '/' !in segment[1..];
    }
  }

  lemma {:induction false} NoSlash(path: string)
    requires '/' !in path
    ensures Slash(path) == |path|
  {
    if path != "" {
      NoSlash(path[1..]);
    }
  }

  // Every path is its segments and what is behind the last slash.
  lemma {:induction false} Split(path: string) returns (segments: seq<string>)
    ensures NoSlashes(segments) && path == Slashed(segments) + Last(path)
    decreases |path|
  {
    hide Slash, Slashed, NoSlashes;
    var k := Slash(path);
    SlashIsFirst(path);
    if k == |path| {
      segments := [];
      SlashedNone();
      assert path[..k] == path && "" + path == path;
    } else {
      var rest := Split(path[k + 1..]);
      segments := [path[..k]] + rest;
      SlashedMore(path[..k], rest);
      assert path == path[..k] + "/" + path[k + 1..];
      assert Last(path) == Last(path[k + 1..]);
      Regrouped(path[..k] + "/", Slashed(rest), Last(path));
    }
  }

  lemma SlashedNone()
    ensures Slashed([]) == "" && NoSlashes([])
  {
  }

  lemma SlashedMore(segment: string, rest: seq<string>)
    ensures '/' !in segment && NoSlashes(rest) ==> NoSlashes([segment] + rest)
    ensures Slashed([segment] + rest) == segment + "/" + Slashed(rest)
  {
    assert ([segment] + rest)[1..] == rest;
  }

  lemma RelativeOf(segments: seq<string>, last: string, path: string)
    requires path == Slashed(segments) + last && Last(path) == last
    ensures Relative(path) == WithoutLast(Slashed(segments))
  {
    hide Last;
    assert path[..|path| - |last|] == Slashed(segments);
    if segments != [] {
      assert Slashed(segments) != "";
      assert path[..|path| - |last| - 1] == WithoutLast(Slashed(segments));
    }
  }

  class Decoder {
    const schema: Schema
    const root: nat
    const heap: Heap
    ghost var calls: seq<Call>

    constructor (schema: Schema, root: nat, heap: Heap)
      requires ValidSchema(schema) && root in schema.models
      ensures this.schema == schema && this.root == root && this.heap == heap && calls == []
    {
      this.schema, this.root, this.heap := schema, root, heap;
      calls := [];
    }

    // The text between the name's quotes leads to an action, and the parameters have what it takes.
    ghost predicate Executes(path: string, command: Node)
      requires ValidSchema(schema) && root in schema.models
    {
      var m := Destination(schema, root, path);
      && m.Some? && m.value in schema.models && |Last(path)| > 1
      && Find(command.children, "Parameters") < |command.children|
      && Front(Last(path)) in schema.models[m.value].actions
      && MembersConform(schema, command.children[Find(command.children, "Parameters")].node,
                        schema.models[m.value].actions[Front(Last(path))])
    }

    ghost function TheCall(path: string, command: Node): Call
      requires ValidSchema(schema) && root in schema.models && Executes(path, command)
    {
      var action := schema.models[Destination(schema, root, path).value].actions[Front(Last(path))];
      Call(Relative(path), Front(Last(path)),
           ExpectedMembers(schema, command.children[Find(command.children, "Parameters")].node, action))
    }

    lemma ExecutesExactlyWhatIsAsked(path: string, command: Node, c: Call)
      requires ValidSchema(schema) && root in schema.models
      ensures AsksFor(schema, root, path, command, c) <==> Executes(path, command) && c == TheCall(path, command)
    {
      hide Destination, Last, MembersConform, ExpectedMembers, Relative, Leads, Slashed, NoSlashes, ValidSchema, WithoutLast;
      if segments, to, close, p: nat :| AsksWith(schema, root, path, command, c, segments, to, close, p) {
        var last := c.name + [close];
        LeadsThere(schema, root, segments, to, last);
        assert Slashed(segments) + last == path;
        RelativeOf(segments, last, path);
        FirstIsFind(command.children, "Parameters", p);
        assert Front(last) == c.name;
      }
      if Executes(path, command) && c == TheCall(path, command) {
        var segments := Split(path);
        var last := Last(path);
        RelativeAndLast(path);
        var to := Destination(schema, root, path).value;
        LeadsThere(schema, root, segments, to, last);
        RelativeOf(segments, last, path);
        var p := Find(command.children, "Parameters");
        assert last == Front(last) + [last[|last| - 1]];
        assert path == Slashed(segments) + c.name + [last[|last| - 1]];
        assert AsksWith(schema, root, path, command, c, segments, to, last[|last| - 1], p);
      }
    }

    lemma RequestsExactly(command: Node, c: Call)
      requires ValidSchema(schema) && root in schema.models
      ensures Requests(schema, root, command, c)
         <==> PathText(command).Some? && Executes(PathText(command).value, command) && c == TheCall(PathText(command).value, command)
    {
      hide Executes, TheCall, AsksFor, ValidSchema;
      if n: nat, open, text :| IsFirst(command.children, "Name", n) && command.children[n].node.value == Some([open] + text)
                               && AsksFor(schema, root, text, command, c) {
        FirstIsFind(command.children, "Name", n);
        LongEnough(text, command, c);
        assert ([open] + text)[1..] == text;
        ExecutesExactlyWhatIsAsked(text, command, c);
      }
      if PathText(command).Some? && Executes(PathText(command).value, command) && c == TheCall(PathText(command).value, command) {
        var n := Find(command.children, "Name");
        var value := command.children[n].node.value.value;
        assert value == [value[0]] + value[1..];
        ExecutesExactlyWhatIsAsked(value[1..], command, c);
        assert IsFirst(command.children, "Name", n);
      }
    }

    lemma LongEnough(text: string, command: Node, c: Call)
      requires AsksFor(schema, root, text, command, c)
      ensures |text| >= 2
    {
      hide Leads, Slashed, NoSlashes, WithoutLast, MembersConform, ExpectedMembers;
    }

    lemma InvokesExactlyWhatIsAsked(path: string, payload: Option<Node>, c: Call)
      requires ValidSchema(schema) && root in schema.models
      ensures InvokesAs(schema, root, path, payload, c) <==> Invokes(path, payload) && c == TheInvocation(path, payload)
    {
      hide Destination, Last, MembersConform, ExpectedMembers, Relative, Leads, Slashed, NoSlashes, ValidSchema, WithoutLast;
      if segments, to: nat :| InvokesWith(schema, root, path, payload, c, segments, to) {
        LeadsThere(schema, root, segments, to, c.name);
        RelativeOf(segments, c.name, path);
      }
      if Invokes(path, payload) && c == TheInvocation(path, payload) {
        var segments := Split(path);
        RelativeAndLast(path);
        var to := Destination(schema, root, path).value;
        LeadsThere(schema, root, segments, to, Last(path));
        RelativeOf(segments, Last(path), path);
        assert InvokesWith(schema, root, path, payload, c, segments, to);
      }
    }

    method Callback(ghost path: string, ghost name: string, ghost arguments: seq<(string, Shape)>) returns (r: Outcome)
      modifies this`calls
      ensures calls == old(calls) + [Call(path, name, arguments)]
    {
      calls := calls + [Call(path, name, arguments)];
      var answer: Outcome := *;
      r := answer;
    }

    // The loop of ScanActionPathAndExecuteAction and of its twin for methods: segment by segment, each copied for the
    // lookup. at is where the last segment begins.
    method ScanPath(path: string) returns (model: Option<nat>, at: nat)
      requires ValidSchema(schema) && root in schema.models
      modifies heap
      ensures model.Some? ==>
                && Destination(schema, root, path) == model && model.value in schema.models
                && at <= |path| && path[at..] == Last(path)
      ensures model.Some? <==> Destination(schema, root, path).Some? && heap.failures == old(heap.failures)
      ensures heap.failures >= old(heap.failures) && heap.live == old(heap.live)
    {
      hide Destination, Last, Slash, ChildModel, ValidSchema;
      at := 0;
      assert path[0..] == path;
      var handle := root;
      while true
        invariant at <= |path| && handle in schema.models && heap.live == old(heap.live)
        invariant heap.failures == old(heap.failures)
        invariant Destination(schema, root, path) == Destination(schema, handle, path[at..])
        invariant Last(path) == Last(path[at..])
        decreases |path| - at
      {
        OneSegment(schema, handle, path, at);
        var k := NextSlash(path, at);
        if k == |path| {
          return Some(handle), at;
        }
        var copy := heap.Malloc();
        if copy.None? {
          return None, at;
        }
        var child := ChildModel(schema, handle, path[at..k]);
        heap.Free(copy.value);
        if child.None? {
          return None, at;
        }
        handle := child.value;
        at := k + 1;
      }
    }

    // ScanActionPathAndExecuteAction from the path on: the callback runs exactly once when the path leads to an action,
    // every argument decodes and no allocation fails, with the path up to its last slash; otherwise not at all. What the
    // call allocates is released again, the arguments included. The name goes into a buffer of 128 characters.
    method ExecuteAction(path: string, command: Node) returns (result: Outcome)
      requires ValidSchema(schema) && root in schema.models && |Last(path)| <= 128
      modifies this`calls, heap
      ensures heap.failures == old(heap.failures) && Executes(path, command) ==>
                calls == old(calls) + [TheCall(path, command)]
      ensures !(heap.failures == old(heap.failures) && Executes(path, command)) ==>
                calls == old(calls) && result == CommandError
      ensures forall c :: heap.failures == old(heap.failures) && AsksFor(schema, root, path, command, c) ==>
                            calls == old(calls) + [c]
      ensures heap.failures >= old(heap.failures) && old(heap.live) <= heap.live
      ensures heap.failures == old(heap.failures) ==> heap.live == old(heap.live)
    {
      hide Destination, Last, MembersConform, ExpectedMembers, Relative, TheCall, AsksFor;
      forall c
        ensures AsksFor(schema, root, path, command, c) <==> Executes(path, command) && c == TheCall(path, command)
      {
        ExecutesExactlyWhatIsAsked(path, command, c);
      }
      var model, at := ScanPath(path);
      if model.None? {
        return CommandError;
      }
      RelativeAt(path, at);
      var relative := if at == 0 then "" else path[..at - 1];
      var relativeCopy := heap.Malloc();
      if relativeCopy.None? {
        return CommandError;
      }
      result := DecodeAndExecute(path, model.value, relative, path[at..], command);
      heap.Free(relativeCopy.value);
    }

    // DecodeAndExecuteModelAction.
    method DecodeAndExecute(ghost path: string, model: nat, relative: string, actionName: string, command: Node)
      returns (result: Outcome)
      requires ValidSchema(schema) && root in schema.models && model in schema.models
      requires Destination(schema, root, path) == Some(model) && actionName == Last(path) && relative == Relative(path)
      modifies this`calls, heap
      ensures heap.failures == old(heap.failures) && Executes(path, command) ==>
                calls == old(calls) + [TheCall(path, command)]
      ensures !(heap.failures == old(heap.failures) && Executes(path, command)) ==>
                calls == old(calls) && result == CommandError
      ensures heap.failures >= old(heap.failures) && old(heap.live) <= heap.live
      ensures heap.failures == old(heap.failures) ==> heap.live == old(heap.live)
    {
      hide Destination, Last, MembersConform, ExpectedMembers, Relative, OwnedAll, SeparateAll, NewTrees, Shapes;
      hide AllComplete, AllCopyable;
      if |actionName| <= 1 {
        return CommandError;
      }
      var tempStr := Front(actionName);
      var i := GetChildByName(command, "Parameters");
      if i == |command.children| {
        return CommandError;
      }
      if tempStr !in schema.models[model].actions {
        return CommandError;
      }
      var arguments := schema.models[model].actions[tempStr];
      var parameters := command.children[i].node;
      var block := None;
      if |arguments| > 0 {
        block := heap.Malloc();
        if block.None? {
          return CommandError;
        }
      }
      ghost var start := heap.live;
      var values, ok := DecodeAll(heap, schema, parameters, arguments);
      result := CommandError;
      if ok {
        result := Callback(relative, tempStr, Shapes(Names(arguments), values));
      }
      ghost var others := Others(values, start, heap.live, heap.live);
      DestroyAll(heap, values, others);
      heap.FreeIfAny(block);
    }

    // DecodeCommand: the path is the text of the "Name" child without its first character, the opening quote.
    method DecodeCommand(command: Node) returns (result: Outcome)
      requires ValidSchema(schema) && root in schema.models
      requires PathText(command).Some? ==> |Last(PathText(command).value)| <= 128
      modifies this`calls, heap
      ensures forall c :: heap.failures == old(heap.failures) && Requests(schema, root, command, c) ==>
                            calls == old(calls) + [c]
      ensures (heap.failures > old(heap.failures) || forall c :: !Requests(schema, root, command, c)) ==>
                calls == old(calls) && result == CommandError
      ensures heap.failures >= old(heap.failures)
      ensures heap.failures == old(heap.failures) ==> heap.live == old(heap.live)
    {
      hide Destination, Last, MembersConform, ExpectedMembers, Relative, Executes, TheCall, Requests;
      forall c
        ensures Requests(schema, root, command, c)
           <==> PathText(command).Some? && Executes(PathText(command).value, command) && c == TheCall(PathText(command).value, command)
      {
        RequestsExactly(command, c);
      }
      if PathText(command).Some? && Executes(PathText(command).value, command) {
        RequestsExactly(command, TheCall(PathText(command).value, command));
      }
      var i := GetChildByName(command, "Name");
      if i == |command.children| || command.children[i].node.value.None? || |command.children[i].node.value.value| < 2 {
        return CommandError;
      }
      result := ExecuteAction(command.children[i].node.value.value[1..], command);
    }

    // The same for a method, whose name is not quoted and whose arguments are the members of the payload, if there is one.
    ghost predicate Invokes(path: string, payload: Option<Node>)
      requires ValidSchema(schema) && root in schema.models
    {
      var m := Destination(schema, root, path);
      && m.Some? && m.value in schema.models && Last(path) != ""
      && Last(path) in schema.models[m.value].methods
      && ArgumentsConform(payload, schema.models[m.value].methods[Last(path)])
    }

    ghost predicate ArgumentsConform(payload: Option<Node>, arguments: seq<Property>)
    {
      arguments != [] ==> payload.Some? && MembersConform(schema, payload.value, arguments)
    }

    ghost function ArgumentShapes(payload: Option<Node>, arguments: seq<Property>): seq<(string, Shape)>
      requires ArgumentsConform(payload, arguments)
    {
      if arguments == [] then [] else ExpectedMembers(schema, payload.value, arguments)
    }

    ghost function TheInvocation(path: string, payload: Option<Node>): Call
      requires ValidSchema(schema) && root in schema.models && Invokes(path, payload)
    {
      Call(Relative(path), Last(path),
           ArgumentShapes(payload, schema.models[Destination(schema, root, path).value].methods[Last(path)]))
    }

    // ScanMethodPathAndExecuteMethod. None stands for the null handle.
    method ExecuteMethod(path: string, payload: Option<Node>) returns (result: Option<Outcome>)
      requires ValidSchema(schema) && root in schema.models
      modifies this`calls, heap
      ensures heap.failures == old(heap.failures) && Invokes(path, payload) ==>
                calls == old(calls) + [TheInvocation(path, payload)]
      ensures !(heap.failures == old(heap.failures) && Invokes(path, payload)) ==> calls == old(calls) && result == None
      ensures forall c :: heap.failures == old(heap.failures) && InvokesAs(schema, root, path, payload, c) ==>
                            calls == old(calls) + [c]
      ensures heap.failures >= old(heap.failures) && old(heap.live) <= heap.live
      ensures heap.failures == old(heap.failures) ==> heap.live == old(heap.live)
    {
      hide Destination, Last, ArgumentsConform, ArgumentShapes, Relative, TheInvocation, InvokesAs;
      forall c
        ensures InvokesAs(schema, root, path, payload, c) <==> Invokes(path, payload) && c == TheInvocation(path, payload)
      {
        InvokesExactlyWhatIsAsked(path, payload, c);
      }
      var model, at := ScanPath(path);
      if model.None? {
        return None;
      }
      RelativeAt(path, at);
      var relative := if at == 0 then "" else path[..at - 1];
      var relativeCopy := heap.Malloc();
      if relativeCopy.None? {
        return None;
      }
      result := DecodeAndInvoke(path, model.value, relative, path[at..], payload);
      heap.Free(relativeCopy.value);
    }

    // DecodeAndExecuteModelMethod.
    method DecodeAndInvoke(ghost path: string, model: nat, relative: string, name: string, payload: Option<Node>)
      returns (result: Option<Outcome>)
      requires ValidSchema(schema) && root in schema.models && model in schema.models
      requires Destination(schema, root, path) == Some(model) && name == Last(path) && relative == Relative(path)
      modifies this`calls, heap
      ensures heap.failures == old(heap.failures) && Invokes(path, payload) ==>
                calls == old(calls) + [TheInvocation(path, payload)]
      ensures !(heap.failures == old(heap.failures) && Invokes(path, payload)) ==> calls == old(calls) && result == None
      ensures heap.failures >= old(heap.failures) && old(heap.live) <= heap.live
      ensures heap.failures == old(heap.failures) ==> heap.live == old(heap.live)
    {
      hide Destination, Last, MembersConform, ExpectedMembers, Relative, OwnedAll, SeparateAll, NewTrees, Shapes;
      hide AllComplete, AllCopyable;
      result := None;
      if name == "" || name !in schema.models[model].methods {
        return;
      }
      var arguments := schema.models[model].methods[name];
      if arguments == [] {
        var answer := Callback(relative, name, []);
        return Some(answer);
      }
      var block := heap.Malloc();
      if block.None? {
        return;
      }
      if payload.Some? {
        ghost var start := heap.live;
        var values, ok := DecodeAll(heap, schema, payload.value, arguments);
        if ok {
          var answer := Callback(relative, name, Shapes(Names(arguments), values));
          result := Some(answer);
        }
        ghost var others := Others(values, start, heap.live, heap.live);
        DestroyAll(heap, values, others);
      }
      heap.Free(block.value);
    }
  }

  method NextSlash(path: string, at: nat) returns (k: nat)
    requires at <= |path|
    ensures k == at + Slash(path[at..])
  {
    k := at;
    while k < |path| && path[k] != '/'
      invariant at <= k <= |path| && Slash(path[at..]) == k - at + Slash(path[k..])
    {
      assert path[k..][1..] == path[k + 1..];
      k := k + 1;
    }
  }

  lemma OneSegment(s: Schema, handle: nat, path: string, at: nat)
    requires ValidSchema(s) && handle in s.models && at <= |path|
    ensures var k := at + Slash(path[at..]);
            && k <= |path|
            && (k == |path| ==> Destination(s, handle, path[at..]) == Some(handle) && Last(path[at..]) == path[at..])
            && (k < |path| ==>
                  && Last(path[at..]) == Last(path[k + 1..])
                  && Destination(s, handle, path[at..])
                     == if ChildModel(s, handle, path[at..k]).None? then None
                        else Destination(s, ChildModel(s, handle, path[at..k]).value, path[k + 1..]))
  {
    hide Destination, Last, Slash, ChildModel, ValidSchema;
    FirstSegment(s, handle, path[at..]);
    Slices(path, at, Slash(path[at..]));
  }

  lemma Slices(path: string, at: nat, k: nat)
    requires at + k <= |path|
    ensures path[at..][..k] == path[at..at + k]
    ensures at + k < |path| ==> path[at..][k + 1..] == path[at + k + 1..]
  {
  }

  lemma FirstSegment(s: Schema, handle: nat, t: string)
    requires ValidSchema(s) && handle in s.models
    ensures var k := Slash(t);
            && (k == |t| ==> Destination(s, handle, t) == Some(handle) && Last(t) == t)
            && (k < |t| ==>
                  && Last(t) == Last(t[k + 1..])
                  && Destination(s, handle, t)
                     == if ChildModel(s, handle, t[..k]).None? then None
                        else Destination(s, ChildModel(s, handle, t[..k]).value, t[k + 1..]))
  {
    hide Slash, ChildModel, ValidSchema;
  }

  lemma RelativeAt(path: string, at: nat)
    requires at <= |path| && path[at..] == Last(path)
    ensures Relative(path) == if at == 0 then "" else path[..at - 1]
  {
    assert |Last(path)| == |path| - at;
  }

  function PathText(command: Node): Option<string>
  {
    var i := Find(command.children, "Name");
    if i == |command.children| || command.children[i].node.value.None? || |command.children[i].node.value.value| < 2 then
      None
    else Some(command.children[i].node.value.value[1..])
  }

  // A name without its last character, which is the closing quote of the JSON string.
  function Front(name: string): string
    requires name != ""
  {
    name[..|name| - 1]
  }
}
