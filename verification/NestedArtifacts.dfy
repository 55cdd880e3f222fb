/**
 Nested values with tensor leaves, saved as a flat tensor dictionary and a skeleton that refers back to it. Saving
 writes every tensor under the slash-joined path of its keys; loading walks the skeleton.
 */
module NestedArtifacts {
  import opened Decimals
  import opened NestedKeys
  import opened NestedPaths
  import opened Wrappers

  /** A nested value. A dictionary keeps its insertion order; an unsupported leaf is any other type. */
  datatype Value =
    | Leaf(tensor: Tensor)
    | Dict(entries: seq<(Key, Value)>)
    | List(items: seq<Value>, isTuple: bool)
    | Scalar(text: string)
    | Unsupported

  /** The skeleton: a reference for each tensor, and the kind of every key. */
  datatype Node =
    | Ref(path: string)
    | DictNode(items: seq<(string, Node)>, tupleKeys: map<string, bool>)
    | ListNode(nodes: seq<Node>, isTuple: bool)
    | ScalarNode(text: string)

  // ---------------------------------------------------------------- children

  function Width(v: Value): nat {
    match v
    case Dict(entries) => |entries|
    case List(items, _) => |items|
    case _ => 0
  }

  function Child(v: Value, i: nat): (c: Value)
    requires i < Width(v)
    ensures c < v
  {
    if v.Dict? then v.entries[i].1 else v.items[i]
  }

  /** The path segment of a child: its encoded key, or its index. */
  function Segment(v: Value, i: nat): string
    requires i < Width(v)
  {
    if v.Dict? then EncodeKey(v.entries[i].0) else Decimal(i)
  }

  function Segments(v: Value): seq<string> {
    seq(Width(v), i requires 0 <= i < Width(v) => Segment(v, i))
  }

  predicate Supported(v: Value)
    decreases v
  {
    !v.Unsupported? && forall i {:trigger Child(v, i)} :: 0 <= i < Width(v) ==> Supported(Child(v, i))
  }

  // ---------------------------------------------------------------- what saving yields

  /** The tensors below a value, each under its list of segments, in the order they are written. */
  function Leaves(v: Value, segments: seq<string>): seq<Written>
    decreases v, 1
  {
    if v.Leaf? then [Written(segments, v.tensor)] else Concat(Groups(v, segments), Width(v))
  }

  /** The tensors below each child. */
  function Groups(v: Value, segments: seq<string>): seq<seq<Written>>
    decreases v, 0
  {
    seq(Width(v), i requires 0 <= i < Width(v) => Leaves(Child(v, i), segments + [Segment(v, i)]))
  }

  /** The skeleton of a value at a path. */
  function NodeOf(v: Value, path: string): Node
    decreases v, 1
  {
    match v
    case Leaf(_) => Ref(path)
    case Dict(entries) =>
      DictNode(Zip(Segments(v), Nodes(v, path), |entries|), Kinds(Segments(v), TupleFlags(v), |entries|))
    case List(_, isTuple) => ListNode(Nodes(v, path), isTuple)
    case Scalar(text) => ScalarNode(text)
    case Unsupported => ScalarNode("")
  }

  function Nodes(v: Value, path: string): seq<Node>
    decreases v, 0
  {
    seq(Width(v), i requires 0 <= i < Width(v) => NodeOf(Child(v, i), Extend(path, Segment(v, i))))
  }

  function TupleFlags(v: Value): seq<bool> {
    seq(Width(v), i requires 0 <= i < Width(v) => v.Dict? && IsTuple(v.entries[i].0))
  }

  // ---------------------------------------------------------------- saving

  /** The dictionary every recursive call writes into. */
  class Flattening {
    var tensors: Store

    constructor ()
      ensures tensors == map[]
    {
      tensors := map[];
    }

    /** Emit the tensors of a value and return its skeleton; None for a value of an unsupported type. */
    method Flatten(v: Value, path: string, ghost segments: seq<string>) returns (node: Option<Node>)
      requires path == Join(segments)
      modifies this
      ensures node == if Supported(v) then Some(NodeOf(v, path)) else None
      ensures Supported(v) ==> tensors == WriteAll(old(tensors), Leaves(v, segments))
      decreases v, 2, 0
    {
      match v {
        case Leaf(t) =>
          WriteOne(tensors, Written(segments, t));
          tensors := tensors[path := t];
          node := Some(Ref(path));
        case Dict(_) => node := FlattenDict(v, path, segments);
        case List(_, isTuple) => node := FlattenList(v, path, segments);
        case Scalar(text) => node := Some(ScalarNode(text));
        case Unsupported => node := None;
      }
    }

    method FlattenDict(v: Value, path: string, ghost segments: seq<string>) returns (node: Option<Node>)
      requires path == Join(segments) && v.Dict?
      modifies this
      ensures node == if Supported(v) then Some(NodeOf(v, path)) else None
      ensures Supported(v) ==> tensors == WriteAll(old(tensors), Leaves(v, segments))
      decreases v, 1, 1
    {
      var nodes := FlattenChildren(v, path, segments, Nodes(v, path), Groups(v, segments));
      if nodes == None {
        return None;
      }
      WriteGroupsIsWriteAll(old(tensors), Groups(v, segments), Width(v));
      var items := Fill(Segments(v), nodes.value);
      var kinds := FillKinds(Segments(v), TupleFlags(v));
      return Some(DictNode(items, kinds));
    }

    method FlattenList(v: Value, path: string, ghost segments: seq<string>) returns (node: Option<Node>)
      requires path == Join(segments) && v.List?
      modifies this
      ensures node == if Supported(v) then Some(NodeOf(v, path)) else None
      ensures Supported(v) ==> tensors == WriteAll(old(tensors), Leaves(v, segments))
      decreases v, 1, 1
    {
      var nodes := FlattenChildren(v, path, segments, Nodes(v, path), Groups(v, segments));
      if nodes == None {
        return None;
      }
      WriteGroupsIsWriteAll(old(tensors), Groups(v, segments), Width(v));
      return Some(ListNode(nodes.value, v.isTuple));
    }

    /** The skeletons of the children, in order; the first unsupported one ends it. */
    method FlattenChildren(v: Value, path: string, ghost segments: seq<string>, ghost wants: seq<Node>,
                           ghost groups: seq<seq<Written>>) returns (nodes: Option<seq<Node>>)
      requires path == Join(segments) && Described(v, path, segments, wants, groups)
      modifies this
      ensures nodes == if SupportedTo(v, Width(v)) then Some(wants) else None
      ensures nodes.Some? ==> tensors == WriteGroups(old(tensors), groups, Width(v))
      decreases v, 1, 0
    {
      var done := [];
      for i := 0 to Width(v)
        invariant done == wants[..i] && SupportedTo(v, i)
        invariant tensors == WriteGroups(old(tensors), groups, i)
      {
        var child := FlattenChild(v, i, path, segments, wants, groups);
        if child == None {
          return None;
        }
        TakeOneMore(wants, i);
        done := done + [child.value];
      }
      TakeAll(wants);
      return Some(done);
    }

    /** One child, under its own segment. */
    method FlattenChild(v: Value, i: nat, path: string, ghost segments: seq<string>, ghost wants: seq<Node>,
                        ghost groups: seq<seq<Written>>) returns (node: Option<Node>)
      requires i < Width(v) && path == Join(segments) && Described(v, path, segments, wants, groups)
      modifies this
      ensures node == if Supported(Child(v, i)) then Some(wants[i]) else None
      ensures node.Some? ==> tensors == WriteAll(old(tensors), groups[i])
      decreases v, 0, i
    {
      assert DescribedAt(v, path, segments, wants, groups, i);
      JoinSnoc(segments, Segment(v, i));
      node := Flatten(Child(v, i), Extend(path, Segment(v, i)), segments + [Segment(v, i)]);
    }
  }

  /** What each child is to yield. */
  ghost predicate DescribedAt(v: Value, path: string, segments: seq<string>, wants: seq<Node>,
                              groups: seq<seq<Written>>, i: nat)
    requires i < Width(v) == |wants| == |groups|
  {
    && wants[i] == NodeOf(Child(v, i), Extend(path, Segment(v, i)))
    && groups[i] == Leaves(Child(v, i), segments + [Segment(v, i)])
  }

  ghost predicate Described(v: Value, path: string, segments: seq<string>, wants: seq<Node>,
                            groups: seq<seq<Written>>) {
    && Width(v) == |wants| == |groups|
    && forall i {:trigger DescribedAt(v, path, segments, wants, groups, i)} :: 0 <= i < Width(v) ==>
         DescribedAt(v, path, segments, wants, groups, i)
  }

  predicate SupportedTo(v: Value, n: nat)
    requires n <= Width(v)
  {
    forall i {:trigger Child(v, i)} :: 0 <= i < n ==> Supported(Child(v, i))
  }

  // ---------------------------------------------------------------- loading

  function Height(node: Node): nat {
    match node
    case DictNode(items, _) => |items|
    case ListNode(nodes, _) => |nodes|
    case _ => 0
  }

  function SubNode(node: Node, i: nat): (c: Node)
    requires i < Height(node)
    ensures c < node
  {
    if node.DictNode? then node.items[i].1 else node.nodes[i]
  }

  /** The value a skeleton stands for, given the tensors; None when it refers to a missing one. */
  function Read(num: Numbers, node: Node, store: Store): Option<Value>
    decreases node, 1
  {
    match node
    case Ref(path) => if path in store then Some(Leaf(store[path])) else None
    case ScalarNode(text) => Some(Scalar(text))
    case ListNode(_, isTuple) =>
      var items := Collect(Answers(num, node, store), Height(node));
      if items == None then None else Some(List(items.value, isTuple))
    case DictNode(_, _) =>
      var values := Collect(Answers(num, node, store), Height(node));
      CollectLength(Answers(num, node, store), Height(node));
      if values == None then None else Some(Dict(Zip(Keys(num, node), values.value, Height(node))))
  }

  function Answers(num: Numbers, node: Node, store: Store): seq<Option<Value>>
    decreases node, 0
  {
    seq(Height(node), i requires 0 <= i < Height(node) => Read(num, SubNode(node, i), store))
  }

  /** The decoded keys; one whose kind is not recorded is taken for text. */
  function Keys(num: Numbers, node: Node): seq<Key> {
    seq(Height(node), i requires 0 <= i < Height(node) => KeyOf(num, node, i))
  }

  function KeyOf(num: Numbers, node: Node, i: nat): Key
    requires i < Height(node)
  {
    if node.DictNode? then
      var text := node.items[i].0;
      DecodeKey(num, text, text in node.tupleKeys && node.tupleKeys[text])
    else Str("")
  }

  /** Rebuild the value a skeleton stands for. */
  method Load(num: Numbers, node: Node, store: Store) returns (r: Option<Value>)
    ensures r == Read(num, node, store)
    decreases node, 1
  {
    match node
    case Ref(path) => return if path in store then Some(Leaf(store[path])) else None;
    case ScalarNode(text) => return Some(Scalar(text));
    case ListNode(_, isTuple) =>
      var items := LoadChildren(num, node, store);
      return if items == None then None else Some(List(items.value, isTuple));
    case DictNode(_, _) =>
      var values := LoadChildren(num, node, store);
      if values == None {
        return None;
      }
      CollectLength(Answers(num, node, store), Height(node));
      var entries := Fill(Keys(num, node), values.value);
      return Some(Dict(entries));
  }

  method LoadChildren(num: Numbers, node: Node, store: Store) returns (values: Option<seq<Value>>)
    ensures values == Collect(Answers(num, node, store), Height(node))
    decreases node, 0
  {
    var done := [];
    for i := 0 to Height(node)
      invariant Collect(Answers(num, node, store), i) == Some(done)
    {
      var item := Load(num, SubNode(node, i), store);
      if item == None {
        MissingForGood(Answers(num, node, store), i + 1, Height(node));
        return None;
      }
      done := done + [item.value];
    }
    return Some(done);
  }

  // ---------------------------------------------------------------- which values survive

  /** Keys that decode to themselves, are not empty as text, and encode apart from their siblings. */
  predicate OkKeys(num: Numbers, v: Value)
    decreases v
  {
    && (v.Dict? ==> KeysSurvive(num, v) && AllApart(Segments(v)))
    && forall i {:trigger Child(v, i)} :: 0 <= i < Width(v) ==> OkKeys(num, Child(v, i))
  }

  predicate KeysSurvive(num: Numbers, v: Value) {
    v.Dict? ==> forall i {:trigger v.entries[i]} :: 0 <= i < |v.entries| ==>
      Survives(num, v.entries[i].0) && Proper(EncodeKey(v.entries[i].0))
  }

  /** A value's segments are proper and pairwise different. */
  lemma SegmentsAreSound(num: Numbers, v: Value)
    requires OkKeys(num, v)
    ensures AllProper(Segments(v)) && AllApart(Segments(v))
  {
    forall i | 0 <= i < Width(v) ensures Proper(Segments(v)[i]) {
      if !v.Dict? {
        DecimalRoundTrip(i);
      }
    }
    if !v.Dict? {
      forall i, j | 0 <= i < j < Width(v) ensures ApartAt(Segments(v), i, j) {
        if Decimal(i) == Decimal(j) {
          DecimalInjective(i, j);
        }
      }
    }
  }

  // ---------------------------------------------------------------- paths never collide

  lemma {:induction false} LeavesAreBelow(num: Numbers, v: Value, segments: seq<string>)
    requires OkKeys(num, v) && AllProper(segments)
    ensures AllBelow(Leaves(v, segments), segments)
    decreases v
  {
    if !v.Leaf? {
      GroupsAreBelow(num, v, segments);
      ConcatBelow(Groups(v, segments), Segments(v), Width(v), segments);
    }
  }

  lemma {:induction false} GroupsAreBelow(num: Numbers, v: Value, segments: seq<string>)
    requires OkKeys(num, v) && AllProper(segments)
    ensures GroupsBelow(Groups(v, segments), Segments(v), segments)
    decreases v, 0
  {
    SegmentsAreSound(num, v);
    forall i | 0 <= i < Width(v) ensures AllBelow(Groups(v, segments)[i], segments + [Segments(v)[i]]) {
      assert Proper(Segments(v)[i]);
      LeavesAreBelow(num, Child(v, i), segments + [Segment(v, i)]);
    }
  }

  /** The tensors below a value are written under pairwise different segment lists. */
  lemma {:induction false} LeavesApart(num: Numbers, v: Value, segments: seq<string>)
    requires OkKeys(num, v) && AllProper(segments)
    ensures AllDiffer(Leaves(v, segments))
    decreases v
  {
    if !v.Leaf? {
      SegmentsAreSound(num, v);
      GroupsAreBelow(num, v, segments);
      forall i | 0 <= i < Width(v) ensures AllDiffer(Groups(v, segments)[i]) {
        assert Proper(Segments(v)[i]);
        LeavesApart(num, Child(v, i), segments + [Segment(v, i)]);
      }
      ConcatApart(Groups(v, segments), Segments(v), Width(v), segments);
    }
  }

  /** No two tensor leaves share a flat key. */
  lemma FlatKeysAreDistinct(num: Numbers, v: Value)
    requires OkKeys(num, v)
    ensures PathsDiffer(Leaves(v, []))
  {
    LeavesAreBelow(num, v, []);
    LeavesApart(num, v, []);
    SegmentsGivePaths(Leaves(v, []));
  }

  // ---------------------------------------------------------------- the round trip

  /** A key as loading finds it. */
  function Redecoded(num: Numbers, k: Key): Key {
    DecodeKey(num, EncodeKey(k), IsTuple(k))
  }

  /** Every key survives encoding, and no two keys of one dictionary are written alike. */
  predicate KeysKept(num: Numbers, v: Value)
    decreases v
  {
    && (v.Dict? ==> AllApart(Segments(v)) && EntriesKept(num, v))
    && forall i {:trigger Child(v, i)} :: 0 <= i < Width(v) ==> KeysKept(num, Child(v, i))
  }

  predicate EntriesKept(num: Numbers, v: Value)
    requires v.Dict?
  {
    forall i {:trigger v.entries[i]} :: 0 <= i < |v.entries| ==> Survives(num, v.entries[i].0)
  }

  /** Keys that survive and bring neither slash nor nothing into a path are kept. */
  lemma {:induction false} OkKeysAreKept(num: Numbers, v: Value)
    requires OkKeys(num, v)
    ensures KeysKept(num, v)
    decreases v
  {
    forall i | 0 <= i < Width(v) ensures KeysKept(num, Child(v, i)) {
      OkKeysAreKept(num, Child(v, i));
    }
  }

  /** Child i of a value's skeleton is the skeleton of its child i, under its key as loading finds it. */
  lemma SkeletonOfChild(num: Numbers, v: Value, path: string, i: nat)
    requires i < Width(v) && (v.Dict? ==> AllApart(Segments(v)))
    ensures var node := NodeOf(v, path);
            && Height(node) == Width(v) && SubNode(node, i) == Nodes(v, path)[i]
            && (v.Dict? ==> KeyOf(num, node, i) == Redecoded(num, v.entries[i].0))
  {
    if v.Dict? {
      var n := Width(v);
      ZipInOrder(Segments(v), Nodes(v, path), n);
      KindsKept(Segments(v), TupleFlags(v), n, i);
      assert Zip(Segments(v), Nodes(v, path), n)[i] == (Segments(v)[i], Nodes(v, path)[i]);
    }
  }

  /** A skeleton has a node for every child, unless two keys are written alike. */
  lemma SkeletonHeight(v: Value, path: string)
    requires !v.Unsupported?
    ensures Height(NodeOf(v, path)) == Width(v) <==> v.Dict? ==> AllApart(Segments(v))
    ensures Height(NodeOf(v, path)) <= Width(v)
  {
    if v.Dict? {
      ZipFull(Segments(v), Nodes(v, path));
      ZipLength(Segments(v), Nodes(v, path), Width(v));
    }
  }

  /** What is read has no more parts than the skeleton. */
  lemma ReadIsNoLonger(num: Numbers, node: Node, store: Store)
    requires Read(num, node, store).Some?
    ensures Width(Read(num, node, store).value) <= Height(node)
  {
    if node.DictNode? || node.ListNode? {
      CollectIs(Answers(num, node, store), Height(node));
      if node.DictNode? {
        ZipLength(Keys(num, node), Collect(Answers(num, node, store), Height(node)).value, Height(node));
      }
    }
  }

  /** The value of each child. */
  function Children(v: Value): seq<Value> {
    seq(Width(v), i requires 0 <= i < Width(v) => Child(v, i))
  }

  /** Every child is read back. */
  predicate ChildrenBack(num: Numbers, v: Value, node: Node, store: Store)
    requires Height(node) == Width(v)
  {
    forall i {:trigger Child(v, i)} :: 0 <= i < Width(v) ==> Answers(num, node, store)[i] == Some(Child(v, i))
  }

  /** Every key is found as it was exactly when it survives. */
  predicate KeysFound(num: Numbers, v: Value, node: Node)
    requires Height(node) == Width(v)
  {
    v.Dict? ==>
      forall i {:trigger v.entries[i]} :: 0 <= i < Width(v) ==>
        (Keys(num, node)[i] == v.entries[i].0 <==> Survives(num, v.entries[i].0))
  }

  lemma KeysAreFound(num: Numbers, v: Value, path: string)
    requires Sound(num) && Supported(v) && Height(NodeOf(v, path)) == Width(v)
    ensures KeysFound(num, v, NodeOf(v, path)) && (v.Dict? ==> AllApart(Segments(v)))
  {
    SkeletonHeight(v, path);
    if v.Dict? {
      forall i | 0 <= i < Width(v)
        ensures Keys(num, NodeOf(v, path))[i] == v.entries[i].0 <==> Survives(num, v.entries[i].0)
      {
        SkeletonOfChild(num, v, path, i);
        KeyRoundTrip(num, v.entries[i].0);
      }
    }
  }

  /** A value that is read back has its children and its keys back. */
  lemma ChildrenCameBack(num: Numbers, v: Value, node: Node, store: Store)
    requires Height(node) == Width(v) && KeysFound(num, v, node) && Read(num, node, store) == Some(v)
    requires v.Dict? || v.List?
    ensures ChildrenBack(num, v, node, store) && (v.Dict? ==> EntriesKept(num, v))
  {
    var n := Width(v);
    CollectIs(Answers(num, node, store), n);
    if v.Dict? {
      var values := Collect(Answers(num, node, store), n).value;
      ZipFull(Keys(num, node), values);
      forall i | 0 <= i < n ensures Survives(num, v.entries[i].0) && Answers(num, node, store)[i] == Some(Child(v, i)) {
        assert v.entries[i] == Pairs(Keys(num, node), values, n)[i];
      }
    }
  }

  /** Children and keys that are back make the value. */
  lemma ChildrenGiveValue(num: Numbers, v: Value, path: string, store: Store)
    requires Supported(v) && !v.Leaf? && Height(NodeOf(v, path)) == Width(v)
    requires KeysFound(num, v, NodeOf(v, path)) && (v.Dict? ==> AllApart(Segments(v)))
    requires ChildrenBack(num, v, NodeOf(v, path), store) && (v.Dict? ==> EntriesKept(num, v))
    ensures Read(num, NodeOf(v, path), store) == Some(v)
  {
    var node, n := NodeOf(v, path), Width(v);
    forall i | 0 <= i < n ensures Answers(num, node, store)[i] == Some(Children(v)[i]) {
      assert Child(v, i) == Children(v)[i];
    }
    CollectAll(Answers(num, node, store), Children(v), n);
    TakeAll(Children(v));
    ChildrenMakeValue(num, v, node);
  }

  /** A value is read back if and only if its children are, each under its own key. */
  lemma BackByChildren(num: Numbers, v: Value, path: string, store: Store)
    requires Sound(num) && Supported(v) && !v.Leaf? && Height(NodeOf(v, path)) == Width(v)
    ensures Read(num, NodeOf(v, path), store) == Some(v) <==>
              ChildrenBack(num, v, NodeOf(v, path), store) && (v.Dict? ==> EntriesKept(num, v))
  {
    KeysAreFound(num, v, path);
    if Read(num, NodeOf(v, path), store) == Some(v) && (v.Dict? || v.List?) {
      ChildrenCameBack(num, v, NodeOf(v, path), store);
    }
    if ChildrenBack(num, v, NodeOf(v, path), store) && (v.Dict? ==> EntriesKept(num, v)) {
      ChildrenGiveValue(num, v, path, store);
    }
  }

  /** The children of a value, put together under its keys, are the value. */
  lemma ChildrenMakeValue(num: Numbers, v: Value, node: Node)
    requires Height(node) == Width(v)
    requires v.Dict? ==> AllApart(Segments(v)) && forall i :: 0 <= i < Width(v) ==> Keys(num, node)[i] == v.entries[i].0
    ensures v.List? ==> Children(v) == v.items
    ensures v.Dict? ==> Zip(Keys(num, node), Children(v), Width(v)) == v.entries
  {
    if v.List? {
      SameElements(Children(v), v.items);
    } else if v.Dict? {
      forall i, j | 0 <= i < j < Width(v) ensures ApartAt(Keys(num, node), i, j) {
        assert ApartAt(Segments(v), i, j);
      }
      ZipInOrder(Keys(num, node), Children(v), Width(v));
      SameElements(Pairs(Keys(num, node), Children(v), Width(v)), v.entries);
    }
  }

  /**
   Whatever the tensors at hand, reading the skeleton of a value gives the value back if and only if its keys are
   kept and its own tensors are the ones held.
   */
  lemma {:induction false} ReadsBack(num: Numbers, v: Value, segments: seq<string>, store: Store)
    requires Sound(num) && Supported(v)
    ensures Read(num, NodeOf(v, Join(segments)), store) == Some(v) <==>
              KeysKept(num, v) && AllHeld(store, Leaves(v, segments))
    decreases v
  {
    var node := NodeOf(v, Join(segments));
    if v.Leaf? {
      assert Leaves(v, segments) == [Written(segments, v.tensor)];
      assert AllHeld(store, Leaves(v, segments)) <==> Holds(store, Leaves(v, segments)[0]);
    } else {
      SkeletonHeight(v, Join(segments));
      if Height(node) < Width(v) {
        if Read(num, node, store).Some? {
          ReadIsNoLonger(num, node, store);
        }
      } else {
        forall i | 0 <= i < Width(v) ensures ChildAgrees(num, v, segments, store, i) {
          SkeletonOfChild(num, v, Join(segments), i);
          JoinSnoc(segments, Segment(v, i));
          ReadsBack(num, Child(v, i), segments + [Segment(v, i)], store);
        }
        BackWhenChildrenAgree(num, v, segments, store);
      }
    }
  }

  /** Child i is read back exactly when its own keys are kept and its own tensors held. */
  predicate ChildAgrees(num: Numbers, v: Value, segments: seq<string>, store: Store, i: nat)
    requires i < Width(v) == Height(NodeOf(v, Join(segments)))
  {
    Answers(num, NodeOf(v, Join(segments)), store)[i] == Some(Child(v, i)) <==>
      KeysKept(num, Child(v, i)) && AllHeld(store, Groups(v, segments)[i])
  }

  lemma BackWhenChildrenAgree(num: Numbers, v: Value, segments: seq<string>, store: Store)
    requires Sound(num) && Supported(v) && !v.Leaf? && Width(v) == Height(NodeOf(v, Join(segments)))
    requires forall i {:trigger Child(v, i)} :: 0 <= i < Width(v) ==> ChildAgrees(num, v, segments, store, i)
    ensures Read(num, NodeOf(v, Join(segments)), store) == Some(v) <==>
              KeysKept(num, v) && AllHeld(store, Leaves(v, segments))
  {
    SkeletonHeight(v, Join(segments));
    BackByChildren(num, v, Join(segments), store);
    HeldByGroups(v, segments, store);
  }

  lemma HeldByGroups(v: Value, segments: seq<string>, store: Store)
    requires !v.Leaf?
    ensures AllHeld(store, Leaves(v, segments)) <==>
              forall i {:trigger Child(v, i)} :: 0 <= i < Width(v) ==> AllHeld(store, Groups(v, segments)[i])
  {
    var groups := Groups(v, segments);
    if AllHeld(store, Leaves(v, segments)) {
      forall i | 0 <= i < Width(v) ensures AllHeld(store, groups[i]) {
        HeldBelow(store, groups, Width(v), i);
      }
    }
    if forall i {:trigger Child(v, i)} :: 0 <= i < Width(v) ==> AllHeld(store, groups[i]) {
      forall i | 0 <= i < Width(v) ensures AllHeld(store, groups[i]) {
        var c := Child(v, i);
      }
      HeldTogether(store, groups, Width(v));
    }
  }

  /**
   Saving and loading gives a supported value back if and only if every key is kept and tensors that share a flat
   key are the same tensor.
   */
  lemma SaveThenLoad(num: Numbers, v: Value)
    requires Sound(num) && Supported(v)
    ensures Read(num, NodeOf(v, ""), WriteAll(map[], Leaves(v, []))) == Some(v) <==>
              KeysKept(num, v) && Consistent(Leaves(v, []))
  {
    WrittenIsHeld(map[], Leaves(v, []));
    ReadsBack(num, v, [], WriteAll(map[], Leaves(v, [])));
  }

  /** Keys that are nonempty text without "%2F" or nonempty tuples of integers are always enough. */
  lemma WellFormedKeysComeBack(num: Numbers, v: Value)
    requires Sound(num) && Supported(v) && OkKeys(num, v)
    ensures Read(num, NodeOf(v, ""), WriteAll(map[], Leaves(v, []))) == Some(v)
  {
    OkKeysAreKept(num, v);
    FlatKeysAreDistinct(num, v);
    ApartIsConsistent(Leaves(v, []));
    SaveThenLoad(num, v);
  }

  /** Saving and loading, run one after the other. */
  method SaveAndLoad(num: Numbers, v: Value) returns (r: Option<Value>)
    requires Sound(num)
    ensures !Supported(v) ==> r == None
    ensures Supported(v) ==> (r == Some(v) <==> KeysKept(num, v) && Consistent(Leaves(v, [])))
  {
    var f := new Flattening();
    var node := f.Flatten(v, "", []);
    if node == None {
      return None;
    }
    r := Load(num, node.value, f.tensors);
    SaveThenLoad(num, v);
  }

  // ---------------------------------------------------------------- keys that collide

  /** An empty key adds no segment: a tensor under it and one beside it are written to the same place. */
  lemma EmptyKeyCollides(a: Tensor, b: Tensor)
    ensures var v := Dict([(Str(""), Dict([(Str("x"), Leaf(a))])), (Str("x"), Leaf(b))]);
            && Supported(v) && |Leaves(v, [])| == 2
            && Join(Leaves(v, [])[0].segments) == Join(Leaves(v, [])[1].segments)
            && Leaves(v, [])[0].tensor == a && Leaves(v, [])[1].tensor == b
  {
    var inner := Dict([(Str("x"), Leaf(a))]);
    EmptyKeyLeaves(Dict([(Str(""), inner), (Str("x"), Leaf(b))]), inner, a, b);
    EmptySegment();
  }

  lemma EmptyKeyLeaves(v: Value, inner: Value, a: Tensor, b: Tensor)
    requires inner == Dict([(Str("x"), Leaf(a))]) && v == Dict([(Str(""), inner), (Str("x"), Leaf(b))])
    ensures Supported(v) && Leaves(v, []) == [Written(["", "x"], a), Written(["x"], b)]
  {
    SupportedPair(v, inner, a, b);
    assert EncodeKey(Str("x")) == "x" && EncodeKey(Str("")) == "";
    assert Child(v, 0) == inner && Child(v, 1) == Leaf(b) && Child(inner, 0) == Leaf(a);
    UnderEmptyKey(v, inner, a, b, "", "x");
  }

  lemma SupportedPair(v: Value, inner: Value, a: Tensor, b: Tensor)
    requires Width(inner) == 1 && Child(inner, 0) == Leaf(a)
    requires Width(v) == 2 && Child(v, 0) == inner && Child(v, 1) == Leaf(b)
    ensures Supported(v)
  {
    assert Supported(Leaf(a)) && Supported(Leaf(b));
    assert Supported(inner);
  }

  lemma UnderEmptyKey(v: Value, inner: Value, a: Tensor, b: Tensor, empty: string, x: string)
    requires Width(inner) == 1 && Child(inner, 0) == Leaf(a) && Segment(inner, 0) == x
    requires Width(v) == 2 && Child(v, 0) == inner && Child(v, 1) == Leaf(b)
    requires Segment(v, 0) == empty && Segment(v, 1) == x
    ensures Leaves(v, []) == [Written([empty, x], a), Written([x], b)]
  {
    LeavesOfTwo(v, []);
    LeavesOfOne(inner, [empty]);
    assert [] + [empty] == [empty] && [] + [x] == [x] && [empty] + [x] == [empty, x];
  }

  lemma LeavesOfOne(v: Value, segments: seq<string>)
    requires Width(v) == 1
    ensures Leaves(v, segments) == Leaves(Child(v, 0), segments + [Segment(v, 0)])
  {
    var groups := Groups(v, segments);
    assert Concat(groups, 1) == Concat(groups, 0) + groups[0];
  }

  lemma LeavesOfTwo(v: Value, segments: seq<string>)
    requires Width(v) == 2
    ensures Leaves(v, segments)
         == Leaves(Child(v, 0), segments + [Segment(v, 0)]) + Leaves(Child(v, 1), segments + [Segment(v, 1)])
  {
    var groups := Groups(v, segments);
    assert Concat(groups, 1) == Concat(groups, 0) + groups[0];
    assert Concat(groups, 2) == Concat(groups, 1) + groups[1];
  }

  lemma EmptySegment()
    ensures Join(["", "x"]) == Join(["x"])
  {
    JoinSnoc([""], "x");
    JoinSnoc([], "x");
    JoinSnoc([], "");
    assert [] + [""] == [""] && [] + ["x"] == ["x"] && [""] + ["x"] == ["", "x"];
  }

  /** ... so unless the two are the same tensor, saving and loading does not give the value back. */
  lemma EmptyKeyLosesTensor(num: Numbers, a: Tensor, b: Tensor)
    requires Sound(num) && a != b
    ensures var v := Dict([(Str(""), Dict([(Str("x"), Leaf(a))])), (Str("x"), Leaf(b))]);
            Read(num, NodeOf(v, ""), WriteAll(map[], Leaves(v, []))) != Some(v)
  {
    var v := Dict([(Str(""), Dict([(Str("x"), Leaf(a))])), (Str("x"), Leaf(b))]);
    EmptyKeyCollides(a, b);
    SaveThenLoad(num, v);
    assert !AgreeAt(Leaves(v, []), 0, 1);
  }
}
