/**
 Slash-joined paths and the flat dictionary written under them, apart from the values they come from: when paths
 differ, what writing keeps, and how dictionaries are filled.
 */
module NestedPaths {
  import opened Wrappers

  type Tensor(==, !new)

  type Store = map<string, Tensor>

  datatype Written = Written(segments: seq<string>, tensor: Tensor)

  function Extend(path: string, segment: string): string {
    if path == "" then segment else path + "/" + segment
  }

  function Join(segments: seq<string>): string {
    if segments == [] then "" else Extend(Join(segments[..|segments| - 1]), segments[|segments| - 1])
  }

  lemma JoinSnoc(segments: seq<string>, segment: string)
    ensures Join(segments + [segment]) == Extend(Join(segments), segment)
  {
    assert (segments + [segment])[..|segments|] == segments;
  }

  predicate Proper(segment: string) {
    segment != "" && '/' !in segment
  }

  predicate AllProper(segments: seq<string>) {
    forall k {:trigger segments[k]} :: 0 <= k < |segments| ==> Proper(segments[k])
  }

  predicate ApartAt<K(==)>(keys: seq<K>, i: nat, j: nat)
    requires i < |keys| && j < |keys|
  {
    keys[i] != keys[j]
  }

  predicate AllApart<K(==)>(keys: seq<K>) {
    forall i, j {:trigger ApartAt(keys, i, j)} :: 0 <= i < j < |keys| ==> ApartAt(keys, i, j)
  }

  // ---------------------------------------------------------------- joining is injective

  /** The last segment of a path is what follows its last slash. */
  lemma ExtendInjective(p: string, a: string, q: string, b: string)
    requires Proper(a) && Proper(b) && Extend(p, a) == Extend(q, b)
    ensures p == q && a == b
  {
    var s, t := Extend(p, a), Extend(q, b);
    if p != "" && q != "" {
      assert s[|p|] == '/' && t[|q|] == '/';
      assert |a| == |b|;
      assert p == s[..|p|] && q == t[..|q|] && a == s[|p| + 1..] && b == t[|q| + 1..];
    }
  }

  lemma {:induction false} JoinInjective(a: seq<string>, b: seq<string>)
    requires AllProper(a) && AllProper(b) && Join(a) == Join(b)
    ensures a == b
  {
    if a != [] && b != [] {
      ExtendInjective(Join(a[..|a| - 1]), a[|a| - 1], Join(b[..|b| - 1]), b[|b| - 1]);
      JoinInjective(a[..|a| - 1], b[..|b| - 1]);
      FrontAndLast(a);
      FrontAndLast(b);
    }
  }

  // ---------------------------------------------------------------- groups of writes

  /** Where a tensor's path continues below `segments`. */
  predicate Below(leaf: Written, segments: seq<string>) {
    segments <= leaf.segments && AllProper(leaf.segments)
  }

  predicate AllBelow(leaves: seq<Written>, segments: seq<string>) {
    forall k {:trigger leaves[k]} :: 0 <= k < |leaves| ==> Below(leaves[k], segments)
  }

  /** Every group is below its own segment. */
  predicate GroupsBelow(groups: seq<seq<Written>>, names: seq<string>, segments: seq<string>)
  {
    |groups| == |names| && forall i {:trigger groups[i]} :: 0 <= i < |groups| ==>
      AllBelow(groups[i], segments + [names[i]])
  }

  lemma BelowShorter(leaves: seq<Written>, segments: seq<string>, name: string)
    requires AllBelow(leaves, segments + [name])
    ensures AllBelow(leaves, segments)
  {
    forall k | 0 <= k < |leaves| ensures Below(leaves[k], segments) {
      assert Below(leaves[k], segments + [name]);
      assert (segments + [name])[..|segments|] == segments;
    }
  }

  lemma BelowTogether(a: seq<Written>, b: seq<Written>, segments: seq<string>)
    requires AllBelow(a, segments) && AllBelow(b, segments)
    ensures AllBelow(a + b, segments)
  {
  }

  lemma {:induction false} ConcatBelow(groups: seq<seq<Written>>, names: seq<string>, n: nat, segments: seq<string>)
    requires n <= |groups| && GroupsBelow(groups, names, segments)
    ensures AllBelow(Concat(groups, n), segments)
    decreases n
  {
    if n > 0 {
      ConcatBelow(groups, names, n - 1, segments);
      BelowShorter(groups[n - 1], segments, names[n - 1]);
      BelowTogether(Concat(groups, n - 1), groups[n - 1], segments);
    }
  }

  predicate DifferAt(leaves: seq<Written>, j: nat, k: nat)
    requires j < |leaves| && k < |leaves|
  {
    leaves[j].segments != leaves[k].segments
  }

  predicate AllDiffer(leaves: seq<Written>) {
    forall j, k {:trigger DifferAt(leaves, j, k)} :: 0 <= j < k < |leaves| ==> DifferAt(leaves, j, k)
  }

  /** No segment list of one sequence occurs in the other. */
  predicate Separate(a: seq<Written>, b: seq<Written>) {
    forall j, k {:trigger a[j], b[k]} :: 0 <= j < |a| && 0 <= k < |b| ==> a[j].segments != b[k].segments
  }

  lemma DifferTogether(a: seq<Written>, b: seq<Written>)
    requires AllDiffer(a) && AllDiffer(b) && Separate(a, b)
    ensures AllDiffer(a + b)
  {
    forall j, k | 0 <= j < k < |a + b| ensures DifferAt(a + b, j, k) {
      if k < |a| {
        assert DifferAt(a, j, k);
      } else if j < |a| {
        assert a[j].segments != b[k - |a|].segments;
      } else {
        assert DifferAt(b, j - |a|, k - |a|);
      }
    }
  }

  lemma BranchesSeparate(a: seq<Written>, b: seq<Written>, segments: seq<string>, left: string, right: string)
    requires left != right && AllBelow(a, segments + [left]) && AllBelow(b, segments + [right])
    ensures Separate(a, b)
  {
    forall j, k | 0 <= j < |a| && 0 <= k < |b| ensures a[j].segments != b[k].segments {
      assert Below(a[j], segments + [left]) && Below(b[k], segments + [right]);
      assert a[j].segments[|segments|] == left && b[k].segments[|segments|] == right;
    }
  }

  lemma SeparateTogether(a: seq<Written>, b: seq<Written>, c: seq<Written>)
    requires Separate(a, c) && Separate(b, c)
    ensures Separate(a + b, c)
  {
  }

  lemma {:induction false} ConcatSeparate(groups: seq<seq<Written>>, names: seq<string>, n: nat, m: nat,
                                          segments: seq<string>)
    requires n <= m < |groups| && GroupsBelow(groups, names, segments) && AllApart(names)
    ensures Separate(Concat(groups, n), groups[m])
    decreases n
  {
    if n > 0 {
      ConcatSeparate(groups, names, n - 1, m, segments);
      assert ApartAt(names, n - 1, m);
      BranchesSeparate(groups[n - 1], groups[m], segments, names[n - 1], names[m]);
      SeparateTogether(Concat(groups, n - 1), groups[n - 1], groups[m]);
    }
  }

  /** Groups under different segments, each of different lists, are of different lists together. */
  lemma {:induction false} ConcatApart(groups: seq<seq<Written>>, names: seq<string>, n: nat, segments: seq<string>)
    requires n <= |groups| && GroupsBelow(groups, names, segments) && AllApart(names)
    requires forall i {:trigger groups[i]} :: 0 <= i < |groups| ==> AllDiffer(groups[i])
    ensures AllDiffer(Concat(groups, n))
    decreases n
  {
    if n > 0 {
      ConcatApart(groups, names, n - 1, segments);
      ConcatSeparate(groups, names, n - 1, n - 1, segments);
      DifferTogether(Concat(groups, n - 1), groups[n - 1]);
    }
  }

  predicate PathsDifferAt(leaves: seq<Written>, j: nat, k: nat)
    requires j < |leaves| && k < |leaves|
  {
    Join(leaves[j].segments) != Join(leaves[k].segments)
  }

  predicate PathsDiffer(leaves: seq<Written>) {
    forall j, k {:trigger PathsDifferAt(leaves, j, k)} :: 0 <= j < k < |leaves| ==> PathsDifferAt(leaves, j, k)
  }

  lemma SegmentsGivePaths(leaves: seq<Written>)
    requires AllBelow(leaves, []) && AllDiffer(leaves)
    ensures PathsDiffer(leaves)
  {
    forall j, k | 0 <= j < k < |leaves| ensures PathsDifferAt(leaves, j, k) {
      assert Below(leaves[j], []) && Below(leaves[k], []) && DifferAt(leaves, j, k);
      if Join(leaves[j].segments) == Join(leaves[k].segments) {
        JoinInjective(leaves[j].segments, leaves[k].segments);
      }
    }
  }

  // ---------------------------------------------------------------- writing

  function WriteAll(store: Store, leaves: seq<Written>): Store {
    if leaves == [] then store
    else WriteAll(store, leaves[..|leaves| - 1])[Join(leaves[|leaves| - 1].segments) := leaves[|leaves| - 1].tensor]
  }

  lemma WriteOne(store: Store, leaf: Written)
    ensures WriteAll(store, [leaf]) == store[Join(leaf.segments) := leaf.tensor]
  {
    assert [leaf][..0] == [];
    assert WriteAll(store, []) == store;
  }

  lemma {:induction false} WriteInTurn(store: Store, a: seq<Written>, b: seq<Written>)
    ensures WriteAll(WriteAll(store, a), b) == WriteAll(store, a + b)
  {
    if b == [] {
      assert a + b == a;
    } else {
      WriteInTurn(store, a, b[..|b| - 1]);
      assert (a + b)[..|a + b| - 1] == a + b[..|b| - 1];
    }
  }

  /** Writing group after group. */
  function WriteGroups(store: Store, groups: seq<seq<Written>>, n: nat): Store
    requires n <= |groups|
  {
    if n == 0 then store else WriteAll(WriteGroups(store, groups, n - 1), groups[n - 1])
  }

  lemma {:induction false} WriteGroupsIsWriteAll(store: Store, groups: seq<seq<Written>>, n: nat)
    requires n <= |groups|
    ensures WriteGroups(store, groups, n) == WriteAll(store, Concat(groups, n))
    decreases n
  {
    if n > 0 {
      WriteGroupsIsWriteAll(store, groups, n - 1);
      WriteInTurn(store, Concat(groups, n - 1), groups[n - 1]);
    }
  }

  predicate Holds(store: Store, leaf: Written) {
    Join(leaf.segments) in store && store[Join(leaf.segments)] == leaf.tensor
  }

  predicate AllHeld(store: Store, leaves: seq<Written>) {
    forall k {:trigger leaves[k]} :: 0 <= k < |leaves| ==> Holds(store, leaves[k])
  }

  predicate AgreeAt(leaves: seq<Written>, j: nat, k: nat)
    requires j < |leaves| && k < |leaves|
  {
    Join(leaves[j].segments) == Join(leaves[k].segments) ==> leaves[j].tensor == leaves[k].tensor
  }

  /** What shares a path is the same tensor. */
  predicate Consistent(leaves: seq<Written>) {
    forall j, k {:trigger AgreeAt(leaves, j, k)} :: 0 <= j < k < |leaves| ==> AgreeAt(leaves, j, k)
  }

  lemma ApartIsConsistent(leaves: seq<Written>)
    requires PathsDiffer(leaves)
    ensures Consistent(leaves)
  {
    forall j, k | 0 <= j < k < |leaves| ensures AgreeAt(leaves, j, k) {
      assert PathsDifferAt(leaves, j, k);
    }
  }

  /** Every tensor written is still there at the end if and only if what shares a path is the same tensor. */
  lemma {:induction false} WrittenIsHeld(store: Store, leaves: seq<Written>)
    ensures AllHeld(WriteAll(store, leaves), leaves) <==> Consistent(leaves)
  {
    var all := WriteAll(store, leaves);
    if AllHeld(all, leaves) {
      forall j, k | 0 <= j < k < |leaves| ensures AgreeAt(leaves, j, k) {
        assert Holds(all, leaves[j]) && Holds(all, leaves[k]);
      }
    }
    if Consistent(leaves) && leaves != [] {
      var front, last := leaves[..|leaves| - 1], |leaves| - 1;
      forall j, k | 0 <= j < k < |front| ensures AgreeAt(front, j, k) {
        assert AgreeAt(leaves, j, k);
      }
      WrittenIsHeld(store, front);
      forall k | 0 <= k < |leaves| ensures Holds(all, leaves[k]) {
        if k < last {
          assert leaves[k] == front[k] && Holds(WriteAll(store, front), front[k]);
          assert AgreeAt(leaves, k, last);
        }
      }
    }
  }

  lemma {:induction false} HeldTogether(store: Store, groups: seq<seq<Written>>, n: nat)
    requires n <= |groups| && forall i {:trigger groups[i]} :: 0 <= i < n ==> AllHeld(store, groups[i])
    ensures AllHeld(store, Concat(groups, n))
    decreases n
  {
    if n > 0 {
      HeldTogether(store, groups, n - 1);
      HeldBoth(store, Concat(groups, n - 1), groups[n - 1]);
    }
  }

  lemma HeldBoth(store: Store, a: seq<Written>, b: seq<Written>)
    requires AllHeld(store, a) && AllHeld(store, b)
    ensures AllHeld(store, a + b)
  {
    forall k | 0 <= k < |a + b| ensures Holds(store, (a + b)[k]) {
      assert (a + b)[k] == if k < |a| then a[k] else b[k - |a|];
    }
  }

  lemma HeldParts(store: Store, a: seq<Written>, b: seq<Written>)
    requires AllHeld(store, a + b)
    ensures AllHeld(store, a) && AllHeld(store, b)
  {
    forall k | 0 <= k < |a| ensures Holds(store, a[k]) {
      assert a[k] == (a + b)[k];
    }
    forall k | 0 <= k < |b| ensures Holds(store, b[k]) {
      assert b[k] == (a + b)[|a| + k];
    }
  }

  lemma {:induction false} HeldBelow(store: Store, groups: seq<seq<Written>>, n: nat, i: nat)
    requires i < n <= |groups| && AllHeld(store, Concat(groups, n))
    ensures AllHeld(store, groups[i])
    decreases n
  {
    HeldParts(store, Concat(groups, n - 1), groups[n - 1]);
    if i < n - 1 {
      HeldBelow(store, groups, n - 1, i);
    }
  }

  // ---------------------------------------------------------------- dictionaries

  /** The first place from k on that holds a key, or the end. */
  function PlaceOf<K(==), V>(items: seq<(K, V)>, key: K, k: nat): (i: nat)
    requires k <= |items|
    ensures i <= |items| && (i < |items| ==> items[i].0 == key)
    decreases |items| - k
  {
    if k == |items| || items[k].0 == key then k else PlaceOf(items, key, k + 1)
  }

  /** Assigning to a dictionary: an existing key keeps its place. */
  function Assign<K(==), V>(items: seq<(K, V)>, key: K, value: V): seq<(K, V)> {
    var i := PlaceOf(items, key, 0);
    if i < |items| then items[i := (key, value)] else items + [(key, value)]
  }

  lemma {:induction false} PlaceOfAbsent<K, V>(items: seq<(K, V)>, key: K, k: nat)
    requires k <= |items| && forall i {:trigger items[i]} :: 0 <= i < |items| ==> items[i].0 != key
    ensures PlaceOf(items, key, k) == |items|
    decreases |items| - k
  {
    if k < |items| {
      PlaceOfAbsent(items, key, k + 1);
    }
  }

  /** Assigning to a new key appends. */
  lemma AssignNew<K, V>(items: seq<(K, V)>, key: K, value: V)
    requires forall i {:trigger items[i]} :: 0 <= i < |items| ==> items[i].0 != key
    ensures Assign(items, key, value) == items + [(key, value)]
  {
    PlaceOfAbsent(items, key, 0);
  }

  /** A dictionary filled key by key. */
  function Zip<K(==), V>(keys: seq<K>, values: seq<V>, n: nat): seq<(K, V)>
    requires n <= |keys| == |values|
  {
    if n == 0 then [] else Assign(Zip(keys, values, n - 1), keys[n - 1], values[n - 1])
  }

  function Kinds(keys: seq<string>, flags: seq<bool>, n: nat): map<string, bool>
    requires n <= |keys| == |flags|
  {
    if n == 0 then map[] else Kinds(keys, flags, n - 1)[keys[n - 1] := flags[n - 1]]
  }

  method Fill<K(==), V>(keys: seq<K>, values: seq<V>) returns (items: seq<(K, V)>)
    requires |keys| == |values|
    ensures items == Zip(keys, values, |keys|)
  {
    items := [];
    for i := 0 to |keys|
      invariant items == Zip(keys, values, i)
    {
      items := Assign(items, keys[i], values[i]);
    }
  }

  method FillKinds(keys: seq<string>, flags: seq<bool>) returns (kinds: map<string, bool>)
    requires |keys| == |flags|
    ensures kinds == Kinds(keys, flags, |keys|)
  {
    kinds := map[];
    for i := 0 to |keys|
      invariant kinds == Kinds(keys, flags, i)
    {
      kinds := kinds[keys[i] := flags[i]];
    }
  }

  function Pairs<K, V>(keys: seq<K>, values: seq<V>, n: nat): seq<(K, V)>
    requires n <= |keys| == |values|
  {
    seq(n, i requires 0 <= i < n => (keys[i], values[i]))
  }

  lemma ZipStep<K, V>(keys: seq<K>, values: seq<V>, m: nat)
    requires m < |keys| == |values| && AllApart(keys)
    ensures Assign(Pairs(keys, values, m), keys[m], values[m]) == Pairs(keys, values, m + 1)
  {
    forall i | 0 <= i < m ensures Pairs(keys, values, m)[i].0 != keys[m] {
      assert ApartAt(keys, i, m);
    }
    AssignNew(Pairs(keys, values, m), keys[m], values[m]);
    GrownByOne(Pairs(keys, values, m + 1), Pairs(keys, values, m), (keys[m], values[m]));
  }

  /** Different keys are all kept, in order. */
  lemma {:induction false} ZipInOrder<K, V>(keys: seq<K>, values: seq<V>, n: nat)
    requires n <= |keys| == |values| && AllApart(keys)
    ensures Zip(keys, values, n) == Pairs(keys, values, n)
    decreases n
  {
    if n > 0 {
      ZipInOrder(keys, values, n - 1);
      ZipStep(keys, values, n - 1);
    }
  }

  predicate HasKey<K(==), V>(items: seq<(K, V)>, key: K) {
    exists p {:trigger items[p]} :: 0 <= p < |items| && items[p].0 == key
  }

  lemma {:induction false} PlaceOfPresent<K, V>(items: seq<(K, V)>, key: K, k: nat, p: nat)
    requires k <= p < |items| && items[p].0 == key
    ensures PlaceOf(items, key, k) <= p
    decreases p - k
  {
    if k < p && items[k].0 != key {
      PlaceOfPresent(items, key, k + 1, p);
    }
  }

  /** Assigning keeps the keys there are, and lengthens by one exactly when the key is new. */
  lemma AssignLength<K, V>(items: seq<(K, V)>, key: K, value: V)
    ensures HasKey(items, key) ==> |Assign(items, key, value)| == |items|
    ensures |Assign(items, key, value)| <= |items| + 1 && HasKey(Assign(items, key, value), key)
    ensures forall other {:trigger HasKey(items, other)} :: HasKey(items, other) ==>
              HasKey(Assign(items, key, value), other)
  {
    var i, after := PlaceOf(items, key, 0), Assign(items, key, value);
    if p :| 0 <= p < |items| && items[p].0 == key {
      PlaceOfPresent(items, key, 0, p);
    }
    assert after[i].0 == key;
    forall other {:trigger HasKey(items, other)} | HasKey(items, other) ensures HasKey(after, other) {
      var p :| 0 <= p < |items| && items[p].0 == other;
      assert after[p].0 == other;
    }
  }

  lemma {:induction false} ZipLength<K, V>(keys: seq<K>, values: seq<V>, n: nat)
    requires n <= |keys| == |values|
    ensures |Zip(keys, values, n)| <= n
    ensures forall i {:trigger keys[i]} :: 0 <= i < n ==> HasKey(Zip(keys, values, n), keys[i])
    decreases n
  {
    if n > 0 {
      ZipLength(keys, values, n - 1);
      AssignLength(Zip(keys, values, n - 1), keys[n - 1], values[n - 1]);
    }
  }

  /** Where a key repeats, an entry is lost. */
  lemma {:induction false} ZipShort<K, V>(keys: seq<K>, values: seq<V>, n: nat, i: nat, j: nat)
    requires i < j < n <= |keys| == |values| && keys[i] == keys[j]
    ensures |Zip(keys, values, n)| < n
    decreases n
  {
    ZipLength(keys, values, n - 1);
    AssignLength(Zip(keys, values, n - 1), keys[n - 1], values[n - 1]);
    if j < n - 1 {
      ZipShort(keys, values, n - 1, i, j);
    }
  }

  /** A dictionary as long as its list of keys lost nothing: the keys differ and every value is in its place. */
  lemma ZipFull<K, V>(keys: seq<K>, values: seq<V>)
    requires |keys| == |values|
    ensures |Zip(keys, values, |keys|)| == |keys| <==> AllApart(keys)
    ensures AllApart(keys) ==> Zip(keys, values, |keys|) == Pairs(keys, values, |keys|)
  {
    if AllApart(keys) {
      ZipInOrder(keys, values, |keys|);
    } else {
      var i, j :| 0 <= i < j < |keys| && !ApartAt(keys, i, j);
      ZipShort(keys, values, |keys|, i, j);
    }
  }

  lemma {:induction false} KindsKept(keys: seq<string>, flags: seq<bool>, n: nat, i: nat)
    requires i < n <= |keys| == |flags| && AllApart(keys)
    ensures keys[i] in Kinds(keys, flags, n) && Kinds(keys, flags, n)[keys[i]] == flags[i]
    decreases n
  {
    if i < n - 1 {
      KindsKept(keys, flags, n - 1, i);
      assert ApartAt(keys, i, n - 1);
    }
  }

  // ---------------------------------------------------------------- collecting what was read

  /** The first n answers, unless one is missing. */
  function Collect<V>(answers: seq<Option<V>>, n: nat): Option<seq<V>>
    requires n <= |answers|
  {
    if n == 0 then Some([])
    else
      var before := Collect(answers, n - 1);
      if before == None || answers[n - 1] == None then None else Some(before.value + [answers[n - 1].value])
  }

  lemma {:induction false} CollectLength<V>(answers: seq<Option<V>>, n: nat)
    requires n <= |answers|
    ensures Collect(answers, n).Some? ==> |Collect(answers, n).value| == n
    decreases n
  {
    if n > 0 {
      CollectLength(answers, n - 1);
    }
  }

  /** When every answer is there, collecting changes none. */
  lemma {:induction false} CollectIs<V>(answers: seq<Option<V>>, n: nat)
    requires n <= |answers| && Collect(answers, n).Some?
    ensures |Collect(answers, n).value| == n
    ensures forall i {:trigger answers[i]} :: 0 <= i < n ==> answers[i] == Some(Collect(answers, n).value[i])
    decreases n
  {
    if n > 0 {
      CollectIs(answers, n - 1);
    }
  }

  lemma {:induction false} MissingForGood<V>(answers: seq<Option<V>>, i: nat, n: nat)
    requires i <= n <= |answers| && Collect(answers, i) == None
    ensures Collect(answers, n) == None
    decreases n
  {
    if i < n {
      MissingForGood(answers, i, n - 1);
    }
  }

  lemma {:induction false} CollectAll<V>(answers: seq<Option<V>>, values: seq<V>, n: nat)
    requires n <= |answers| == |values|
    requires forall i {:trigger answers[i]} :: 0 <= i < |answers| ==> answers[i] == Some(values[i])
    ensures Collect(answers, n) == Some(values[..n])
    decreases n
  {
    if n > 0 {
      CollectAll(answers, values, n - 1);
      TakeOneMore(values, n - 1);
    }
  }
}
