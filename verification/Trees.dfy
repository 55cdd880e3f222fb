/**
 Documents as trees with two kinds of wrappers: references to a named axis, and sweeps over listed values. What
 substituting for one kind does to the other.
 */
module Trees {
  import opened Wrappers

  type Path = seq<string>

  /** A scalar's text stands for its value up to the source's equality: 1, 1.0 and true have one text. */
  datatype Json = Scalar(text: string) | Arr(items: seq<Json>) | Obj(entries: seq<(string, Json)>)

  datatype Kind = AxisKind | SweepKind

  type Assignment = map<Path, Json>

  // ---------------------------------------------------------------- shape

  function Width(n: Json): nat {
    match n
    case Scalar(_) => 0
    case Arr(items) => |items|
    case Obj(entries) => |entries|
  }

  function Kid(n: Json, i: nat): (c: Json)
    requires i < Width(n)
    ensures c < n
  {
    if n.Obj? then n.entries[i].1 else n.items[i]
  }

  /** The path of a child: a key extends it, a place in a list does not. */
  function Step(n: Json, path: Path, i: nat): Path
    requires i < Width(n)
  {
    if n.Obj? then path + [n.entries[i].0] else path
  }

  /** The same node over other children. */
  function Rebuild(n: Json, kids: seq<Json>): Json
    requires |kids| == Width(n)
  {
    match n
    case Scalar(_) => n
    case Arr(_) => Arr(kids)
    case Obj(entries) => Obj(seq(|entries|, i requires 0 <= i < |entries| => (entries[i].0, kids[i])))
  }

  function Kids(n: Json): seq<Json> {
    seq(Width(n), i requires 0 <= i < Width(n) => Kid(n, i))
  }

  lemma RebuildKids(n: Json)
    ensures Rebuild(n, Kids(n)) == n
  {
    match n
    case Scalar(_) =>
    case Arr(items) => SameElements(Kids(n), items);
    case Obj(entries) => SameElements(Rebuild(n, Kids(n)).entries, entries);
  }

  /** A mapping that holds `axis` and nothing else. */
  predicate IsAxis(n: Json) {
    n.Obj? && |n.entries| == 1 && n.entries[0].0 == "axis"
  }

  /** A mapping that holds `sweep`. */
  predicate IsSweep(n: Json) {
    n.Obj? && exists i {:trigger n.entries[i]} :: 0 <= i < |n.entries| && n.entries[i].0 == "sweep"
  }

  predicate IsWrapper(kind: Kind, n: Json) {
    if kind.AxisKind? then IsAxis(n) else IsSweep(n)
  }

  /** Only keys decide what is a wrapper. */
  lemma WrapperByKeys(kind: Kind, n: Json, kids: seq<Json>)
    requires |kids| == Width(n)
    ensures IsWrapper(kind, Rebuild(n, kids)) <==> IsWrapper(kind, n)
    ensures Width(Rebuild(n, kids)) == Width(n)
    ensures forall i {:trigger Kid(Rebuild(n, kids), i)} :: 0 <= i < Width(n) ==> Kid(Rebuild(n, kids), i) == kids[i]
    ensures forall i, path {:trigger Step(Rebuild(n, kids), path, i)} :: 0 <= i < Width(n) ==>
              Step(Rebuild(n, kids), path, i) == Step(n, path, i)
  {
    if IsSweep(n) {
      var i :| 0 <= i < |n.entries| && n.entries[i].0 == "sweep";
      assert Rebuild(n, kids).entries[i].0 == "sweep";
    }
    if IsSweep(Rebuild(n, kids)) {
      var i :| 0 <= i < |n.entries| && Rebuild(n, kids).entries[i].0 == "sweep";
      assert n.entries[i].0 == "sweep";
    }
  }

  predicate HasWrapper(kind: Kind, n: Json)
    decreases n
  {
    IsWrapper(kind, n) || exists i {:trigger Kid(n, i)} :: 0 <= i < Width(n) && HasWrapper(kind, Kid(n, i))
  }

  // ---------------------------------------------------------------- substituting and finding

  /** Every wrapper of the kind replaced by what is assigned to its path. */
  function Subst(kind: Kind, n: Json, a: Assignment, path: Path): Json
    decreases n, 1
  {
    if IsWrapper(kind, n) then if path in a then a[path] else n
    else Rebuild(n, SubstKids(kind, n, a, path))
  }

  function SubstKids(kind: Kind, n: Json, a: Assignment, path: Path): seq<Json>
    decreases n, 0
  {
    seq(Width(n), i requires 0 <= i < Width(n) => Subst(kind, Kid(n, i), a, Step(n, path, i)))
  }

  /** Every wrapper of the kind has a value assigned: otherwise substituting raises. */
  predicate Covered(kind: Kind, n: Json, a: Assignment, path: Path)
    decreases n
  {
    if IsWrapper(kind, n) then path in a
    else forall i {:trigger Kid(n, i)} :: 0 <= i < Width(n) ==> Covered(kind, Kid(n, i), a, Step(n, path, i))
  }

  datatype Spot = Spot(path: Path, node: Json)

  /** The wrappers under named fields, in the order they appear. */
  function Found(kind: Kind, n: Json, path: Path): seq<Spot>
    decreases n, 1
  {
    if IsWrapper(kind, n) then [Spot(path, n)]
    else if n.Obj? then Concat(FoundKids(kind, n, path), Width(n))
    else []
  }

  function FoundKids(kind: Kind, n: Json, path: Path): seq<seq<Spot>>
    decreases n, 0
  {
    seq(Width(n), i requires 0 <= i < Width(n) => Found(kind, Kid(n, i), Step(n, path, i)))
  }

  /** No wrapper of the kind inside a list: such a one has no name identity and is refused. */
  predicate ListsClean(kind: Kind, n: Json)
    decreases n
  {
    IsWrapper(kind, n)
    || (if n.Arr? then !HasWrapper(kind, n)
        else forall i {:trigger Kid(n, i)} :: 0 <= i < Width(n) ==> ListsClean(kind, Kid(n, i)))
  }

  /** No axis wrapper under a sweep wrapper, and every axis wrapper names its axis. */
  predicate Plain(n: Json)
    decreases n
  {
    if IsSweep(n) then !HasWrapper(AxisKind, n)
    else if IsAxis(n) then n.entries[0].1.Scalar?
    else forall i {:trigger Kid(n, i)} :: 0 <= i < Width(n) ==> Plain(Kid(n, i))
  }

  // ---------------------------------------------------------------- first facts

  /** What a spot of a node is: itself, or a spot of one of its children. */
  lemma SpotBelow(kind: Kind, n: Json, path: Path, spot: Spot)
    requires !IsWrapper(kind, n) && n.Obj?
    ensures spot in Found(kind, n, path)
            <==> exists i {:trigger Kid(n, i)} :: 0 <= i < Width(n) && spot in Found(kind, Kid(n, i), Step(n, path, i))
  {
    ConcatMembers(FoundKids(kind, n, path), Width(n), spot);
    if spot in Found(kind, n, path) {
      var i :| 0 <= i < Width(n) && spot in FoundKids(kind, n, path)[i];
      assert spot in Found(kind, Kid(n, i), Step(n, path, i));
    }
    if i :| 0 <= i < Width(n) && spot in Found(kind, Kid(n, i), Step(n, path, i)) {
      assert spot in FoundKids(kind, n, path)[i];
    }
  }

  lemma KidsAreClean(kind: Kind, n: Json)
    requires !HasWrapper(kind, n)
    ensures forall i {:trigger Kid(n, i)} :: 0 <= i < Width(n) ==> !HasWrapper(kind, Kid(n, i))
  {
  }

  /** Without wrappers nothing is found and nothing is replaced. */
  lemma {:induction false} NothingToReplace(kind: Kind, n: Json, a: Assignment, path: Path)
    requires !HasWrapper(kind, n)
    ensures Subst(kind, n, a, path) == n && Found(kind, n, path) == [] && Covered(kind, n, a, path)
    decreases n
  {
    KidsAreClean(kind, n);
    forall i | 0 <= i < Width(n)
      ensures SubstKids(kind, n, a, path)[i] == Kids(n)[i] && FoundKids(kind, n, path)[i] == []
      ensures Covered(kind, Kid(n, i), a, Step(n, path, i))
    {
      NothingToReplace(kind, Kid(n, i), a, Step(n, path, i));
    }
    SameElements(SubstKids(kind, n, a, path), Kids(n));
    RebuildKids(n);
    AllEmpty(FoundKids(kind, n, path), Width(n));
  }

  lemma {:induction false} AllEmpty<T>(groups: seq<seq<T>>, n: nat)
    requires n <= |groups| && forall i {:trigger groups[i]} :: 0 <= i < |groups| ==> groups[i] == []
    ensures Concat(groups, n) == []
    decreases n
  {
    if n > 0 {
      AllEmpty(groups, n - 1);
    }
  }

  /** With no wrapper hidden in a list, a tree is covered exactly when every wrapper found has a value. */
  lemma {:induction false} CoveredWhenFound(kind: Kind, n: Json, a: Assignment, path: Path)
    requires ListsClean(kind, n)
    ensures Covered(kind, n, a, path) <==> forall spot :: spot in Found(kind, n, path) ==> spot.path in a
    decreases n
  {
    if IsWrapper(kind, n) {
      assert Spot(path, n) in Found(kind, n, path);
    } else if n.Arr? {
      NothingToReplace(kind, n, a, path);
    } else if n.Obj? {
      forall i | 0 <= i < Width(n)
        ensures Covered(kind, Kid(n, i), a, Step(n, path, i))
                <==> forall spot :: spot in Found(kind, Kid(n, i), Step(n, path, i)) ==> spot.path in a
      {
        CoveredWhenFound(kind, Kid(n, i), a, Step(n, path, i));
      }
      forall spot {
        SpotBelow(kind, n, path, spot);
      }
    }
  }

  /** Replacing every wrapper by a value without wrappers leaves none. */
  lemma {:induction false} NoneSurvives(kind: Kind, n: Json, a: Assignment, path: Path)
    requires Covered(kind, n, a, path) && forall p {:trigger a[p]} :: p in a ==> !HasWrapper(kind, a[p])
    ensures !HasWrapper(kind, Subst(kind, n, a, path))
    decreases n
  {
    if !IsWrapper(kind, n) {
      WrapperByKeys(kind, n, SubstKids(kind, n, a, path));
      forall i | 0 <= i < Width(n) ensures !HasWrapper(kind, SubstKids(kind, n, a, path)[i]) {
        NoneSurvives(kind, Kid(n, i), a, Step(n, path, i));
      }
    }
  }

  /** Replacing wrappers of one kind by values without the other brings none of the other in. */
  lemma {:induction false} NoneIntroduced(kind: Kind, other: Kind, n: Json, a: Assignment, path: Path)
    requires !HasWrapper(other, n) && forall p {:trigger a[p]} :: p in a ==> !HasWrapper(other, a[p])
    ensures !HasWrapper(other, Subst(kind, n, a, path))
    decreases n
  {
    if !IsWrapper(kind, n) {
      KidsAreClean(other, n);
      WrapperByKeys(other, n, SubstKids(kind, n, a, path));
      forall i | 0 <= i < Width(n) ensures !HasWrapper(other, SubstKids(kind, n, a, path)[i]) {
        NoneIntroduced(kind, other, Kid(n, i), a, Step(n, path, i));
      }
    }
  }

  /** Replacing axis wrappers by plain values changes no sweep: the same ones are found, in the same order. */
  lemma {:induction false} SweepsUnchanged(n: Json, a: Assignment, path: Path)
    requires Plain(n) && Covered(AxisKind, n, a, path) && forall p {:trigger a[p]} :: p in a ==>
               !HasWrapper(SweepKind, a[p])
    ensures Found(SweepKind, Subst(AxisKind, n, a, path), path) == Found(SweepKind, n, path)
    decreases n
  {
    if IsAxis(n) {
      NothingToReplace(SweepKind, a[path], a, path);
      assert !HasWrapper(SweepKind, n.entries[0].1);
      assert Kid(n, 0) == n.entries[0].1;
      NothingToReplace(SweepKind, n, a, path);
    } else if IsSweep(n) {
      NothingToReplace(AxisKind, n, a, path);
    } else {
      var kids := SubstKids(AxisKind, n, a, path);
      WrapperByKeys(SweepKind, n, kids);
      forall i | 0 <= i < Width(n)
        ensures FoundKids(SweepKind, Rebuild(n, kids), path)[i] == FoundKids(SweepKind, n, path)[i]
      {
        SweepsUnchanged(Kid(n, i), a, Step(n, path, i));
        assert Kid(Rebuild(n, kids), i) == kids[i];
        assert Step(Rebuild(n, kids), path, i) == Step(n, path, i);
      }
      SameElements(FoundKids(SweepKind, Rebuild(n, kids), path), FoundKids(SweepKind, n, path));
    }
  }

  // ---------------------------------------------------------------- sweeping over columns instead

  /** The values a sweep wrapper lists. */
  function Values(n: Json): seq<Json> {
    if n.Obj? && |n.entries| == 1 && n.entries[0].0 == "sweep" && n.entries[0].1.Arr? then n.entries[0].1.items else []
  }

  function SweepOver(values: seq<Json>): Json {
    Obj([("sweep", Arr(values))])
  }

  lemma SweepOverIs(values: seq<Json>)
    ensures IsSweep(SweepOver(values)) && !IsAxis(SweepOver(values)) && Values(SweepOver(values)) == values
  {
    assert SweepOver(values).entries[0].0 == "sweep";
  }

  /** Every axis wrapper gets a value here and the sweep over its column there. */
  predicate RowsOf(row: Assignment, columns: map<Path, seq<Json>>) {
    row.Keys == columns.Keys && forall p {:trigger row[p]} :: p in row ==>
      row[p] in columns[p] && !HasWrapper(SweepKind, row[p]) && !HasWrapper(AxisKind, row[p])
  }

  function Display(columns: map<Path, seq<Json>>): Assignment {
    map p | p in columns :: SweepOver(columns[p])
  }

  /** Choices for the display form: the row's values where axes were, the sweeps' own choices elsewhere. */
  predicate Merges(both: Assignment, row: Assignment, choice: Assignment, n: Json, path: Path) {
    && (forall spot {:trigger spot in Found(AxisKind, n, path)} :: spot in Found(AxisKind, n, path) ==>
          spot.path in row && spot.path in both && both[spot.path] == row[spot.path])
    && (forall spot {:trigger spot in Found(SweepKind, n, path)} :: spot in Found(SweepKind, n, path) ==>
          spot.path in choice && spot.path in both && both[spot.path] == choice[spot.path]
          && choice[spot.path] in Values(spot.node))
  }

  lemma MergesBelow(both: Assignment, row: Assignment, choice: Assignment, n: Json, path: Path, i: nat)
    requires Merges(both, row, choice, n, path) && n.Obj? && !IsAxis(n) && !IsSweep(n) && i < Width(n)
    ensures Merges(both, row, choice, Kid(n, i), Step(n, path, i))
  {
    forall spot | spot in Found(AxisKind, Kid(n, i), Step(n, path, i)) ensures spot in Found(AxisKind, n, path) {
      SpotBelow(AxisKind, n, path, spot);
    }
    forall spot | spot in Found(SweepKind, Kid(n, i), Step(n, path, i)) ensures spot in Found(SweepKind, n, path) {
      SpotBelow(SweepKind, n, path, spot);
    }
  }

  /** A document both of whose kinds of wrappers are under named fields, apart from each other. */
  predicate Sound(n: Json) {
    Plain(n) && ListsClean(AxisKind, n) && ListsClean(SweepKind, n)
  }

  lemma SoundBelow(n: Json, i: nat)
    requires Sound(n) && n.Obj? && !IsAxis(n) && !IsSweep(n) && i < Width(n)
    ensures Sound(Kid(n, i))
  {
  }

  /** Choosing the row's values in the display form gives the very point the row gives. */
  lemma {:induction false} DisplayGivesPoint(n: Json, row: Assignment, columns: map<Path, seq<Json>>,
                                             choice: Assignment,
                                             both: Assignment, path: Path)
    requires Sound(n) && RowsOf(row, columns) && Merges(both, row, choice, n, path)
    ensures Subst(SweepKind, Subst(AxisKind, n, Display(columns), path), both, path)
         == Subst(SweepKind, Subst(AxisKind, n, row, path), choice, path)
    decreases n
  {
    if IsAxis(n) {
      assert Spot(path, n) in Found(AxisKind, n, path);
      SweepOverIs(columns[path]);
      NothingToReplace(SweepKind, row[path], choice, path);
    } else if IsSweep(n) {
      assert Spot(path, n) in Found(SweepKind, n, path);
      NothingToReplace(AxisKind, n, Display(columns), path);
      NothingToReplace(AxisKind, n, row, path);
    } else if n.Arr? {
      NothingToReplace(AxisKind, n, Display(columns), path);
      NothingToReplace(AxisKind, n, row, path);
      NothingToReplace(SweepKind, n, both, path);
      NothingToReplace(SweepKind, n, choice, path);
    } else if n.Obj? {
      var shown, rowed := SubstKids(AxisKind, n, Display(columns), path), SubstKids(AxisKind, n, row, path);
      WrapperByKeys(SweepKind, n, shown);
      WrapperByKeys(SweepKind, n, rowed);
      forall i | 0 <= i < Width(n)
        ensures SubstKids(SweepKind, Rebuild(n, shown), both, path)[i]
                  == SubstKids(SweepKind, Rebuild(n, rowed), choice, path)[i]
      {
        MergesBelow(both, row, choice, n, path, i);
        SoundBelow(n, i);
        DisplayGivesPoint(Kid(n, i), row, columns, choice, both, Step(n, path, i));
        assert Step(Rebuild(n, shown), path, i) == Step(n, path, i) == Step(Rebuild(n, rowed), path, i);
        assert Kid(Rebuild(n, shown), i) == shown[i] && Kid(Rebuild(n, rowed), i) == rowed[i];
      }
      SameElements(SubstKids(SweepKind, Rebuild(n, shown), both, path),
                   SubstKids(SweepKind, Rebuild(n, rowed), choice, path));
      RebuildTwice(n, shown, SubstKids(SweepKind, Rebuild(n, shown), both, path));
      RebuildTwice(n, rowed, SubstKids(SweepKind, Rebuild(n, rowed), choice, path));
    }
  }

  lemma RebuildTwice(n: Json, first: seq<Json>, second: seq<Json>)
    requires |first| == |second| == Width(n)
    ensures Width(Rebuild(n, first)) == Width(n) && Rebuild(Rebuild(n, first), second) == Rebuild(n, second)
  {
    if n.Obj? {
      SameElements(Rebuild(Rebuild(n, first), second).entries, Rebuild(n, second).entries);
    }
  }

  /** Those choices are choices: each is among the values its sweep in the display form lists. */
  lemma {:induction false} DisplayChoices(n: Json, row: Assignment, columns: map<Path, seq<Json>>, choice: Assignment,
                                          both: Assignment, path: Path, spot: Spot)
    requires Sound(n) && RowsOf(row, columns) && Merges(both, row, choice, n, path)
    requires spot in Found(SweepKind, Subst(AxisKind, n, Display(columns), path), path)
    ensures spot.path in both && both[spot.path] in Values(spot.node)
    decreases n
  {
    if IsAxis(n) {
      assert Spot(path, n) in Found(AxisKind, n, path);
      SweepOverIs(columns[path]);
    } else if IsSweep(n) {
      NothingToReplace(AxisKind, n, Display(columns), path);
    } else if n.Arr? {
      NothingToReplace(AxisKind, n, Display(columns), path);
      NothingToReplace(SweepKind, n, both, path);
    } else if n.Obj? {
      var shown := SubstKids(AxisKind, n, Display(columns), path);
      WrapperByKeys(SweepKind, n, shown);
      SpotBelow(SweepKind, Rebuild(n, shown), path, spot);
      var i :| 0 <= i < Width(Rebuild(n, shown))
        && spot in Found(SweepKind, Kid(Rebuild(n, shown), i), Step(Rebuild(n, shown), path, i));
      assert Kid(Rebuild(n, shown), i) == shown[i] && Step(Rebuild(n, shown), path, i) == Step(n, path, i);
      MergesBelow(both, row, choice, n, path, i);
      SoundBelow(n, i);
      DisplayChoices(Kid(n, i), row, columns, choice, both, Step(n, path, i), spot);
    }
  }

  /** A point of the cross product of a swept document. */
  ghost predicate InCrossProduct(n: Json, point: Json) {
    exists choice: Assignment :: ChosenFor(n, choice) && point == Subst(SweepKind, n, choice, [])
  }

  ghost predicate ChosenFor(n: Json, choice: Assignment) {
    forall spot {:trigger spot in Found(SweepKind, n, [])} :: spot in Found(SweepKind, n, []) ==>
      spot.path in choice && choice[spot.path] in Values(spot.node)
  }

  // ---------------------------------------------------------------- paths tell wrappers apart

  predicate KeysDifferAt(n: Json, i: nat, j: nat)
    requires n.Obj? && i < |n.entries| && j < |n.entries|
  {
    n.entries[i].0 != n.entries[j].0
  }

  /** A mapping holds each key once. */
  predicate UniqueKeys(n: Json)
    decreases n
  {
    && (n.Obj? ==> forall i, j {:trigger KeysDifferAt(n, i, j)} :: 0 <= i < j < |n.entries| ==> KeysDifferAt(n, i, j))
    && forall i {:trigger Kid(n, i)} :: 0 <= i < Width(n) ==> UniqueKeys(Kid(n, i))
  }

  lemma {:induction false} SpotsExtend(kind: Kind, n: Json, path: Path, spot: Spot)
    requires spot in Found(kind, n, path)
    ensures path <= spot.path
    decreases n
  {
    if !IsWrapper(kind, n) {
      SpotBelow(kind, n, path, spot);
      var i :| 0 <= i < Width(n) && spot in Found(kind, Kid(n, i), Step(n, path, i));
      SpotsExtend(kind, Kid(n, i), Step(n, path, i), spot);
    }
  }

  /** Wrappers under different keys of one mapping have different paths. */
  lemma SiblingsApart(kind: Kind, other: Kind, n: Json, path: Path, i: nat, j: nat, s: Spot, t: Spot)
    requires UniqueKeys(n) && n.Obj? && i < Width(n) && j < Width(n) && i != j
    requires s in Found(kind, Kid(n, i), Step(n, path, i)) && t in Found(other, Kid(n, j), Step(n, path, j))
    ensures s.path != t.path
  {
    SpotsExtend(kind, Kid(n, i), Step(n, path, i), s);
    SpotsExtend(other, Kid(n, j), Step(n, path, j), t);
    assert KeysDifferAt(n, if i < j then i else j, if i < j then j else i);
    assert s.path[|path|] == n.entries[i].0 && t.path[|path|] == n.entries[j].0;
  }

  lemma BelowKid(kind: Kind, n: Json, path: Path, spot: Spot) returns (i: nat)
    requires !IsWrapper(kind, n) && spot in Found(kind, n, path)
    ensures i < Width(n) && spot in Found(kind, Kid(n, i), Step(n, path, i))
  {
    SpotBelow(kind, n, path, spot);
    i :| 0 <= i < Width(n) && spot in Found(kind, Kid(n, i), Step(n, path, i));
  }

  /** An axis wrapper and a sweep never share their path. */
  lemma {:induction false} KindsApart(n: Json, path: Path, axis: Spot, sweep: Spot)
    requires UniqueKeys(n) && Plain(n) && axis in Found(AxisKind, n, path) && sweep in Found(SweepKind, n, path)
    ensures axis.path != sweep.path
    decreases n
  {
    if IsAxis(n) {
      assert Kid(n, 0) == n.entries[0].1;
      NothingToReplace(SweepKind, n, map[], path);
    } else if IsSweep(n) {
      NothingToReplace(AxisKind, n, map[], path);
    } else {
      var i := BelowKid(AxisKind, n, path, axis);
      var j := BelowKid(SweepKind, n, path, sweep);
      if i == j {
        KindsApart(Kid(n, i), Step(n, path, i), axis, sweep);
      } else {
        SiblingsApart(AxisKind, SweepKind, n, path, i, j, axis, sweep);
      }
    }
  }

  // ---------------------------------------------------------------- reading a tree at a path

  /** The first place from k on that holds a key, or the end. */
  function KeyPlace(entries: seq<(string, Json)>, key: string, k: nat): (i: nat)
    requires k <= |entries|
    ensures k <= i <= |entries| && (i < |entries| ==> entries[i].0 == key)
    decreases |entries| - k
  {
    if k == |entries| || entries[k].0 == key then k else KeyPlace(entries, key, k + 1)
  }

  /** What stands at a path. */
  function Get(n: Json, path: Path): Option<Json>
    decreases |path|
  {
    if path == [] then Some(n)
    else if n.Obj? && KeyPlace(n.entries, path[0], 0) < |n.entries| then
      Get(n.entries[KeyPlace(n.entries, path[0], 0)].1, path[1..])
    else None
  }

  lemma {:induction false} UniquePlace(n: Json, m: Json, i: nat, k: nat)
    requires UniqueKeys(n) && n.Obj? && m.Obj? && |m.entries| == |n.entries| && k <= i < |n.entries|
    requires forall j {:trigger m.entries[j]} :: 0 <= j < |m.entries| ==> m.entries[j].0 == n.entries[j].0
    ensures KeyPlace(m.entries, n.entries[i].0, k) == i
    decreases i - k
  {
    if k < i {
      assert KeysDifferAt(n, k, i);
      UniquePlace(n, m, i, k + 1);
    }
  }

  /** Behind a key, a path reads on in the child under it. */
  lemma GetBehind(n: Json, kids: seq<Json>, i: nat, path: Path)
    requires UniqueKeys(n) && n.Obj? && |kids| == Width(n) && i < Width(n) && path != [] && path[0] == n.entries[i].0
    ensures Get(Rebuild(n, kids), path) == Get(kids[i], path[1..])
  {
    UniquePlace(n, Rebuild(n, kids), i, 0);
  }

  /** After both substitutions, an axis wrapper's place holds the row's value. */
  lemma {:induction false} RowValueStands(n: Json, row: Assignment, choice: Assignment, path: Path, spot: Spot)
    requires UniqueKeys(n) && Plain(n) && spot in Found(AxisKind, n, path)
    requires spot.path in row && !HasWrapper(SweepKind, row[spot.path])
    ensures path <= spot.path
    ensures Get(Subst(SweepKind, Subst(AxisKind, n, row, path), choice, path), spot.path[|path|..])
              == Some(row[spot.path])
    decreases n
  {
    SpotsExtend(AxisKind, n, path, spot);
    if IsAxis(n) {
      NothingToReplace(SweepKind, row[path], choice, path);
    } else if IsSweep(n) {
      NothingToReplace(AxisKind, n, row, path);
    } else {
      SpotBelow(AxisKind, n, path, spot);
      var i :| 0 <= i < Width(n) && spot in Found(AxisKind, Kid(n, i), Step(n, path, i));
      RowValueStands(Kid(n, i), row, choice, Step(n, path, i), spot);
      ChildStands(n, row, choice, path, i, spot.path);
    }
  }

  lemma ChildStands(n: Json, row: Assignment, choice: Assignment, path: Path, i: nat, p: Path)
    requires UniqueKeys(n) && n.Obj? && !IsAxis(n) && !IsSweep(n) && i < Width(n) && Step(n, path, i) <= p
    ensures path <= p
    ensures Get(Subst(SweepKind, Subst(AxisKind, n, row, path), choice, path), p[|path|..])
         == Get(Subst(SweepKind, Subst(AxisKind, Kid(n, i), row, Step(n, path, i)), choice, Step(n, path, i)),
                p[|path| + 1..])
  {
    var rowed := SubstKids(AxisKind, n, row, path);
    WrapperByKeys(SweepKind, n, rowed);
    var kids := SubstKids(SweepKind, Rebuild(n, rowed), choice, path);
    RebuildTwice(n, rowed, kids);
    assert Kid(Rebuild(n, rowed), i) == rowed[i] && Step(Rebuild(n, rowed), path, i) == Step(n, path, i);
    DropDrop(p, |path|, 1);
    assert p[|path|] == n.entries[i].0;
    GetBehind(n, kids, i, p[|path|..]);
  }

  /** Wrappers of one kind are told apart by their paths. */
  lemma {:induction false} SamePathSameSpot(kind: Kind, n: Json, path: Path, s: Spot, t: Spot)
    requires UniqueKeys(n) && s in Found(kind, n, path) && t in Found(kind, n, path) && s.path == t.path
    ensures s == t
    decreases n
  {
    if !IsWrapper(kind, n) {
      SpotBelow(kind, n, path, s);
      SpotBelow(kind, n, path, t);
      var i :| 0 <= i < Width(n) && s in Found(kind, Kid(n, i), Step(n, path, i));
      var j :| 0 <= j < Width(n) && t in Found(kind, Kid(n, j), Step(n, path, j));
      if i == j {
        SamePathSameSpot(kind, Kid(n, i), Step(n, path, i), s, t);
      } else {
        SiblingsApart(kind, kind, n, path, i, j, s, t);
      }
    }
  }

  /** What is found under earlier keys of a mapping has other paths. */
  lemma EarlierApart(kind: Kind, n: Json, path: Path, front: seq<Spot>, m: nat, s: Spot, t: Spot)
    requires UniqueKeys(n) && n.Obj? && m < Width(n) && front == Concat(FoundKids(kind, n, path), m)
    requires s in front && t in Found(kind, Kid(n, m), Step(n, path, m))
    ensures s.path != t.path
  {
    ConcatMembers(FoundKids(kind, n, path), m, s);
    var g :| 0 <= g < m && s in FoundKids(kind, n, path)[g];
    SiblingsApart(kind, kind, n, path, g, m, s, t);
  }

  lemma KidsFoundOneMore(kind: Kind, n: Json, path: Path, m: nat)
    requires m < Width(n)
    ensures Concat(FoundKids(kind, n, path), m + 1)
         == Concat(FoundKids(kind, n, path), m) + Found(kind, Kid(n, m), Step(n, path, m))
  {
  }

  /** Under the first m keys of a mapping, no two places of the listing have one path. */
  lemma {:induction false} KidSpotsDiffer(kind: Kind, n: Json, path: Path, m: nat, both: seq<Spot>, i: nat, j: nat)
    requires UniqueKeys(n) && n.Obj? && m <= Width(n) && both == Concat(FoundKids(kind, n, path), m) && i < j < |both|
    ensures both[i].path != both[j].path
    decreases n, 0, m
  {
    var front, last := Concat(FoundKids(kind, n, path), m - 1), Found(kind, Kid(n, m - 1), Step(n, path, m - 1));
    KidsFoundOneMore(kind, n, path, m - 1);
    if j < |front| {
      KidSpotsDiffer(kind, n, path, m - 1, front, i, j);
    } else if i < |front| {
      EarlierApart(kind, n, path, front, m - 1, front[i], last[j - |front|]);
    } else {
      SpotsDiffer(kind, Kid(n, m - 1), Step(n, path, m - 1), i - |front|, j - |front|);
    }
    BothDiffer(front, last, both, i, j);
  }

  lemma BothDiffer(front: seq<Spot>, last: seq<Spot>, both: seq<Spot>, i: nat, j: nat)
    requires both == front + last && i < j < |both|
    requires j < |front| ==> front[i].path != front[j].path
    requires i < |front| <= j ==> front[i].path != last[j - |front|].path
    requires |front| <= i ==> last[i - |front|].path != last[j - |front|].path
    ensures both[i].path != both[j].path
  {
  }

  /** No two places of the listing have one path. */
  lemma {:induction false} SpotsDiffer(kind: Kind, n: Json, path: Path, i: nat, j: nat)
    requires UniqueKeys(n) && i < j < |Found(kind, n, path)|
    ensures Found(kind, n, path)[i].path != Found(kind, n, path)[j].path
    decreases n, 1, 0
  {
    KidSpotsDiffer(kind, n, path, Width(n), Found(kind, n, path), i, j);
  }

  lemma SweepStands(n: Json, row: Assignment, choice: Assignment, path: Path)
    requires Plain(n) && IsSweep(n) && path in choice
    ensures Get(Subst(SweepKind, Subst(AxisKind, n, row, path), choice, path), path[|path|..]) == Some(choice[path])
  {
    NothingToReplace(AxisKind, n, row, path);
  }

  /** An axis wrapper that is no sweep holds none. */
  lemma SpotIsNoAxis(n: Json, path: Path, spot: Spot)
    requires Plain(n) && !IsSweep(n) && spot in Found(SweepKind, n, path)
    ensures !IsAxis(n)
  {
    if IsAxis(n) {
      assert Kid(n, 0) == n.entries[0].1;
      NothingToReplace(SweepKind, n, map[], path);
    }
  }

  /** After both substitutions, a sweep's place holds the value chosen for it. */
  lemma {:induction false} ChosenValueStands(n: Json, row: Assignment, choice: Assignment, path: Path, spot: Spot)
    requires UniqueKeys(n) && Plain(n) && spot in Found(SweepKind, n, path) && spot.path in choice
    ensures path <= spot.path
    ensures Get(Subst(SweepKind, Subst(AxisKind, n, row, path), choice, path), spot.path[|path|..])
              == Some(choice[spot.path])
    decreases n
  {
    SpotsExtend(SweepKind, n, path, spot);
    if IsSweep(n) {
      SweepStands(n, row, choice, path);
    } else {
      SpotIsNoAxis(n, path, spot);
      var i := BelowKid(SweepKind, n, path, spot);
      ChosenValueStands(Kid(n, i), row, choice, Step(n, path, i), spot);
      ChildStands(n, row, choice, path, i, spot.path);
    }
  }

  /** A wrapper under a path nothing is assigned below is never covered. */
  lemma {:induction false} UncoveredBelow(kind: Kind, n: Json, a: Assignment, path: Path)
    requires Covered(kind, n, a, path) && forall p {:trigger p in a} :: p in a ==> !(path <= p)
    ensures !HasWrapper(kind, n)
    decreases n
  {
    forall i | 0 <= i < Width(n) ensures !HasWrapper(kind, Kid(n, i)) {
      UncoveredBelow(kind, Kid(n, i), a, Step(n, path, i));
    }
  }
}
