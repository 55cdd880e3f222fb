/**
 Named axes: expanding a document over the entries of its declared axes, the sweeps it still carries expanded inside.
 A rows axis moves several fields together, a dependent axis follows its parent.
 */
module Axes {
  import opened Combos
  import opened Labels
  import opened Trees
  import opened Wrappers

  // ---------------------------------------------------------------- declarations

  /** A declared axis: a coordinate for each entry, and a column of values for each field (None for the axis itself). */
  datatype NamedAxis = NamedAxis(name: string, keys: seq<Json>, columns: map<Option<string>, seq<Json>>,
                                 parent: Option<string>)

  /** The `axes` block, the other groups, and the axes the block declares, in order. */
  datatype Plan = Plan(block: Json, groups: seq<(string, Json)>, named: seq<NamedAxis>)

  /** The first axis of a name. */
  function PlaceOf(axes: seq<NamedAxis>, name: string, n: nat): (i: Option<nat>)
    requires n <= |axes|
    ensures i.Some? ==> i.value < n && axes[i.value].name == name
    ensures forall j {:trigger axes[j]} :: 0 <= j < (if i.Some? then i.value else n) ==> axes[j].name != name
  {
    if n == 0 then None else
      var earlier := PlaceOf(axes, name, n - 1);
      if earlier.Some? then earlier else if axes[n - 1].name == name then Some(n - 1) else None
  }

  /** The axes that are coordinates, in declaration order. */
  function Independent(named: seq<NamedAxis>, n: nat): (r: seq<NamedAxis>)
    requires n <= |named|
    ensures forall axis :: axis in r <==> axis in named[..n] && axis.parent == None
  {
    if n == 0 then []
    else
      TakeOneMore(named, n - 1);
      Independent(named, n - 1) + if named[n - 1].parent == None then [named[n - 1]] else []
  }

  function Coordinates(d: Plan): seq<NamedAxis> {
    Independent(d.named, |d.named|)
  }

  // ---------------------------------------------------------------- references

  /** A wrapper's place, the axis it names, and the field. */
  datatype Reference = Reference(path: Path, axis: string, field: Option<string>)

  /** A reference looked up: the column it reads, and the coordinate axis whose entry it takes. */
  datatype Resolved = Resolved(path: Path, column: seq<Json>, leader: nat)

  /** The text before the first dot. */
  function BeforeDot(s: string): string {
    if s == "" || s[0] == '.' then "" else [s[0]] + BeforeDot(s[1..])
  }

  /** The text after it; nothing without one. */
  function AfterDot(s: string): string {
    if s == "" then "" else if s[0] == '.' then s[1..] else AfterDot(s[1..])
  }

  /** What a wrapper's own text refers to: an axis, or a field of one behind a dot. */
  function ReferenceOf(spot: Spot): Reference {
    var text := if IsAxis(spot.node) && spot.node.entries[0].1.Scalar? then spot.node.entries[0].1.text else "";
    Reference(spot.path, BeforeDot(text), if AfterDot(text) == "" then None else Some(AfterDot(text)))
  }

  lemma {:induction false} NoDot(s: string)
    requires '.' !in s
    ensures BeforeDot(s) == s && AfterDot(s) == ""
  {
    if s != "" {
      NoDot(s[1..]);
      assert s == [s[0]] + s[1..];
    }
  }

  lemma {:induction false} AtDot(name: string, field: string)
    requires '.' !in name
    ensures BeforeDot(name + "." + field) == name && AfterDot(name + "." + field) == field
  {
    var text := name + "." + field;
    if name == "" {
      assert text == "." + field && text[1..] == field;
    } else {
      AtDot(name[1..], field);
      assert text[1..] == name[1..] + "." + field && name == [name[0]] + name[1..];
    }
  }

  /** A wrapper says `name`, or `name.field`; what is behind the first dot is the field, if anything is. */
  lemma ReferenceReads(spot: Spot, name: string, field: string)
    requires '.' !in name
    ensures spot.node == Obj([("axis", Scalar(name))]) ==> ReferenceOf(spot) == Reference(spot.path, name, None)
    ensures spot.node == Obj([("axis", Scalar(name + "." + field))]) ==>
              ReferenceOf(spot) == Reference(spot.path, name, if field == "" then None else Some(field))
  {
    NoDot(name);
    AtDot(name, field);
  }

  /** The name of the axis whose entry an axis takes: its parent's, or its own. */
  function LeadName(axis: NamedAxis): string {
    if axis.parent.Some? then axis.parent.value else axis.name
  }

  /** A dependent axis takes the entry of its parent, any other its own. */
  function Resolve(named: seq<NamedAxis>, r: Reference): Option<Resolved> {
    var at, coordinates := PlaceOf(named, r.axis, |named|), Independent(named, |named|);
    if at == None || r.field !in named[at.value].columns then None
    else
      var axis := named[at.value];
      var leader := PlaceOf(coordinates, LeadName(axis), |coordinates|);
      if leader == None then None else Some(Resolved(r.path, axis.columns[r.field], leader.value))
  }

  /** The wrappers outside the block, in the order they appear. */
  function References(d: Plan): seq<Reference> {
    var spots := Found(AxisKind, Rest(d), []);
    seq(|spots|, i requires 0 <= i < |spots| => ReferenceOf(spots[i]))
  }

  /** The same looked up; parsing refuses what names nothing. */
  function Refs(d: Plan): seq<Resolved> {
    seq(|References(d)|, i requires 0 <= i < |References(d)| =>
      var found := Resolve(d.named, References(d)[i]);
      if found.Some? then found.value else Resolved(References(d)[i].path, [], 0))
  }

  // ---------------------------------------------------------------- a document ready to expand

  const AXES_KEY: string := "axes"

  function Source(d: Plan): Json {
    Obj([(AXES_KEY, d.block)] + d.groups)
  }

  function Rest(d: Plan): Json {
    Obj(d.groups)
  }

  function Sizes(axes: seq<NamedAxis>): seq<nat> {
    seq(|axes|, i requires 0 <= i < |axes| => |axes[i].keys|)
  }

  predicate EqualAt(values: seq<Json>, i: nat, j: nat)
    requires i < |values| && j < |values|
  {
    values[i] == values[j]
  }

  predicate AllDistinct(values: seq<Json>) {
    forall i, j {:trigger EqualAt(values, i, j)} :: 0 <= i < j < |values| ==> !EqualAt(values, i, j)
  }

  predicate PlainValues(column: seq<Json>) {
    forall i {:trigger column[i]} :: 0 <= i < |column| ==>
      !HasWrapper(AxisKind, column[i]) && !HasWrapper(SweepKind, column[i])
  }

  /** A column as long as its coordinate axis, of plain values. */
  predicate RefFits(r: Resolved, sizes: seq<nat>) {
    r.leader < |sizes| && |r.column| == sizes[r.leader] && PlainValues(r.column)
  }

  predicate RefsFit(refs: seq<Resolved>, sizes: seq<nat>) {
    forall k {:trigger refs[k]} :: 0 <= k < |refs| ==> RefFits(refs[k], sizes)
  }

  predicate Names(refs: seq<Resolved>, n: nat, p: Path)
    requires n <= |refs|
  {
    exists k {:trigger refs[k]} :: 0 <= k < n && refs[k].path == p
  }

  /** The references are the axis wrappers outside the block. */
  ghost predicate RefsAreSpots(refs: seq<Resolved>, rest: Json) {
    && (forall spot {:trigger spot in Found(AxisKind, rest, [])} :: spot in Found(AxisKind, rest, []) ==>
          Names(refs, |refs|, spot.path))
    && (forall k {:trigger refs[k]} :: 0 <= k < |refs| ==> IsSpot(rest, refs[k].path))
  }

  ghost predicate IsSpot(rest: Json, p: Path) {
    exists spot {:trigger spot in Found(AxisKind, rest, [])} :: spot in Found(AxisKind, rest, []) && spot.path == p
  }

  lemma RefsComeFromSpots(d: Plan, k: nat)
    requires k < |Refs(d)|
    ensures k < |References(d)| && k < |Found(AxisKind, Rest(d), [])|
    ensures Refs(d)[k].path == References(d)[k].path == Found(AxisKind, Rest(d), [])[k].path
  {
  }

  lemma ReferencesAreSpots(d: Plan)
    ensures RefsAreSpots(Refs(d), Rest(d))
  {
    var spots := Found(AxisKind, Rest(d), []);
    forall spot | spot in spots ensures Names(Refs(d), |Refs(d)|, spot.path) {
      var k :| 0 <= k < |spots| && spots[k] == spot;
      RefsComeFromSpots(d, k);
    }
    forall k | 0 <= k < |Refs(d)| ensures IsSpot(Rest(d), Refs(d)[k].path) {
      RefsComeFromSpots(d, k);
      var spot := spots[k];
      assert spot in spots && spot.path == Refs(d)[k].path;
    }
  }

  /** The shape the sweep grammar accepts: nothing but the values, at least one, none of them a wrapper. */
  predicate SweepShape(n: Json) {
    IsSweep(n) && n == SweepOver(Values(n)) && Values(n) != [] && PlainValues(Values(n))
  }

  predicate SweepsShaped(n: Json) {
    forall i {:trigger Found(SweepKind, n, [])[i]} :: 0 <= i < |Found(SweepKind, n, [])| ==>
      SweepShape(Found(SweepKind, n, [])[i].node)
  }

  predicate SoundAxes(axes: seq<NamedAxis>) {
    forall i {:trigger axes[i]} :: 0 <= i < |axes| ==> axes[i].keys != [] && AllDistinct(axes[i].keys)
  }

  predicate NamesDifferAt(named: seq<NamedAxis>, i: nat, j: nat)
    requires i < |named| && j < |named|
  {
    named[i].name != named[j].name
  }

  predicate AllNamesDiffer(named: seq<NamedAxis>) {
    forall i, j {:trigger NamesDifferAt(named, i, j)} :: 0 <= i < j < |named| ==> NamesDifferAt(named, i, j)
  }

  /** Every column has a plain value for each entry of the axis that leads. */
  predicate ColumnsFit(axis: NamedAxis, size: nat) {
    forall field {:trigger axis.columns[field]} :: field in axis.columns ==>
      |axis.columns[field]| == size && PlainValues(axis.columns[field])
  }

  /** A dependent axis follows a declared coordinate axis; any other has entries of its own, all different. */
  predicate SoundDeclaration(named: seq<NamedAxis>, axis: NamedAxis) {
    match axis.parent
    case None => axis.keys != [] && AllDistinct(axis.keys) && ColumnsFit(axis, |axis.keys|)
    case Some(parent) =>
      exists p {:trigger named[p]} :: 0 <= p < |named| && named[p].name == parent && named[p].parent == None
                                      && ColumnsFit(axis, |named[p].keys|)
  }

  /**
   What parsing guarantees of the declarations: names are used once, columns fit, and every wrapper names a column.
   */
  predicate Declared(d: Plan) {
    && AllNamesDiffer(d.named)
    && (forall i {:trigger d.named[i]} :: 0 <= i < |d.named| ==> SoundDeclaration(d.named, d.named[i]))
    && (forall k {:trigger References(d)[k]} :: 0 <= k < |References(d)| ==> NamesColumn(d.named, References(d)[k]))
  }

  predicate NamesColumn(named: seq<NamedAxis>, r: Reference) {
    exists i {:trigger named[i]} :: 0 <= i < |named| && named[i].name == r.axis && r.field in named[i].columns
  }

  /** No name is declared twice. */
  lemma NamesAreUsedOnce(named: seq<NamedAxis>)
    ensures AllNamesDiffer(named) <==>
              forall i, j {:trigger named[i], named[j]} ::
                0 <= i < |named| && 0 <= j < |named| && named[i].name == named[j].name ==> i == j
  {
    if AllNamesDiffer(named) {
      forall i, j {:trigger named[i], named[j]}
        | 0 <= i < |named| && 0 <= j < |named| && named[i].name == named[j].name ensures i == j
      {
        assert i < j ==> NamesDifferAt(named, i, j);
        assert j < i ==> NamesDifferAt(named, j, i);
      }
    }
  }

  /** A dependent axis has a column entry for each entry of the coordinate axis it names. */
  lemma DependentFollows(named: seq<NamedAxis>, axis: NamedAxis)
    requires axis.parent.Some?
    ensures SoundDeclaration(named, axis) <==>
              exists lead {:trigger lead in named} ::
                lead in named && lead.name == axis.parent.value && lead.parent == None
                && ColumnsFit(axis, |lead.keys|)
  {
    if lead :| lead in named && lead.name == axis.parent.value && lead.parent == None
               && ColumnsFit(axis, |lead.keys|)
    {
      var p :| 0 <= p < |named| && named[p] == lead;
    }
  }

  /** What follows from it, and the functions below rest on: sound coordinates, and references that fit them. */
  predicate Fitting(d: Plan) {
    SoundAxes(Coordinates(d)) && RefsFit(Refs(d), Sizes(Coordinates(d)))
  }

  /** What parsing guarantees of a document; its second clause follows from the first (DeclaredFits). */
  predicate WellParsed(d: Plan) {
    && Declared(d) && Fitting(d)
    && !IsAxis(Rest(d)) && UniqueKeys(Rest(d)) && Sound(Rest(d)) && SweepsShaped(Rest(d))
  }

  /** A name stands in one place. */
  lemma PlaceIs(named: seq<NamedAxis>, i: nat)
    requires i < |named|
    requires AllNamesDiffer(named)
    ensures PlaceOf(named, named[i].name, |named|) == Some(i)
  {
    forall j | 0 <= j < i ensures named[j].name != named[i].name {
      assert NamesDifferAt(named, j, i);
    }
  }

  lemma {:induction false} CoordinatesDiffer(named: seq<NamedAxis>, n: nat)
    requires n <= |named|
    requires AllNamesDiffer(named)
    ensures AllNamesDiffer(Independent(named, n))
    decreases n
  {
    if n > 0 {
      CoordinatesDiffer(named, n - 1);
      var before, r := Independent(named, n - 1), Independent(named, n);
      forall k, l | 0 <= k < l < |r| ensures NamesDifferAt(r, k, l) {
        if l < |before| {
          assert NamesDifferAt(before, k, l);
        } else {
          assert before[k] in named[..n - 1];
          var i :| 0 <= i < n - 1 && named[i] == before[k];
          assert NamesDifferAt(named, i, n - 1);
        }
      }
    }
  }

  /** Where a coordinate axis of a name stands among the coordinates. */
  lemma CoordinatePlace(d: Plan, p: nat) returns (l: nat)
    requires Declared(d) && p < |d.named| && d.named[p].parent == None
    ensures l < |Coordinates(d)| && Coordinates(d)[l] == d.named[p]
    ensures PlaceOf(Coordinates(d), d.named[p].name, |Coordinates(d)|) == Some(l)
  {
    TakeAll(d.named);
    assert d.named[p] in Coordinates(d);
    l :| 0 <= l < |Coordinates(d)| && Coordinates(d)[l] == d.named[p];
    CoordinatesDiffer(d.named, |d.named|);
    PlaceIs(Coordinates(d), l);
  }

  /** The axis that takes an axis's entry: itself, or the one it follows. */
  lemma LeaderPlace(named: seq<NamedAxis>, i: nat) returns (p: nat)
    requires i < |named| && SoundDeclaration(named, named[i])
    ensures p < |named| && named[p].parent == None && named[p].name == LeadName(named[i])
    ensures ColumnsFit(named[i], |named[p].keys|)
  {
    p := i;
    if named[i].parent.Some? {
      p :| 0 <= p < |named| && named[p].name == named[i].parent.value && named[p].parent == None
           && ColumnsFit(named[i], |named[p].keys|);
    }
  }

  /** A reference reads the column of the axis it names, and takes the entry of the axis that one follows. */
  lemma ReferenceIs(d: Plan, k: nat, i: nat) returns (l: nat)
    requires Declared(d) && k < |References(d)| && i < |d.named|
    requires d.named[i].name == References(d)[k].axis && References(d)[k].field in d.named[i].columns
    ensures k < |Refs(d)| && l < |Coordinates(d)| && Coordinates(d)[l].name == LeadName(d.named[i])
    ensures Refs(d)[k] == Resolved(References(d)[k].path, d.named[i].columns[References(d)[k].field], l)
    ensures ColumnsFit(d.named[i], |Coordinates(d)[l].keys|)
  {
    PlaceIs(d.named, i);
    assert SoundDeclaration(d.named, d.named[i]);
    var p := LeaderPlace(d.named, i);
    l := CoordinatePlace(d, p);
  }

  lemma DeclaredFits(d: Plan)
    requires Declared(d)
    ensures Fitting(d)
  {
    TakeAll(d.named);
    forall l | 0 <= l < |Coordinates(d)| ensures Coordinates(d)[l].keys != [] && AllDistinct(Coordinates(d)[l].keys) {
      assert Coordinates(d)[l] in d.named;
      var i :| 0 <= i < |d.named| && d.named[i] == Coordinates(d)[l];
      assert SoundDeclaration(d.named, d.named[i]);
    }
    forall k | 0 <= k < |Refs(d)| ensures RefFits(Refs(d)[k], Sizes(Coordinates(d))) {
      assert NamesColumn(d.named, References(d)[k]);
      var i :| 0 <= i < |d.named| && d.named[i].name == References(d)[k].axis
        && References(d)[k].field in d.named[i].columns;
      var l := ReferenceIs(d, k, i);
    }
  }

  // ---------------------------------------------------------------- one combination of entries

  function RowAssignment(refs: seq<Resolved>, sizes: seq<nat>, combo: seq<nat>, n: nat): Assignment
    requires RefsFit(refs, sizes) && Fits(combo, sizes) && n <= |refs|
  {
    if n == 0 then map[]
    else
      var r := refs[n - 1];
      assert combo[r.leader] < sizes[r.leader];
      RowAssignment(refs, sizes, combo, n - 1)[r.path := r.column[combo[r.leader]]]
  }

  function ColumnsFor(refs: seq<Resolved>, n: nat): map<Path, seq<Json>>
    requires n <= |refs|
  {
    if n == 0 then map[] else ColumnsFor(refs, n - 1)[refs[n - 1].path := refs[n - 1].column]
  }

  lemma {:induction false} AssignmentMatchesColumns(refs: seq<Resolved>, sizes: seq<nat>, combo: seq<nat>, n: nat)
    requires RefsFit(refs, sizes) && Fits(combo, sizes) && n <= |refs|
    ensures RowsOf(RowAssignment(refs, sizes, combo, n), ColumnsFor(refs, n))
    decreases n
  {
    if n > 0 {
      AssignmentMatchesColumns(refs, sizes, combo, n - 1);
      var r := refs[n - 1];
      assert combo[r.leader] < sizes[r.leader];
      assert r.column[combo[r.leader]] in r.column;
    }
  }

  lemma {:induction false} AssignmentKeys(refs: seq<Resolved>, sizes: seq<nat>, combo: seq<nat>, n: nat, p: Path)
    requires RefsFit(refs, sizes) && Fits(combo, sizes) && n <= |refs|
    ensures p in RowAssignment(refs, sizes, combo, n) <==> Names(refs, n, p)
    decreases n
  {
    if n > 0 {
      AssignmentKeys(refs, sizes, combo, n - 1, p);
      if Names(refs, n, p) {
        var k :| 0 <= k < n && refs[k].path == p;
      }
      if Names(refs, n - 1, p) {
        var k :| 0 <= k < n - 1 && refs[k].path == p;
      }
      assert refs[n - 1].path == p ==> Names(refs, n, p);
    }
  }

  function Row(d: Plan, combo: seq<nat>): Assignment
    requires RefsFit(Refs(d), Sizes(Coordinates(d))) && Fits(combo, Sizes(Coordinates(d)))
  {
    RowAssignment(Refs(d), Sizes(Coordinates(d)), combo, |Refs(d)|)
  }

  /** The tree of a combination, with every wrapper outside the block replaced by its entry's value. */
  function RowTree(d: Plan, combo: seq<nat>): Json
    requires RefsFit(Refs(d), Sizes(Coordinates(d))) && Fits(combo, Sizes(Coordinates(d)))
  {
    Subst(AxisKind, Rest(d), Row(d, combo), [])
  }

  /** The display form: every wrapper replaced by the sweep over its column. */
  function Lowered(d: Plan): Json {
    Subst(AxisKind, Rest(d), Display(ColumnsFor(Refs(d), |Refs(d)|)), [])
  }

  /** Every wrapper outside the block has its value. */
  lemma RestIsCovered(d: Plan, combo: seq<nat>)
    requires RefsFit(Refs(d), Sizes(Coordinates(d))) && ListsClean(AxisKind, Rest(d))
    requires Fits(combo, Sizes(Coordinates(d)))
    ensures Covered(AxisKind, Rest(d), Row(d, combo), [])
  {
    ReferencesAreSpots(d);
    forall spot | spot in Found(AxisKind, Rest(d), []) ensures spot.path in Row(d, combo) {
      AssignmentKeys(Refs(d), Sizes(Coordinates(d)), combo, |Refs(d)|, spot.path);
    }
    CoveredWhenFound(AxisKind, Rest(d), Row(d, combo), []);
  }

  /** No axis wrapper survives in a combination's tree, and its sweeps are those of the document. */
  lemma RowTreeIsClean(d: Plan, combo: seq<nat>)
    requires WellParsed(d) && Fits(combo, Sizes(Coordinates(d)))
    ensures !HasWrapper(AxisKind, RowTree(d, combo))
    ensures Found(SweepKind, RowTree(d, combo), []) == Found(SweepKind, Rest(d), [])
  {
    RestIsCovered(d, combo);
    AssignmentMatchesColumns(Refs(d), Sizes(Coordinates(d)), combo, |Refs(d)|);
    NoneSurvives(AxisKind, Rest(d), Row(d, combo), []);
    SweepsUnchanged(Rest(d), Row(d, combo), []);
  }

  // ---------------------------------------------------------------- removing the block

  function DropBlock(n: Json): Json
    requires n.Obj? && n.entries != []
  {
    Obj(n.entries[1..])
  }

  /** The block is not one of the other groups, and the document as a whole is no wrapper. */
  predicate BlockApart(d: Plan) {
    forall i {:trigger d.groups[i]} :: 0 <= i < |d.groups| ==> d.groups[i].0 != AXES_KEY
  }

  lemma SourceKids(d: Plan, a: Assignment)
    requires !IsAxis(Rest(d))
    ensures !IsAxis(Source(d)) && Subst(AxisKind, Source(d), a, []).Obj?
              && Subst(AxisKind, Source(d), a, []).entries != []
    ensures DropBlock(Subst(AxisKind, Source(d), a, [])) == Subst(AxisKind, Rest(d), a, [])
  {
    var all, rest := Source(d), Rest(d);
    assert all.entries[0] == (AXES_KEY, d.block);
    var kids, restKids := SubstKids(AxisKind, all, a, []), SubstKids(AxisKind, rest, a, []);
    forall i | 0 <= i < |d.groups| ensures kids[i + 1] == restKids[i] {
      KidBehindBlock(d, all, rest, a, i);
    }
    RebuiltBehind((AXES_KEY, d.block), d.groups, kids, restKids);
  }

  lemma KidBehindBlock(d: Plan, all: Json, rest: Json, a: Assignment, i: nat)
    requires all == Source(d) && rest == Rest(d) && i < |d.groups|
    ensures SubstKids(AxisKind, all, a, [])[i + 1] == SubstKids(AxisKind, rest, a, [])[i]
  {
    assert all.entries[i + 1] == d.groups[i];
    assert Kid(all, i + 1) == Kid(rest, i) && Step(all, [], i + 1) == Step(rest, [], i);
  }

  lemma RebuiltBehind(first: (string, Json), groups: seq<(string, Json)>, kids: seq<Json>, restKids: seq<Json>)
    requires |kids| == |groups| + 1 && |restKids| == |groups|
    requires forall i {:trigger restKids[i]} :: 0 <= i < |groups| ==> kids[i + 1] == restKids[i]
    ensures var all := Rebuild(Obj([first] + groups), kids);
            all.Obj? && all.entries != [] && DropBlock(all) == Rebuild(Obj(groups), restKids)
  {
    var all, rest := Rebuild(Obj([first] + groups), kids), Rebuild(Obj(groups), restKids);
    forall i | 0 <= i < |groups| ensures DropBlock(all).entries[i] == rest.entries[i] {
      assert ([first] + groups)[i + 1] == groups[i] && kids[i + 1] == restKids[i];
    }
    SameElements(DropBlock(all).entries, rest.entries);
  }

  /** A row assigns nothing below the block. */
  lemma NothingBelowBlock(d: Plan, combo: seq<nat>, p: Path)
    requires RefsFit(Refs(d), Sizes(Coordinates(d))) && !IsAxis(Rest(d)) && BlockApart(d)
    requires Fits(combo, Sizes(Coordinates(d))) && p in Row(d, combo)
    ensures !([AXES_KEY] <= p)
  {
    ReferencesAreSpots(d);
    AssignmentKeys(Refs(d), Sizes(Coordinates(d)), combo, |Refs(d)|, p);
    var k :| 0 <= k < |Refs(d)| && Refs(d)[k].path == p;
    var spot :| spot in Found(AxisKind, Rest(d), []) && spot.path == p;
    SpotBelow(AxisKind, Rest(d), [], spot);
    var i :| 0 <= i < Width(Rest(d)) && spot in Found(AxisKind, Kid(Rest(d), i), Step(Rest(d), [], i));
    SpotsExtend(AxisKind, Kid(Rest(d), i), Step(Rest(d), [], i), spot);
    assert p[0] == d.groups[i].0;
  }

  /**
   Substituting runs over the whole document, block included, and finds a value for every wrapper exactly when the
   block itself holds no mapping with the single key `axis`.
   */
  lemma SourceIsCovered(d: Plan, combo: seq<nat>)
    requires WellParsed(d) && BlockApart(d) && Fits(combo, Sizes(Coordinates(d)))
    ensures Covered(AxisKind, Source(d), Row(d, combo), []) <==> !HasWrapper(AxisKind, d.block)
  {
    var a := Row(d, combo);
    RestIsCovered(d, combo);
    SourceKids(d, a);
    forall p | p in a ensures !([AXES_KEY] <= p) {
      NothingBelowBlock(d, combo, p);
    }
    assert Kid(Source(d), 0) == d.block && Step(Source(d), [], 0) == [AXES_KEY];
    if Covered(AxisKind, Source(d), a, []) {
      UncoveredBelow(AxisKind, d.block, a, [AXES_KEY]);
    } else if !HasWrapper(AxisKind, d.block) {
      NothingToReplace(AxisKind, d.block, a, [AXES_KEY]);
      forall i | 0 <= i < Width(Source(d)) ensures Covered(AxisKind, Kid(Source(d), i), a, Step(Source(d), [], i)) {
        if i > 0 {
          assert Kid(Source(d), i) == Kid(Rest(d), i - 1) && Step(Source(d), [], i) == Step(Rest(d), [], i - 1);
        }
      }
    }
  }

  // ---------------------------------------------------------------- the points

  /** Coordinates are a dictionary, labelled by the dotted path of the axis or sweep. */
  datatype Point = Point(coords: map<string, Json>, raw: Json)

  function SpotSizes(spots: seq<Spot>): seq<nat> {
    seq(|spots|, i requires 0 <= i < |spots| => |Values(spots[i].node)|)
  }

  /** The values a combination picks from the sweeps, by path. */
  function Choice(spots: seq<Spot>, combo: seq<nat>, n: nat): Assignment
    requires Fits(combo, SpotSizes(spots)) && n <= |spots|
  {
    if n == 0 then map[]
    else
      assert combo[n - 1] < SpotSizes(spots)[n - 1];
      Choice(spots, combo, n - 1)[spots[n - 1].path := Values(spots[n - 1].node)[combo[n - 1]]]
  }

  function InnerEntries(spots: seq<Spot>, combo: seq<nat>): seq<(string, Json)>
    requires Fits(combo, SpotSizes(spots))
  {
    seq(|spots|, i requires 0 <= i < |spots| =>
      assert combo[i] < SpotSizes(spots)[i];
      (Dotted(spots[i].path), Values(spots[i].node)[combo[i]]))
  }

  function OuterEntries(axes: seq<NamedAxis>, combo: seq<nat>): seq<(string, Json)>
    requires Fits(combo, Sizes(axes))
  {
    seq(|axes|, i requires 0 <= i < |axes| =>
      assert combo[i] < Sizes(axes)[i];
      (Dotted([AXES_KEY, axes[i].name]), axes[i].keys[combo[i]]))
  }

  function Sweeps(d: Plan): seq<Spot> {
    Found(SweepKind, Rest(d), [])
  }

  function InnerSizes(d: Plan): seq<nat> {
    SpotSizes(Sweeps(d))
  }

  /**
   A point of a tree: the entries' coordinates, those of the sweeps, and the tree with the sweeps' values in place.
   */
  function PointOf(axes: seq<NamedAxis>, outer: seq<nat>, tree: Json, spots: seq<Spot>, inner: seq<nat>): Point
    requires Fits(outer, Sizes(axes)) && Fits(inner, SpotSizes(spots))
  {
    Point(Dict(OuterEntries(axes, outer), |axes|) + Dict(InnerEntries(spots, inner), |spots|),
          Subst(SweepKind, tree, Choice(spots, inner, |spots|), []))
  }

  /** The point of one entry of every axis and one value of every sweep. */
  function PointAt(d: Plan, outer: seq<nat>, inner: seq<nat>): Point
    requires RefsFit(Refs(d), Sizes(Coordinates(d))) && Fits(outer, Sizes(Coordinates(d))) && Fits(inner, InnerSizes(d))
  {
    PointOf(Coordinates(d), outer, RowTree(d, outer), Sweeps(d), inner)
  }

  lemma {:induction false} ChoiceKeys(spots: seq<Spot>, combo: seq<nat>, n: nat, p: Path)
    requires Fits(combo, SpotSizes(spots)) && n <= |spots| && p in Choice(spots, combo, n)
    ensures exists i {:trigger spots[i]} :: 0 <= i < n && spots[i].path == p
                                            && Choice(spots, combo, n)[p] in Values(spots[i].node)
    decreases n
  {
    if spots[n - 1].path != p {
      ChoiceKeys(spots, combo, n - 1, p);
    } else {
      assert combo[n - 1] < SpotSizes(spots)[n - 1];
      assert Values(spots[n - 1].node)[combo[n - 1]] in Values(spots[n - 1].node);
    }
  }

  lemma {:induction false} ChoiceHas(spots: seq<Spot>, combo: seq<nat>, n: nat, i: nat)
    requires Fits(combo, SpotSizes(spots)) && i < n <= |spots|
    ensures spots[i].path in Choice(spots, combo, n)
    decreases n
  {
    if i < n - 1 {
      ChoiceHas(spots, combo, n - 1, i);
    }
  }

  /** Every sweep gets one of its own values. */
  lemma ChoiceIsChosen(d: Plan, inner: seq<nat>, spot: Spot)
    requires UniqueKeys(Rest(d)) && Fits(inner, InnerSizes(d)) && spot in Sweeps(d)
    ensures var choice := Choice(Sweeps(d), inner, |Sweeps(d)|);
            spot.path in choice && choice[spot.path] in Values(spot.node)
  {
    var spots := Sweeps(d);
    var i :| 0 <= i < |spots| && spots[i] == spot;
    ChoiceHas(spots, inner, |spots|, i);
    ChoiceKeys(spots, inner, |spots|, spot.path);
    var j :| 0 <= j < |spots| && spots[j].path == spot.path
             && Choice(spots, inner, |spots|)[spot.path] in Values(spots[j].node);
    SamePathSameSpot(SweepKind, Rest(d), [], spots[j], spot);
  }

  /** No axis wrapper survives in any point. */
  lemma NoAxisSurvives(d: Plan, outer: seq<nat>, inner: seq<nat>)
    requires WellParsed(d) && Fits(outer, Sizes(Coordinates(d))) && Fits(inner, InnerSizes(d))
    ensures !HasWrapper(AxisKind, PointAt(d, outer, inner).raw)
  {
    var spots := Sweeps(d);
    var choice := Choice(spots, inner, |spots|);
    RowTreeIsClean(d, outer);
    forall p | p in choice ensures !HasWrapper(AxisKind, choice[p]) {
      ChoiceKeys(spots, inner, |spots|, p);
      var i :| 0 <= i < |spots| && spots[i].path == p && choice[p] in Values(spots[i].node);
      assert SweepShape(Found(SweepKind, Rest(d), [])[i].node);
    }
    NoneIntroduced(SweepKind, AxisKind, RowTree(d, outer), choice, []);
  }

  // ---------------------------------------------------------------- one row together

  /** Wrappers at one path are one wrapper, so they are one reference. */
  lemma SameRef(d: Plan, j: nat, k: nat)
    requires UniqueKeys(Rest(d)) && j < |Refs(d)| && k < |Refs(d)| && Refs(d)[j].path == Refs(d)[k].path
    ensures Refs(d)[j] == Refs(d)[k]
  {
    RefsComeFromSpots(d, j);
    RefsComeFromSpots(d, k);
    var spots := Found(AxisKind, Rest(d), []);
    SamePathSameSpot(AxisKind, Rest(d), [], spots[j], spots[k]);
  }

  predicate SameIfSamePath(refs: seq<Resolved>, j: nat, k: nat)
    requires j < |refs| && k < |refs|
  {
    refs[j].path == refs[k].path ==> refs[j] == refs[k]
  }

  predicate PathsTell(refs: seq<Resolved>) {
    forall j, k {:trigger SameIfSamePath(refs, j, k)} :: 0 <= j < |refs| && 0 <= k < |refs| ==>
      SameIfSamePath(refs, j, k)
  }

  lemma {:induction false} AssignedAt(refs: seq<Resolved>, sizes: seq<nat>, combo: seq<nat>, n: nat, k: nat)
    requires RefsFit(refs, sizes) && Fits(combo, sizes) && PathsTell(refs) && k < n <= |refs|
    ensures var r, row := refs[k], RowAssignment(refs, sizes, combo, n);
            && r.leader < |combo| && combo[r.leader] < |r.column| && r.path in row
              && row[r.path] == r.column[combo[r.leader]]
    decreases n
  {
    assert RefFits(refs[k], sizes);
    assert combo[refs[k].leader] < sizes[refs[k].leader];
    if k < n - 1 {
      AssignedAt(refs, sizes, combo, n - 1, k);
      assert SameIfSamePath(refs, n - 1, k);
    }
  }

  /** In a point, every reference's place holds the entry its coordinate axis is at. */
  lemma ReferenceInPoint(d: Plan, outer: seq<nat>, inner: seq<nat>, k: nat)
    requires WellParsed(d) && Fits(outer, Sizes(Coordinates(d))) && Fits(inner, InnerSizes(d)) && k < |Refs(d)|
    ensures var r := Refs(d)[k];
            && r.leader < |outer| && outer[r.leader] < |r.column|
            && Get(PointAt(d, outer, inner).raw, r.path) == Some(r.column[outer[r.leader]])
  {
    RefsComeFromSpots(d, k);
    var spot, row := Found(AxisKind, Rest(d), [])[k], Row(d, outer);
    assert spot in Found(AxisKind, Rest(d), []);
    forall i, j | 0 <= i < |Refs(d)| && 0 <= j < |Refs(d)| ensures SameIfSamePath(Refs(d), i, j) {
      if Refs(d)[i].path == Refs(d)[j].path {
        SameRef(d, i, j);
      }
    }
    AssignedAt(Refs(d), Sizes(Coordinates(d)), outer, |Refs(d)|, k);
    assert RefFits(Refs(d)[k], Sizes(Coordinates(d)));
    RowValueStands(Rest(d), row, Choice(Sweeps(d), inner, |Sweeps(d)|), [], spot);
    assert spot.path[0..] == spot.path;
  }

  predicate PathsDifferAt(spots: seq<Spot>, i: nat, j: nat)
    requires i < |spots| && j < |spots|
  {
    spots[i].path != spots[j].path
  }

  predicate PathsDiffer(spots: seq<Spot>) {
    forall i, j {:trigger PathsDifferAt(spots, i, j)} :: 0 <= i < j < |spots| ==> PathsDifferAt(spots, i, j)
  }

  lemma {:induction false} ChoiceAt(spots: seq<Spot>, combo: seq<nat>, n: nat, i: nat)
    requires Fits(combo, SpotSizes(spots)) && PathsDiffer(spots) && i < n <= |spots|
    ensures combo[i] < |Values(spots[i].node)| && spots[i].path in Choice(spots, combo, n)
    ensures Choice(spots, combo, n)[spots[i].path] == Values(spots[i].node)[combo[i]]
    decreases n
  {
    assert combo[i] < SpotSizes(spots)[i];
    if i < n - 1 {
      ChoiceAt(spots, combo, n - 1, i);
      assert PathsDifferAt(spots, i, n - 1);
    }
  }

  /** In a point, every sweep's place holds the very value the combination picks from its list. */
  lemma SweepInPoint(d: Plan, outer: seq<nat>, inner: seq<nat>, i: nat)
    requires WellParsed(d) && Fits(outer, Sizes(Coordinates(d))) && Fits(inner, InnerSizes(d)) && i < |Sweeps(d)|
    ensures var spot := Sweeps(d)[i];
            && i < |inner| && inner[i] < |Values(spot.node)|
            && Get(PointAt(d, outer, inner).raw, spot.path) == Some(Values(spot.node)[inner[i]])
  {
    var spots := Sweeps(d);
    forall j, k | 0 <= j < k < |spots| ensures PathsDifferAt(spots, j, k) {
      SpotsDiffer(SweepKind, Rest(d), [], j, k);
    }
    ChoiceAt(spots, inner, |spots|, i);
    ChosenValueStands(Rest(d), Row(d, outer), Choice(spots, inner, |spots|), [], spots[i]);
    assert spots[i].path[0..] == spots[i].path;
  }

  /** The axis is led by the l-th coordinate axis: it is that axis, or depends on it. */
  predicate LedBy(d: Plan, axis: NamedAxis, l: nat)
    requires l < |Coordinates(d)|
  {
    LeadName(axis) == Coordinates(d)[l].name
  }

  /**
   In every point, all fields of one axis, and of every axis that depends on it, come from one row: each wrapper that
   names one of them stands replaced by its column's entry at the one index the point has for that axis.
   */
  lemma OneRowTogether(d: Plan, outer: seq<nat>, inner: seq<nat>, l: nat, k: nat, i: nat)
    requires WellParsed(d) && Fits(outer, Sizes(Coordinates(d))) && Fits(inner, InnerSizes(d))
    requires l < |Coordinates(d)| && k < |References(d)| && i < |d.named|
    requires d.named[i].name == References(d)[k].axis && LedBy(d, d.named[i], l)
    ensures References(d)[k].field in d.named[i].columns
    ensures var column := d.named[i].columns[References(d)[k].field];
            && l < |outer| && outer[l] < |column|
            && Get(PointAt(d, outer, inner).raw, References(d)[k].path) == Some(column[outer[l]])
  {
    assert NamesColumn(d.named, References(d)[k]);
    var j :| 0 <= j < |d.named| && d.named[j].name == References(d)[k].axis
      && References(d)[k].field in d.named[j].columns;
    PlaceIs(d.named, i);
    PlaceIs(d.named, j);
    var at := ReferenceIs(d, k, i);
    CoordinatesDiffer(d.named, |d.named|);
    PlaceIs(Coordinates(d), l);
    PlaceIs(Coordinates(d), at);
    ReferenceInPoint(d, outer, inner, k);
  }

  // ---------------------------------------------------------------- points in the display form

  /** An axis wrapper's path has a value of the row, and none of the sweeps'. */
  lemma RowSpots(d: Plan, outer: seq<nat>, inner: seq<nat>, spot: Spot)
    requires WellParsed(d) && Fits(outer, Sizes(Coordinates(d))) && Fits(inner, InnerSizes(d))
    requires spot in Found(AxisKind, Rest(d), [])
    ensures spot.path in Row(d, outer) && spot.path !in Choice(Sweeps(d), inner, |Sweeps(d)|)
  {
    ReferencesAreSpots(d);
    AssignmentKeys(Refs(d), Sizes(Coordinates(d)), outer, |Refs(d)|, spot.path);
    if spot.path in Choice(Sweeps(d), inner, |Sweeps(d)|) {
      ChoiceKeys(Sweeps(d), inner, |Sweeps(d)|, spot.path);
      var i :| 0 <= i < |Sweeps(d)| && Sweeps(d)[i].path == spot.path;
      KindsApart(Rest(d), [], spot, Sweeps(d)[i]);
    }
  }

  /** A row assigns every wrapper and a choice every sweep, and neither touches the other's places. */
  lemma RowAndChoiceMerge(d: Plan, outer: seq<nat>, inner: seq<nat>, row: Assignment, choice: Assignment)
    requires WellParsed(d) && Fits(outer, Sizes(Coordinates(d))) && Fits(inner, InnerSizes(d))
    requires row == Row(d, outer) && choice == Choice(Sweeps(d), inner, |Sweeps(d)|)
    ensures Merges(row + choice, row, choice, Rest(d), [])
  {
    forall spot | spot in Found(AxisKind, Rest(d), []) ensures spot.path in row && spot.path !in choice {
      RowSpots(d, outer, inner, spot);
    }
    forall spot | spot in Found(SweepKind, Rest(d), [])
      ensures spot.path in choice && choice[spot.path] in Values(spot.node)
    {
      ChoiceIsChosen(d, inner, spot);
    }
  }

  /** Every point is in the cross product of the display form, which the correlated axes only thin out. */
  lemma PointsAreInDisplay(d: Plan, outer: seq<nat>, inner: seq<nat>)
    requires WellParsed(d) && Fits(outer, Sizes(Coordinates(d))) && Fits(inner, InnerSizes(d))
    ensures InCrossProduct(Lowered(d), PointAt(d, outer, inner).raw)
  {
    var rest, row, choice := Rest(d), Row(d, outer), Choice(Sweeps(d), inner, |Sweeps(d)|);
    var columns, both := ColumnsFor(Refs(d), |Refs(d)|), row + choice;
    AssignmentMatchesColumns(Refs(d), Sizes(Coordinates(d)), outer, |Refs(d)|);
    RowAndChoiceMerge(d, outer, inner, row, choice);
    DisplayGivesPoint(rest, row, columns, choice, both, []);
    forall spot | spot in Found(SweepKind, Lowered(d), [])
      ensures spot.path in both && both[spot.path] in Values(spot.node)
    {
      DisplayChoices(rest, row, columns, choice, both, [], spot);
    }
    assert ChosenFor(Lowered(d), both);
  }
}
