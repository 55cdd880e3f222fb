/**
 Expanding a document with named axes: how many points, in which order, and when their coordinates tell them apart.
 */
module Expansion {
  import opened Axes
  import opened Combos
  import opened Labels
  import opened Trees
  import opened Wrappers

  datatype ExpandError = UnassignedWrapper | OverCap(total: nat)

  /** The points of one combination of entries: the sweeps it still carries, expanded. */
  function Block(d: Plan, outer: seq<nat>): seq<Point>
    requires RefsFit(Refs(d), Sizes(Coordinates(d))) && Fits(outer, Sizes(Coordinates(d)))
  {
    CrossFits(InnerSizes(d));
    seq(|Cross(InnerSizes(d))|, j requires 0 <= j < |Cross(InnerSizes(d))| =>
        PointAt(d, outer, Cross(InnerSizes(d))[j]))
  }

  function Blocks(d: Plan): seq<seq<Point>>
    requires RefsFit(Refs(d), Sizes(Coordinates(d)))
  {
    CrossFits(Sizes(Coordinates(d)));
    seq(|Cross(Sizes(Coordinates(d)))|, c requires 0 <= c < |Cross(Sizes(Coordinates(d)))| =>
        Block(d, Cross(Sizes(Coordinates(d)))[c]))
  }

  function AllPoints(d: Plan): seq<Point>
    requires RefsFit(Refs(d), Sizes(Coordinates(d)))
  {
    Concat(Blocks(d), |Blocks(d)|)
  }

  // ---------------------------------------------------------------- the loops

  /** The values of one combination, reference by reference. */
  method AssignRow(refs: seq<Resolved>, sizes: seq<nat>, outer: seq<nat>) returns (assignment: Assignment)
    requires RefsFit(refs, sizes) && Fits(outer, sizes)
    ensures assignment == RowAssignment(refs, sizes, outer, |refs|)
  {
    assignment := map[];
    for k := 0 to |refs|
      invariant assignment == RowAssignment(refs, sizes, outer, k)
    {
      var r := refs[k];
      assert RefFits(r, sizes) && outer[r.leader] < sizes[r.leader];
      assignment := assignment[r.path := r.column[outer[r.leader]]];
    }
  }

  /** The concrete tree of a combination: substitute over the whole document, then drop the block. */
  method BuildRowTree(d: Plan, outer: seq<nat>) returns (tree: Option<Json>)
    requires WellParsed(d) && BlockApart(d) && Fits(outer, Sizes(Coordinates(d)))
    ensures tree == if HasWrapper(AxisKind, d.block) then None else Some(RowTree(d, outer))
  {
    var assignment := AssignRow(Refs(d), Sizes(Coordinates(d)), outer);
    SourceIsCovered(d, outer);
    if !Covered(AxisKind, Source(d), assignment, []) {
      return None;
    }
    SourceKids(d, assignment);
    tree := Some(DropBlock(Subst(AxisKind, Source(d), assignment, [])));
  }

  /** The points of one tree, over every combination of its sweeps' values. */
  function TreePoints(axes: seq<NamedAxis>, outer: seq<nat>, tree: Json, spots: seq<Spot>): seq<Point>
    requires Fits(outer, Sizes(axes))
  {
    CrossFits(SpotSizes(spots));
    seq(|Cross(SpotSizes(spots))|, j requires 0 <= j < |Cross(SpotSizes(spots))| =>
      PointOf(axes, outer, tree, spots, Cross(SpotSizes(spots))[j]))
  }

  /** Expand the sweeps of one tree and put the entry's coordinates before theirs. */
  method ExpandTree(axes: seq<NamedAxis>, outer: seq<nat>, tree: Json) returns (block: seq<Point>)
    requires Fits(outer, Sizes(axes))
    ensures block == TreePoints(axes, outer, tree, Found(SweepKind, tree, []))
  {
    var spots := Found(SweepKind, tree, []);
    var combos := Cross(SpotSizes(spots));
    CrossFits(SpotSizes(spots));
    ghost var want := TreePoints(axes, outer, tree, spots);
    block := [];
    for j := 0 to |combos|
      invariant block == want[..j]
    {
      TakeOneMore(want, j);
      block := block + [PointOf(axes, outer, tree, spots, combos[j])];
    }
    TakeAll(want);
  }

  lemma TreePointsAreBlock(d: Plan, outer: seq<nat>)
    requires WellParsed(d) && Fits(outer, Sizes(Coordinates(d)))
    ensures TreePoints(Coordinates(d), outer, RowTree(d, outer), Found(SweepKind, RowTree(d, outer), []))
              == Block(d, outer)
  {
    RowTreeIsClean(d, outer);
    CrossFits(InnerSizes(d));
    SameElements(TreePoints(Coordinates(d), outer, RowTree(d, outer), Sweeps(d)), Block(d, outer));
  }

  /** How many points a combination's tree has: the same for every combination. */
  method CountInner(d: Plan, outer: seq<nat>) returns (count: Option<nat>)
    requires WellParsed(d) && BlockApart(d) && Fits(outer, Sizes(Coordinates(d)))
    ensures count == if HasWrapper(AxisKind, d.block) then None else Some(ProductOf(InnerSizes(d)))
  {
    var first := BuildRowTree(d, outer);
    if first == None {
      return None;
    }
    RowTreeIsClean(d, outer);
    var product := Multiply(SpotSizes(Found(SweepKind, first.value, [])));
    count := Some(product);
  }

  /** One combination's points. */
  method ExpandBlock(d: Plan, outer: seq<nat>) returns (block: seq<Point>)
    requires WellParsed(d) && BlockApart(d) && !HasWrapper(AxisKind, d.block)
    requires Fits(outer, Sizes(Coordinates(d)))
    ensures block == Block(d, outer)
  {
    var tree := BuildRowTree(d, outer);
    block := ExpandTree(Coordinates(d), outer, tree.value);
    TreePointsAreBlock(d, outer);
  }

  /** The points of every combination, one block after the other. */
  method ExpandBlocks(d: Plan, combos: seq<seq<nat>>) returns (points: seq<Point>)
    requires WellParsed(d) && BlockApart(d) && !HasWrapper(AxisKind, d.block)
    requires combos == Cross(Sizes(Coordinates(d)))
    ensures points == AllPoints(d)
  {
    CrossFits(Sizes(Coordinates(d)));
    ghost var blocks := Blocks(d);
    points := [];
    for c := 0 to |combos|
      invariant points == Concat(blocks, c)
    {
      var block := ExpandBlock(d, combos[c]);
      points := points + block;
    }
  }

  /**
   Expand a document: refuse a block with a wrapper in it, then a total over the cap, counted before any point is
   built; otherwise the points of every combination, one block after the other.
   */
  method ExpandAxes(d: Plan, cap: Option<nat>) returns (r: Result<seq<Point>, ExpandError>)
    requires WellParsed(d) && BlockApart(d)
    ensures var total := ProductOf(Sizes(Coordinates(d))) * ProductOf(InnerSizes(d));
            r == if HasWrapper(AxisKind, d.block) then Err(UnassignedWrapper)
                 else if cap.Some? && total > cap.value then Err(OverCap(total))
                 else Ok(AllPoints(d))
  {
    var combos := Cross(Sizes(Coordinates(d)));
    CrossFits(Sizes(Coordinates(d)));
    SizesArePositive(d);
    var innerCount := CountInner(d, combos[0]);
    if innerCount == None {
      return Err(UnassignedWrapper);
    }
    var total := |combos| * innerCount.value;
    if cap.Some? && total > cap.value {
      return Err(OverCap(total));
    }
    var points := ExpandBlocks(d, combos);
    r := Ok(points);
  }

  lemma SizesArePositive(d: Plan)
    requires SoundAxes(Coordinates(d))
    ensures ProductOf(Sizes(Coordinates(d))) > 0
  {
    forall i | 0 <= i < |Coordinates(d)| ensures Sizes(Coordinates(d))[i] > 0 {
      assert Coordinates(d)[i].keys != [];
    }
    ProductPositive(Sizes(Coordinates(d)));
  }

  // ---------------------------------------------------------------- count and order

  /** All coordinates together: the axes' entries, then the sweeps' values. */
  function AllSizes(d: Plan): seq<nat> {
    Sizes(Coordinates(d)) + InnerSizes(d)
  }

  /**
   The capped total is the true count, and point k belongs to the k-th combination of all coordinates: the axes'
   entries first and slowest, the sweeps' values last and fastest, in lexicographic order.
   */
  lemma PointsInOrder(d: Plan, k: nat)
    requires WellParsed(d) && k < ProductOf(Sizes(Coordinates(d))) * ProductOf(InnerSizes(d))
    ensures |AllPoints(d)| == ProductOf(Sizes(Coordinates(d))) * ProductOf(InnerSizes(d)) == ProductOf(AllSizes(d))
    ensures var digits, n := Digits(AllSizes(d), k), |Coordinates(d)|;
            && Fits(digits[..n], Sizes(Coordinates(d))) && Fits(digits[n..], InnerSizes(d))
            && AllPoints(d)[k] == PointAt(d, digits[..n], digits[n..])
  {
    var outer, inner := Sizes(Coordinates(d)), InnerSizes(d);
    LengthIs(d);
    var i, j := SplitIndex(k, ProductOf(inner), ProductOf(outer));
    PointOfBlock(d, k, i, j);
  }

  lemma PointOfBlock(d: Plan, k: nat, i: nat, j: nat)
    requires RefsFit(Refs(d), Sizes(Coordinates(d))) && i < ProductOf(Sizes(Coordinates(d)))
               && j < ProductOf(InnerSizes(d))
    requires k == i * ProductOf(InnerSizes(d)) + j < |AllPoints(d)| && k < ProductOf(AllSizes(d))
    ensures var digits, n := Digits(AllSizes(d), k), |Coordinates(d)|;
            && Fits(digits[..n], Sizes(Coordinates(d))) && Fits(digits[n..], InnerSizes(d))
            && AllPoints(d)[k] == PointAt(d, digits[..n], digits[n..])
  {
    DigitsConcat(Sizes(Coordinates(d)), InnerSizes(d), k, i, j);
    PointInBlock(d, i, j, k);
    AppendSlices(Digits(Sizes(Coordinates(d)), i), Digits(InnerSizes(d), j));
  }

  /** The j-th point of the i-th block. */
  lemma PointInBlock(d: Plan, i: nat, j: nat, k: nat)
    requires RefsFit(Refs(d), Sizes(Coordinates(d))) && i < ProductOf(Sizes(Coordinates(d)))
               && j < ProductOf(InnerSizes(d))
    requires k == i * ProductOf(InnerSizes(d)) + j
    ensures Fits(Digits(Sizes(Coordinates(d)), i), Sizes(Coordinates(d)))
              && Fits(Digits(InnerSizes(d), j), InnerSizes(d))
    ensures k < |AllPoints(d)|
              && AllPoints(d)[k] == PointAt(d, Digits(Sizes(Coordinates(d)), i), Digits(InnerSizes(d), j))
  {
    BlocksAreUniform(d);
    UniformAt(Blocks(d), |Blocks(d)|, ProductOf(InnerSizes(d)), i, j, k);
    BlockEntry(d, i, j);
  }

  lemma BlockEntry(d: Plan, i: nat, j: nat)
    requires RefsFit(Refs(d), Sizes(Coordinates(d))) && i < ProductOf(Sizes(Coordinates(d)))
               && j < ProductOf(InnerSizes(d))
    requires |Blocks(d)| == ProductOf(Sizes(Coordinates(d))) && Uniform(Blocks(d), ProductOf(InnerSizes(d)))
    ensures Fits(Digits(Sizes(Coordinates(d)), i), Sizes(Coordinates(d)))
              && Fits(Digits(InnerSizes(d), j), InnerSizes(d))
    ensures |Blocks(d)[i]| == ProductOf(InnerSizes(d))
    ensures Blocks(d)[i][j] == PointAt(d, Digits(Sizes(Coordinates(d)), i), Digits(InnerSizes(d), j))
  {
    CrossAt(Sizes(Coordinates(d)), i);
    CrossAt(InnerSizes(d), j);
  }

  lemma CrossAt(sizes: seq<nat>, k: nat)
    requires k < ProductOf(sizes)
    ensures k < |Cross(sizes)| && Cross(sizes)[k] == Digits(sizes, k) && Fits(Digits(sizes, k), sizes)
  {
    CrossIs(sizes);
    DigitsRank(sizes, k);
    assert Cross(sizes)[k] == Digits(sizes, 0 + k);
  }

  lemma BlocksAreUniform(d: Plan)
    requires RefsFit(Refs(d), Sizes(Coordinates(d)))
    ensures Uniform(Blocks(d), ProductOf(InnerSizes(d))) && |Blocks(d)| == ProductOf(Sizes(Coordinates(d)))
  {
    CrossFits(Sizes(Coordinates(d)));
    CrossFits(InnerSizes(d));
  }

  // ---------------------------------------------------------------- coordinates

  /** The coordinates of a combination before they are put in a dictionary, one for every axis and every sweep. */
  function EntriesOf(d: Plan, combo: seq<nat>): seq<(string, Json)>
    requires Fits(combo, AllSizes(d))
  {
    var n := |Coordinates(d)|;
    SplitFits(combo, Sizes(Coordinates(d)), InnerSizes(d));
    OuterEntries(Coordinates(d), combo[..n]) + InnerEntries(Sweeps(d), combo[n..])
  }

  function CoordsOf(d: Plan, combo: seq<nat>): map<string, Json>
    requires Fits(combo, AllSizes(d))
  {
    Dict(EntriesOf(d, combo), |EntriesOf(d, combo)|)
  }

  lemma SplitFits(combo: seq<nat>, a: seq<nat>, b: seq<nat>)
    requires Fits(combo, a + b)
    ensures Fits(combo[..|a|], a) && Fits(combo[|a|..], b)
  {
    forall i | 0 <= i < |a| ensures combo[i] < a[i] {
      assert (a + b)[i] == a[i];
    }
    forall i | 0 <= i < |b| ensures combo[|a| + i] < b[i] {
      assert (a + b)[|a| + i] == b[i];
    }
  }

  /** How many axes and sweeps there are. */
  function Count(d: Plan): nat {
    |Coordinates(d)| + |Sweeps(d)|
  }

  /** The values coordinate i ranges over. */
  function ColumnAt(d: Plan, i: nat): seq<Json>
    requires i < Count(d)
  {
    if i < |Coordinates(d)| then Coordinates(d)[i].keys else Values(Sweeps(d)[i - |Coordinates(d)|].node)
  }

  /** Its label: the dotted path of the axis or sweep it belongs to. */
  function LabelAt(d: Plan, i: nat): string
    requires i < Count(d)
  {
    Dotted(if i < |Coordinates(d)| then [AXES_KEY, Coordinates(d)[i].name] else Sweeps(d)[i - |Coordinates(d)|].path)
  }

  lemma OuterEntryIs(axes: seq<NamedAxis>, combo: seq<nat>, i: nat)
    requires Fits(combo, Sizes(axes)) && i < |axes|
    ensures combo[i] < |axes[i].keys|
    ensures OuterEntries(axes, combo)[i] == (Dotted([AXES_KEY, axes[i].name]), axes[i].keys[combo[i]])
  {
    assert combo[i] < Sizes(axes)[i];
  }

  lemma InnerEntryIs(spots: seq<Spot>, combo: seq<nat>, i: nat)
    requires Fits(combo, SpotSizes(spots)) && i < |spots|
    ensures combo[i] < |Values(spots[i].node)|
    ensures InnerEntries(spots, combo)[i] == (Dotted(spots[i].path), Values(spots[i].node)[combo[i]])
  {
    assert combo[i] < SpotSizes(spots)[i];
  }

  lemma EntryIs(d: Plan, combo: seq<nat>, i: nat)
    requires Fits(combo, AllSizes(d)) && i < Count(d)
    ensures |combo| == |EntriesOf(d, combo)| == |AllSizes(d)| == Count(d) && combo[i] < |ColumnAt(d, i)|
    ensures EntriesOf(d, combo)[i] == (LabelAt(d, i), ColumnAt(d, i)[combo[i]])
  {
    var n := |Coordinates(d)|;
    SplitFits(combo, Sizes(Coordinates(d)), InnerSizes(d));
    if i < n {
      OuterEntryIs(Coordinates(d), combo[..n], i);
      assert EntriesOf(d, combo)[i] == OuterEntries(Coordinates(d), combo[..n])[i];
    } else {
      InnerEntryIs(Sweeps(d), combo[n..], i - n);
      assert EntriesOf(d, combo)[i] == InnerEntries(Sweeps(d), combo[n..])[i - n];
    }
  }

  /** A later coordinate has the same label and overwrites this one. */
  predicate Overwritten(d: Plan, i: nat)
    requires i < Count(d)
  {
    exists j {:trigger LabelAt(d, j)} :: i < j < Count(d) && LabelAt(d, j) == LabelAt(d, i)
  }

  lemma ShadowedIsOverwritten(d: Plan, combo: seq<nat>, i: nat)
    requires Fits(combo, AllSizes(d)) && i < Count(d)
    ensures |EntriesOf(d, combo)| == Count(d) && (Shadowed(EntriesOf(d, combo), Count(d), i) <==> Overwritten(d, i))
  {
    EntryIs(d, combo, i);
    var entries := EntriesOf(d, combo);
    if j :| i < j < Count(d) && entries[j].0 == entries[i].0 {
      EntryIs(d, combo, j);
      assert LabelAt(d, j) == LabelAt(d, i);
    }
    if j :| i < j < Count(d) && LabelAt(d, j) == LabelAt(d, i) {
      EntryIs(d, combo, j);
      assert entries[j].0 == entries[i].0;
    }
  }

  /** Two combinations pick the same value for coordinate i, or it is overwritten. */
  predicate SameCoordAt(d: Plan, a: seq<nat>, b: seq<nat>, i: nat)
    requires i < Count(d) && |a| == |b| == Count(d) && a[i] < |ColumnAt(d, i)| && b[i] < |ColumnAt(d, i)|
  {
    Overwritten(d, i) || ColumnAt(d, i)[a[i]] == ColumnAt(d, i)[b[i]]
  }

  lemma PicksAt(d: Plan, combo: seq<nat>)
    requires Fits(combo, AllSizes(d))
    ensures |combo| == Count(d) && forall i {:trigger combo[i]} :: 0 <= i < Count(d) ==> combo[i] < |ColumnAt(d, i)|
  {
    forall i | 0 <= i < Count(d) ensures combo[i] < |ColumnAt(d, i)| {
      EntryIs(d, combo, i);
    }
  }

  /** Combinations have equal coordinates exactly when they pick equal values wherever no later label overwrites. */
  lemma EqualCoords(d: Plan, a: seq<nat>, b: seq<nat>)
    requires Fits(a, AllSizes(d)) && Fits(b, AllSizes(d))
    ensures |a| == |b| == Count(d)
    ensures forall i {:trigger a[i]} {:trigger b[i]} :: 0 <= i < Count(d) ==>
              a[i] < |ColumnAt(d, i)| && b[i] < |ColumnAt(d, i)|
    ensures CoordsOf(d, a) == CoordsOf(d, b) <==>
              forall i {:trigger SameCoordAt(d, a, b, i)} :: 0 <= i < Count(d) ==> SameCoordAt(d, a, b, i)
  {
    PicksAt(d, a);
    PicksAt(d, b);
    var x, y := EntriesOf(d, a), EntriesOf(d, b);
    assert |x| == |y| == Count(d);
    forall i | 0 <= i < Count(d) ensures x[i].0 == y[i].0 && (AgreeAt(x, y, i) <==> SameCoordAt(d, a, b, i)) {
      EntryIs(d, a, i);
      EntryIs(d, b, i);
      ShadowedIsOverwritten(d, a, i);
    }
    SameDict(x, y);
  }

  /**
   What makes coordinates tell points apart: a coordinate that is overwritten has a single entry, and any other lists
   no value twice.
   */
  predicate LabelsSuffice(d: Plan) {
    forall i {:trigger ColumnAt(d, i)} :: 0 <= i < Count(d) ==>
      if Overwritten(d, i) then |ColumnAt(d, i)| == 1 else AllDistinct(ColumnAt(d, i))
  }

  /** Under that condition different combinations have different coordinates. */
  lemma DifferentCoords(d: Plan, a: seq<nat>, b: seq<nat>)
    requires LabelsSuffice(d) && Fits(a, AllSizes(d)) && Fits(b, AllSizes(d)) && a != b
    ensures CoordsOf(d, a) != CoordsOf(d, b)
  {
    EqualCoords(d, a, b);
    var i :| 0 <= i < |a| && a[i] != b[i];
    var column := ColumnAt(d, i);
    assert a[i] < |column| && b[i] < |column| && |column| > 1;
    assert !Overwritten(d, i) && AllDistinct(column);
    assert !EqualAt(column, if a[i] < b[i] then a[i] else b[i], if a[i] < b[i] then b[i] else a[i]);
    assert !SameCoordAt(d, a, b, i);
  }

  /** Two entries of one coordinate that its label cannot tell apart give two combinations the same coordinates. */
  lemma RepeatedCoords(d: Plan, at: nat, x: nat, y: nat) returns (a: seq<nat>, b: seq<nat>)
    requires SoundAxes(Coordinates(d)) && SweepsShaped(Rest(d)) && at < Count(d)
    requires x < y < |ColumnAt(d, at)| && (Overwritten(d, at) || ColumnAt(d, at)[x] == ColumnAt(d, at)[y])
    ensures Fits(a, AllSizes(d)) && Fits(b, AllSizes(d)) && a != b && CoordsOf(d, a) == CoordsOf(d, b)
  {
    AllPositive(d);
    assert |AllSizes(d)| == Count(d) && AllSizes(d)[at] == |ColumnAt(d, at)|;
    SpikeFits(AllSizes(d), at, x);
    SpikeFits(AllSizes(d), at, y);
    a, b := Spike(AllSizes(d), at, x), Spike(AllSizes(d), at, y);
    assert a[at] != b[at];
    EqualCoords(d, a, b);
    forall i | 0 <= i < Count(d) ensures SameCoordAt(d, a, b, i) {
      assert i != at ==> a[i] == b[i];
    }
  }

  /** Zero everywhere but at one place. */
  function Spike(sizes: seq<nat>, at: nat, x: nat): seq<nat> {
    seq(|sizes|, i requires 0 <= i < |sizes| => if i == at then x else 0)
  }

  lemma SpikeFits(sizes: seq<nat>, at: nat, x: nat)
    requires at < |sizes| && x < sizes[at] && forall i {:trigger sizes[i]} :: 0 <= i < |sizes| ==> sizes[i] > 0
    ensures Fits(Spike(sizes, at, x), sizes)
  {
  }

  lemma AllPositive(d: Plan)
    requires SoundAxes(Coordinates(d)) && SweepsShaped(Rest(d))
    ensures forall i {:trigger AllSizes(d)[i]} :: 0 <= i < |AllSizes(d)| ==> AllSizes(d)[i] > 0
  {
    forall i | 0 <= i < |AllSizes(d)| ensures AllSizes(d)[i] > 0 {
      if i < |Coordinates(d)| {
        assert Coordinates(d)[i].keys != [];
      } else {
        assert SweepShape(Found(SweepKind, Rest(d), [])[i - |Coordinates(d)|].node);
      }
    }
  }

  /** No two points with the same coordinates. */
  predicate CoordsTellApart(d: Plan)
    requires RefsFit(Refs(d), Sizes(Coordinates(d)))
  {
    CoordsDiffer(AllPoints(d))
  }

  /** Pairwise different coordinates. */
  predicate CoordsDiffer(points: seq<Point>) {
    forall j, k {:trigger points[j], points[k]} :: 0 <= j < k < |points| ==> points[j].coords != points[k].coords
  }

  lemma TwoAlike(points: seq<Point>, j: nat, k: nat)
    requires j < |points| && k < |points| && j != k && points[j].coords == points[k].coords
    ensures !CoordsDiffer(points)
  {
    var first, second := if j < k then j else k, if j < k then k else j;
    assert points[first].coords == points[second].coords;
  }

  lemma CoordsOfPoint(d: Plan, k: nat)
    requires WellParsed(d) && k < |AllPoints(d)|
    ensures k < ProductOf(AllSizes(d)) && Fits(Digits(AllSizes(d), k), AllSizes(d))
    ensures AllPoints(d)[k].coords == CoordsOf(d, Digits(AllSizes(d), k))
  {
    LengthIs(d);
    PointsInOrder(d, k);
    DigitsRank(AllSizes(d), k);
    CoordsAreDict(d, Digits(AllSizes(d), k));
  }

  /** Where no later label overwrites it, a coordinate is under its label, with the value the combination picks. */
  lemma CoordinateAt(d: Plan, combo: seq<nat>, i: nat)
    requires Fits(combo, AllSizes(d)) && i < Count(d) && !Overwritten(d, i)
    ensures i < |combo| && combo[i] < |ColumnAt(d, i)|
    ensures LabelAt(d, i) in CoordsOf(d, combo) && CoordsOf(d, combo)[LabelAt(d, i)] == ColumnAt(d, i)[combo[i]]
  {
    EntryIs(d, combo, i);
    ShadowedIsOverwritten(d, combo, i);
    DictAt(EntriesOf(d, combo), Count(d), i);
  }

  /** The point belongs to a combination, which is one of the axes' entries and one of the sweeps' values. */
  ghost predicate Belongs(d: Plan, p: Point, combo: seq<nat>, outer: seq<nat>, inner: seq<nat>) {
    && RefsFit(Refs(d), Sizes(Coordinates(d)))
    && Fits(outer, Sizes(Coordinates(d))) && Fits(inner, InnerSizes(d)) && combo == outer + inner
    && Fits(combo, AllSizes(d)) && p.coords == CoordsOf(d, combo) && p == PointAt(d, outer, inner)
  }

  lemma SplitBelongs(d: Plan, p: Point, combo: seq<nat>, outer: seq<nat>, inner: seq<nat>, n: nat)
    requires RefsFit(Refs(d), Sizes(Coordinates(d))) && Fits(combo, AllSizes(d)) && n == |Coordinates(d)| <= |combo|
    requires outer == combo[..n] && inner == combo[n..]
    requires Fits(outer, Sizes(Coordinates(d))) && Fits(inner, InnerSizes(d)) && p == PointAt(d, outer, inner)
    requires p.coords == CoordsOf(d, combo)
    ensures Belongs(d, p, combo, outer, inner)
  {
    SplitTogether(combo, n);
  }

  lemma SplitTogether<T>(s: seq<T>, n: nat)
    requires n <= |s|
    ensures s == s[..n] + s[n..]
  {
  }

  lemma PointBelongs(d: Plan, k: nat) returns (combo: seq<nat>, outer: seq<nat>, inner: seq<nat>)
    requires WellParsed(d) && k < |AllPoints(d)|
    ensures Belongs(d, AllPoints(d)[k], combo, outer, inner)
  {
    CoordsOfPoint(d, k);
    LengthIs(d);
    PointsInOrder(d, k);
    var n := |Coordinates(d)|;
    combo := Digits(AllSizes(d), k);
    outer, inner := combo[..n], combo[n..];
    SplitBelongs(d, AllPoints(d)[k], combo, outer, inner, n);
  }

  /** Coordinate `at` is the i-th sweep's. */
  lemma SweepCoordinate(d: Plan, i: nat, at: nat)
    requires i < |Sweeps(d)| && at == |Coordinates(d)| + i
    ensures ColumnAt(d, at) == Values(Sweeps(d)[i].node) && LabelAt(d, at) == Dotted(Sweeps(d)[i].path)
  {
  }

  lemma PickedLast(combo: seq<nat>, outer: seq<nat>, inner: seq<nat>, i: nat, at: nat)
    requires combo == outer + inner && i < |inner| && at == |outer| + i
    ensures combo[at] == inner[i]
  {
  }

  /** The coordinate under a sweep's label is the value that stands in its place. */
  predicate Shows(p: Point, sweep: Spot) {
    Dotted(sweep.path) in p.coords && Get(p.raw, sweep.path) == Some(p.coords[Dotted(sweep.path)])
  }

  lemma ShowsCoordinate(d: Plan, combo: seq<nat>, outer: seq<nat>, inner: seq<nat>, p: Point, i: nat, at: nat)
    requires WellParsed(d) && Belongs(d, p, combo, outer, inner) && i < |Sweeps(d)|
    requires at == |Coordinates(d)| + i && !Overwritten(d, at)
    ensures Shows(p, Sweeps(d)[i])
  {
    SweepInPoint(d, outer, inner, i);
    CoordinateAt(d, combo, at);
    SweepCoordinate(d, i, at);
    PickedLast(combo, outer, inner, i, at);
  }

  /**
   A point says what is in it: the value that stands in a sweep's place is the sweep's coordinate, unless a later label
   overwrites that.
   */
  lemma PointShowsCoordinates(d: Plan, k: nat, i: nat, at: nat)
    requires WellParsed(d) && k < |AllPoints(d)| && i < |Sweeps(d)|
    requires at == |Coordinates(d)| + i && !Overwritten(d, at)
    ensures Shows(AllPoints(d)[k], Sweeps(d)[i])
  {
    var combo, outer, inner := PointBelongs(d, k);
    ShowsCoordinate(d, combo, outer, inner, AllPoints(d)[k], i, at);
  }

  /** The outer dictionary overlaid with the inner one is the dictionary of all entries. */
  lemma CoordsAreDict(d: Plan, combo: seq<nat>)
    requires Fits(combo, AllSizes(d))
    ensures var n := |Coordinates(d)|;
            && Fits(combo[..n], Sizes(Coordinates(d))) && Fits(combo[n..], InnerSizes(d))
            && CoordsOf(d, combo)
            == Dict(OuterEntries(Coordinates(d), combo[..n]), n)
              + Dict(InnerEntries(Sweeps(d), combo[n..]), |Sweeps(d)|)
  {
    SplitFits(combo, Sizes(Coordinates(d)), InnerSizes(d));
    var n := |Coordinates(d)|;
    DictTogether(OuterEntries(Coordinates(d), combo[..n]), InnerEntries(Sweeps(d), combo[n..]), n, |Sweeps(d)|);
  }

  lemma LengthIs(d: Plan)
    requires RefsFit(Refs(d), Sizes(Coordinates(d)))
    ensures |AllPoints(d)| == ProductOf(Sizes(Coordinates(d))) * ProductOf(InnerSizes(d)) == ProductOf(AllSizes(d))
  {
    BlocksAreUniform(d);
    ProductConcat(Sizes(Coordinates(d)), InnerSizes(d));
    UniformLength(Blocks(d), |Blocks(d)|, ProductOf(InnerSizes(d)));
  }

  /**
   The points have pairwise different coordinates if and only if every coordinate whose label a later one repeats has a
   single entry, and no other lists a value twice. The axes' own entries are checked for repeats; the values of a plain
   sweep are not, and neither is the dotted spelling of two paths.
   */
  lemma CoordinatesTellPointsApart(d: Plan)
    requires WellParsed(d)
    ensures CoordsTellApart(d) <==> LabelsSuffice(d)
  {
    LengthIs(d);
    if LabelsSuffice(d) {
      forall j, k | 0 <= j < k < |AllPoints(d)| ensures AllPoints(d)[j].coords != AllPoints(d)[k].coords {
        PointsDiffer(d, j, k);
      }
    } else {
      NotEnough(d);
    }
  }

  lemma PointsDiffer(d: Plan, j: nat, k: nat)
    requires WellParsed(d) && LabelsSuffice(d) && j < k < |AllPoints(d)|
    ensures AllPoints(d)[j].coords != AllPoints(d)[k].coords
  {
    CoordsOfPoint(d, j);
    CoordsOfPoint(d, k);
    DigitsRank(AllSizes(d), j);
    DigitsRank(AllSizes(d), k);
    DifferentCoords(d, Digits(AllSizes(d), j), Digits(AllSizes(d), k));
  }

  lemma NotEnough(d: Plan)
    requires WellParsed(d) && !LabelsSuffice(d)
    ensures !CoordsTellApart(d)
  {
    var i, x, y := RepeatingPlace(d);
    var a, b := RepeatedCoords(d, i, x, y);
    SameCoordsTwice(d, a, b);
  }

  /** A place where choosing differently makes no difference: overwritten later, or the same value twice. */
  lemma RepeatingPlace(d: Plan) returns (i: nat, x: nat, y: nat)
    requires SoundAxes(Coordinates(d)) && SweepsShaped(Rest(d)) && !LabelsSuffice(d)
    ensures i < Count(d) && x < y < |ColumnAt(d, i)|
    ensures Overwritten(d, i) || ColumnAt(d, i)[x] == ColumnAt(d, i)[y]
  {
    i :| 0 <= i < Count(d) && !(if Overwritten(d, i) then |ColumnAt(d, i)| == 1 else AllDistinct(ColumnAt(d, i)));
    ColumnNotEmpty(d, i);
    x, y := RepeatedIn(ColumnAt(d, i), Overwritten(d, i));
  }

  lemma ColumnNotEmpty(d: Plan, i: nat)
    requires SoundAxes(Coordinates(d)) && SweepsShaped(Rest(d)) && i < Count(d)
    ensures |ColumnAt(d, i)| > 0
  {
    AllPositive(d);
    assert AllSizes(d)[i] == |ColumnAt(d, i)|;
  }

  lemma RepeatedIn(column: seq<Json>, overwritten: bool) returns (x: nat, y: nat)
    requires |column| > 0 && !(if overwritten then |column| == 1 else AllDistinct(column))
    ensures x < y < |column| && (overwritten || column[x] == column[y])
  {
    x, y := 0, 1;
    if !overwritten {
      x, y :| 0 <= x < y < |column| && EqualAt(column, x, y);
    }
  }

  lemma PointNumbered(d: Plan, combo: seq<nat>) returns (k: nat)
    requires WellParsed(d) && Fits(combo, AllSizes(d))
    ensures k == Rank(combo, AllSizes(d)) < |AllPoints(d)| && AllPoints(d)[k].coords == CoordsOf(d, combo)
  {
    LengthIs(d);
    RankDigits(combo, AllSizes(d));
    k := Rank(combo, AllSizes(d));
    CoordsOfPoint(d, k);
  }

  lemma SameCoordsTwice(d: Plan, a: seq<nat>, b: seq<nat>)
    requires WellParsed(d) && Fits(a, AllSizes(d)) && Fits(b, AllSizes(d)) && a != b && CoordsOf(d, a) == CoordsOf(d, b)
    ensures !CoordsTellApart(d)
  {
    var j := PointNumbered(d, a);
    var k := PointNumbered(d, b);
    DifferentRanks(AllSizes(d), a, b);
    TwoAlike(AllPoints(d), j, k);
  }

  /** Points come in lexicographic order of their combinations. */
  lemma PointsAreLexicographic(d: Plan, j: nat, k: nat)
    requires WellParsed(d) && j < |AllPoints(d)| && k < |AllPoints(d)|
    ensures j < ProductOf(AllSizes(d)) && k < ProductOf(AllSizes(d))
    ensures j < k <==> LexLess(Digits(AllSizes(d), j), Digits(AllSizes(d), k))
  {
    LengthIs(d);
    DigitsRank(AllSizes(d), j);
    DigitsRank(AllSizes(d), k);
    RankIsLexicographic(Digits(AllSizes(d), j), Digits(AllSizes(d), k), AllSizes(d));
  }
}
