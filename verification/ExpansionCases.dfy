/** Documents at which expansion falls short: labels that meet, values that repeat, and an axis called `axis`. */
module ExpansionCases {
  import opened Axes
  import opened Combos
  import opened Expansion
  import opened Labels
  import opened Trees
  import opened Wrappers

  // ---------------------------------------------------------------- a document with one axis and two sweeps

  function One(key: string, value: Json): Json {
    Obj([(key, value)])
  }

  function Wrapper(name: string): Json {
    One("axis", Scalar(name))
  }

  /** Two positions, `q` with a swept index, and one called `q.index`, swept as a whole. */
  function Positions(first: seq<Json>, second: seq<Json>): Json {
    Two("q", One("index", SweepOver(first)), "q.index", SweepOver(second))
  }

  function Axis(name: string, values: seq<Json>): NamedAxis {
    NamedAxis(name, values, map[None := values], None)
  }

  /** The block declares one axis over listed values, and the model's dtype follows it. */
  function Document(name: string, values: seq<Json>, first: seq<Json>, second: seq<Json>): Plan {
    Plan(One(name, One("values", Arr(values))),
         [("model", One("dtype", Wrapper(name))), ("method", One("positions", Positions(first, second)))],
         [Axis(name, values)])
  }

  predicate Numbers(values: seq<Json>) {
    values != [] && forall i {:trigger values[i]} :: 0 <= i < |values| ==> values[i].Scalar?
  }

  // ---------------------------------------------------------------- what is found in it

  lemma OneKid(kind: Kind, key: string, value: Json, path: Path)
    requires key != "axis" && key != "sweep"
    ensures !IsAxis(One(key, value)) && !IsSweep(One(key, value))
    ensures Found(kind, One(key, value), path) == Found(kind, value, path + [key])
    ensures Plain(One(key, value)) <==> Plain(value)
    ensures UniqueKeys(One(key, value)) <==> UniqueKeys(value)
    ensures ListsClean(kind, One(key, value)) <==> ListsClean(kind, value)
  {
    var n := One(key, value);
    assert Kid(n, 0) == value && Step(n, path, 0) == path + [key];
    var kids := FoundKids(kind, n, path);
    assert Concat(kids, 0) == [] && kids[0] == Found(kind, value, path + [key]);
    assert Concat(kids, 1) == kids[0];
  }

  function Two(key: string, value: Json, other: string, second: Json): Json {
    Obj([(key, value), (other, second)])
  }

  lemma KidsOfTwo(key: string, value: Json, other: string, second: Json, path: Path)
    ensures var n := Two(key, value, other, second);
            && Width(n) == 2 && Kid(n, 0) == value && Kid(n, 1) == second
            && Step(n, path, 0) == path + [key] && Step(n, path, 1) == path + [other]
  {
  }

  lemma TwoIsNoWrapper(key: string, value: Json, other: string, second: Json)
    requires key != "sweep" && other != "sweep"
    ensures !IsAxis(Two(key, value, other, second)) && !IsSweep(Two(key, value, other, second))
  {
  }

  lemma TwoFound(kind: Kind, key: string, value: Json, other: string, second: Json, path: Path)
    requires key != "sweep" && other != "sweep"
    ensures Found(kind, Two(key, value, other, second), path)
         == Found(kind, value, path + [key]) + Found(kind, second, path + [other])
  {
    var n := Two(key, value, other, second);
    TwoIsNoWrapper(key, value, other, second);
    KidsOfTwo(key, value, other, second, path);
    var kids := FoundKids(kind, n, path);
    assert kids[0] == Found(kind, value, path + [key]) && kids[1] == Found(kind, second, path + [other]);
    ConcatTwo(kids);
  }

  lemma ConcatTwo<T>(groups: seq<seq<T>>)
    requires |groups| == 2
    ensures Concat(groups, 2) == groups[0] + groups[1]
  {
    assert Concat(groups, 0) == [] && Concat(groups, 1) == groups[0];
  }

  lemma TwoPlain(key: string, value: Json, other: string, second: Json)
    requires key != "sweep" && other != "sweep" && Plain(value) && Plain(second)
    ensures Plain(Two(key, value, other, second))
  {
    TwoIsNoWrapper(key, value, other, second);
    KidsOfTwo(key, value, other, second, []);
  }

  lemma TwoUnique(key: string, value: Json, other: string, second: Json)
    requires key != other && UniqueKeys(value) && UniqueKeys(second)
    ensures UniqueKeys(Two(key, value, other, second))
  {
    KidsOfTwo(key, value, other, second, []);
  }

  lemma TwoClean(kind: Kind, key: string, value: Json, other: string, second: Json)
    requires ListsClean(kind, value) && ListsClean(kind, second)
    ensures ListsClean(kind, Two(key, value, other, second))
  {
    KidsOfTwo(key, value, other, second, []);
  }

  lemma TwoKids(kind: Kind, key: string, value: Json, other: string, second: Json, path: Path)
    requires key != "sweep" && other != "sweep" && key != other
    requires Plain(value) && Plain(second) && UniqueKeys(value) && UniqueKeys(second)
    requires ListsClean(kind, value) && ListsClean(kind, second)
    ensures var n := Two(key, value, other, second);
            && Found(kind, n, path) == Found(kind, value, path + [key]) + Found(kind, second, path + [other])
            && !IsAxis(n) && !IsSweep(n) && Plain(n) && UniqueKeys(n) && ListsClean(kind, n)
  {
    TwoIsNoWrapper(key, value, other, second);
    TwoFound(kind, key, value, other, second, path);
    TwoPlain(key, value, other, second);
    TwoUnique(key, value, other, second);
    TwoClean(kind, key, value, other, second);
  }

  lemma ScalarIsPlain(n: Json)
    requires n.Scalar?
    ensures !HasWrapper(AxisKind, n) && !HasWrapper(SweepKind, n) && UniqueKeys(n) && Plain(n)
  {
  }

  lemma NumbersArePlain(values: seq<Json>)
    requires Numbers(values)
    ensures PlainValues(values) && UniqueKeys(Arr(values))
    ensures !HasWrapper(AxisKind, Arr(values)) && !HasWrapper(SweepKind, Arr(values))
  {
    forall i | 0 <= i < |values|
      ensures !HasWrapper(AxisKind, values[i]) && !HasWrapper(SweepKind, values[i]) && UniqueKeys(values[i])
    {
      ScalarIsPlain(values[i]);
    }
    assert forall i {:trigger Kid(Arr(values), i)} :: 0 <= i < |values| ==> Kid(Arr(values), i) == values[i];
  }

  lemma SweepLeaf(kind: Kind, values: seq<Json>, path: Path)
    requires Numbers(values)
    ensures Found(kind, SweepOver(values), path) == if kind.SweepKind? then [Spot(path, SweepOver(values))] else []
    ensures Plain(SweepOver(values)) && UniqueKeys(SweepOver(values)) && ListsClean(kind, SweepOver(values))
    ensures SweepShape(SweepOver(values)) && Values(SweepOver(values)) == values
  {
    NumbersArePlain(values);
    SweepOverIs(values);
    var n := SweepOver(values);
    assert Kid(n, 0) == Arr(values);
    if kind.AxisKind? {
      NothingToReplace(AxisKind, n, map[], path);
    }
  }

  lemma AxisLeaf(kind: Kind, name: string, path: Path)
    ensures Found(kind, Wrapper(name), path) == if kind.AxisKind? then [Spot(path, Wrapper(name))] else []
    ensures Plain(Wrapper(name)) && UniqueKeys(Wrapper(name)) && ListsClean(kind, Wrapper(name))
              && IsAxis(Wrapper(name))
  {
    var n := Wrapper(name);
    ScalarIsPlain(Scalar(name));
    assert Kid(n, 0) == Scalar(name) && !IsSweep(n);
    if kind.SweepKind? {
      NothingToReplace(SweepKind, n, map[], path);
    }
  }

  const AT_DTYPE: Path := ["model", "dtype"]
  const AT_FIELD: Path := ["method", "positions", "q", "index"]
  const AT_NAME: Path := ["method", "positions", "q.index"]

  lemma InFirstPosition(kind: Kind, first: seq<Json>, path: Path)
    requires Numbers(first) && path == ["method", "positions"]
    ensures var n := One("index", SweepOver(first));
            && Found(kind, n, path + ["q"]) == (if kind.SweepKind? then [Spot(AT_FIELD, SweepOver(first))] else [])
            && Plain(n) && UniqueKeys(n) && ListsClean(kind, n)
  {
    assert path + ["q"] + ["index"] == AT_FIELD;
    SweepLeaf(kind, first, AT_FIELD);
    OneKid(kind, "index", SweepOver(first), path + ["q"]);
  }

  lemma InPositions(kind: Kind, first: seq<Json>, second: seq<Json>, path: Path)
    requires Numbers(first) && Numbers(second) && path == ["method", "positions"]
    ensures var n := Positions(first, second);
            && Found(kind, n, path)
               == (if kind.SweepKind? then [Spot(AT_FIELD, SweepOver(first)), Spot(AT_NAME, SweepOver(second))] else [])
            && Plain(n) && UniqueKeys(n) && ListsClean(kind, n)
  {
    assert path + ["q.index"] == AT_NAME;
    InFirstPosition(kind, first, path);
    SweepLeaf(kind, second, AT_NAME);
    TwoKids(kind, "q", One("index", SweepOver(first)), "q.index", SweepOver(second), path);
  }

  lemma InDocument(kind: Kind, d: Plan, name: string, values: seq<Json>, first: seq<Json>, second: seq<Json>)
    requires Numbers(first) && Numbers(second) && d == Document(name, values, first, second)
    ensures Found(kind, Rest(d), [])
         == if kind.AxisKind? then [Spot(AT_DTYPE, Wrapper(name))]
            else [Spot(AT_FIELD, SweepOver(first)), Spot(AT_NAME, SweepOver(second))]
    ensures !IsAxis(Rest(d)) && Plain(Rest(d)) && UniqueKeys(Rest(d)) && ListsClean(kind, Rest(d))
  {
    InModel(kind, name, ["model"]);
    InMethod(kind, first, second, ["method"]);
    var none: Path := [];
    assert none + ["model"] == ["model"] && none + ["method"] == ["method"];
    TwoKids(kind, "model", One("dtype", Wrapper(name)), "method", One("positions", Positions(first, second)), []);
  }

  lemma InModel(kind: Kind, name: string, path: Path)
    requires path == ["model"]
    ensures var n := One("dtype", Wrapper(name));
            && Found(kind, n, path) == (if kind.AxisKind? then [Spot(AT_DTYPE, Wrapper(name))] else [])
            && Plain(n) && UniqueKeys(n) && ListsClean(kind, n)
  {
    AxisLeaf(kind, name, AT_DTYPE);
    assert path + ["dtype"] == AT_DTYPE;
    OneKid(kind, "dtype", Wrapper(name), path);
  }

  lemma InMethod(kind: Kind, first: seq<Json>, second: seq<Json>, path: Path)
    requires Numbers(first) && Numbers(second) && path == ["method"]
    ensures var n := One("positions", Positions(first, second));
            && Found(kind, n, path)
               == (if kind.SweepKind? then [Spot(AT_FIELD, SweepOver(first)), Spot(AT_NAME, SweepOver(second))] else [])
            && Plain(n) && UniqueKeys(n) && ListsClean(kind, n)
  {
    assert path + ["positions"] == ["method", "positions"];
    InPositions(kind, first, second, ["method", "positions"]);
    OneKid(kind, "positions", Positions(first, second), path);
  }

  lemma OneDeclared(d: Plan, name: string, values: seq<Json>)
    requires Numbers(values) && AllDistinct(values) && d.named == [Axis(name, values)]
    requires References(d) == [Reference(AT_DTYPE, name, None)]
    ensures Declared(d) && Coordinates(d) == [Axis(name, values)]
  {
    NumbersArePlain(values);
    assert Independent(d.named, 0) == [];
    assert d.named[0].name == name && None in d.named[0].columns;
    assert NamesColumn(d.named, References(d)[0]);
  }

  lemma DocumentIsDeclared(d: Plan, name: string, values: seq<Json>, first: seq<Json>, second: seq<Json>)
    requires Numbers(values) && AllDistinct(values) && Numbers(first) && Numbers(second) && '.' !in name
    requires d == Document(name, values, first, second)
    ensures Declared(d) && Coordinates(d) == [Axis(name, values)]
  {
    InDocument(AxisKind, d, name, values, first, second);
    OneReference(d, name);
    OneDeclared(d, name, values);
  }

  /** The one wrapper refers to the axis as a whole. */
  lemma OneReference(d: Plan, name: string)
    requires Found(AxisKind, Rest(d), []) == [Spot(AT_DTYPE, Wrapper(name))] && '.' !in name
    ensures References(d) == [Reference(AT_DTYPE, name, None)]
  {
    NoDot(name);
  }

  lemma DocumentSweeps(d: Plan, name: string, values: seq<Json>, first: seq<Json>, second: seq<Json>)
    requires Numbers(first) && Numbers(second) && d == Document(name, values, first, second)
    ensures Sweeps(d) == [Spot(AT_FIELD, SweepOver(first)), Spot(AT_NAME, SweepOver(second))]
    ensures SweepsShaped(Rest(d))
  {
    InDocument(SweepKind, d, name, values, first, second);
    SweepLeaf(SweepKind, first, AT_FIELD);
    SweepLeaf(SweepKind, second, AT_NAME);
    TwoShaped(Found(SweepKind, Rest(d), []), Spot(AT_FIELD, SweepOver(first)), Spot(AT_NAME, SweepOver(second)));
  }

  /** The document is one that parsing accepts. */
  lemma DocumentIsParsed(d: Plan, name: string, values: seq<Json>, first: seq<Json>, second: seq<Json>)
    requires Numbers(values) && AllDistinct(values) && Numbers(first) && Numbers(second) && '.' !in name
    requires d == Document(name, values, first, second)
    ensures WellParsed(d) && BlockApart(d) && Coordinates(d) == [Axis(name, values)]
    ensures Sweeps(d) == [Spot(AT_FIELD, SweepOver(first)), Spot(AT_NAME, SweepOver(second))]
  {
    InDocument(AxisKind, d, name, values, first, second);
    InDocument(SweepKind, d, name, values, first, second);
    DocumentSweeps(d, name, values, first, second);
    DocumentIsDeclared(d, name, values, first, second);
    DeclaredFits(d);
  }

  lemma TwoShaped(spots: seq<Spot>, x: Spot, y: Spot)
    requires spots == [x, y] && SweepShape(x.node) && SweepShape(y.node)
    ensures forall i {:trigger spots[i]} :: 0 <= i < |spots| ==> SweepShape(spots[i].node)
  {
  }

  // ---------------------------------------------------------------- coordinates that do not tell points apart

  /** A name with a dot joins like the two names around it. */
  lemma JoinsAlike(a: string, b: string, c: string, dotted: string)
    requires dotted == b + "." + c
    ensures JoinDots([a, b, c]) == JoinDots([a, dotted])
  {
    assert [a, b, c][..2] == [a, b] && [a, b][..1] == [a] && [a, dotted][..1] == [a];
    assert JoinDots([a, b]) == a + "." + b;
    assert a + "." + b + "." + c == a + "." + (b + "." + c);
  }

  lemma {:induction false} NoBracket(s: string)
    requires '[' !in s
    ensures UpToBracket(s) == s
  {
    if s != "" {
      NoBracket(s[1..]);
      assert s == [s[0]] + s[1..];
    }
  }

  /** Below the method group a section is the first part of the label. */
  lemma SectionLabel(section: string, path: Path, rest: seq<string>)
    requires section in METHOD_SECTIONS && '[' !in section && path == ["method", section] + rest
    ensures Dotted(path) == JoinDots([section] + rest)
  {
    NoBracket(section);
    assert path[1..] == [section] + rest;
  }

  /** Below a section, a field of an entry is labelled like an entry whose name holds the dot. */
  lemma LabelsAlike(section: string, name: string, field: string, dotted: string, x: Path, y: Path)
    requires section in METHOD_SECTIONS && '[' !in section && dotted == name + "." + field
    requires x == ["method", section, name, field] && y == ["method", section, dotted]
    ensures Dotted(x) == Dotted(y)
  {
    assert [section] + [name, field] == [section, name, field] && [section] + [dotted] == [section, dotted];
    SectionLabel(section, x, [name, field]);
    SectionLabel(section, y, [dotted]);
    JoinsAlike(section, name, field, dotted);
  }

  lemma PositionsIsSection()
    ensures "positions" in METHOD_SECTIONS && '[' !in "positions"
  {
    assert METHOD_SECTIONS[1] == "positions";
  }

  lemma NameWithDot()
    ensures "q.index" == "q" + "." + "index"
  {
  }

  /** Both sweeps are labelled `positions.q.index`. */
  lemma OneLabel()
    ensures Dotted(AT_FIELD) == Dotted(AT_NAME)
  {
    PositionsIsSection();
    NameWithDot();
    LabelsAlike("positions", "q", "index", "q.index", AT_FIELD, AT_NAME);
  }

  /** The second sweep overwrites the first one's coordinate: two points of the first share all coordinates. */
  lemma LabelsMeet(x: Json, y: Json, d: Plan)
    requires x.Scalar? && y.Scalar? && x != y && d == Document("a", [x], [x, y], [x, y])
    ensures WellParsed(d) && !CoordsTellApart(d)
  {
    assert AllDistinct([x]) && Numbers([x]) && Numbers([x, y]);
    DocumentIsParsed(d, "a", [x], [x, y], [x, y]);
    OneLabel();
    SweepLeaf(SweepKind, [x, y], AT_FIELD);
    assert LabelAt(d, 2) == LabelAt(d, 1) && ColumnAt(d, 1) == [x, y];
    assert Overwritten(d, 1);
    CoordinatesTellPointsApart(d);
  }

  /** A sweep that lists a value twice gives two points the same coordinates. */
  lemma ValueRepeats(x: Json, d: Plan)
    requires x.Scalar? && d == Document("a", [x], [x], [x, x])
    ensures WellParsed(d) && !CoordsTellApart(d)
  {
    assert AllDistinct([x]) && Numbers([x]) && Numbers([x, x]);
    DocumentIsParsed(d, "a", [x], [x], [x, x]);
    SweepLeaf(SweepKind, [x, x], AT_NAME);
    assert ColumnAt(d, 2) == [x, x] && EqualAt([x, x], 0, 1);
    assert !Overwritten(d, 2);
    CoordinatesTellPointsApart(d);
  }

  // ---------------------------------------------------------------- an axis called `axis`

  /**
   Its block is a mapping with the single key `axis`, so substituting over the whole document finds no value for it.
   */
  lemma AxisCalledAxis(x: Json, d: Plan, combo: seq<nat>)
    requires x.Scalar? && d == Document("axis", [x], [x], [x]) && Fits(combo, Sizes(Coordinates(d)))
    ensures WellParsed(d) && BlockApart(d)
    ensures !Covered(AxisKind, Source(d), Row(d, combo), [])
  {
    assert AllDistinct([x]) && Numbers([x]);
    DocumentIsParsed(d, "axis", [x], [x], [x]);
    assert IsAxis(d.block);
    SourceIsCovered(d, combo);
  }
}
