/**
 Edit groups of a counterfactual pair: parsing the declared spans, and the all-or-none check that a run addresses a
 coordinated edit wholly or not at all.
 */
module EditGroups {
  import opened TokenPositions
  import opened Wrappers

  type CharSpan = (int, int)

  /** The spans of constituent k are base[k] and counterfactual[k]. */
  datatype EditGroup = EditGroup(name: string, atomic: bool, base: seq<CharSpan>, counterfactual: seq<CharSpan>)

  /** One side's spans as the column holds them: None where an entry is not a pair of integers, or not a list. */
  type RawSpans = Option<seq<Option<CharSpan>>>

  /** A group as the column holds it; None where a field is of the wrong type, or the sides are not the two expected. */
  datatype RawGroup = RawGroup(hasExactKeys: bool, name: Option<string>, atomic: Option<bool>,
                               sides: Option<(RawSpans, RawSpans)>)

  /** The column: missing, not a list, or a list whose items may not be objects. */
  datatype RawColumn = Missing | NotAList | Items(items: seq<Option<RawGroup>>)

  // ---------------------------------------------------------------- what is accepted

  predicate InText(span: CharSpan, length: nat) {
    0 <= span.0 <= span.1 <= length
  }

  /** Spans inside the text, each starting no earlier than the one before it ends. */
  predicate SideSpans(spans: seq<CharSpan>, length: nat) {
    && (forall k {:trigger spans[k]} :: 0 <= k < |spans| ==> InText(spans[k], length))
    && (forall k {:trigger spans[k]} :: 0 < k < |spans| ==> spans[k - 1].1 <= spans[k].0)
  }

  /** From the beginning of the text, where each span begins and ends. */
  function Walked(spans: seq<CharSpan>): (r: seq<int>)
    ensures |r| > 0
  {
    if spans == [] then [0]
    else Walked(spans[..|spans| - 1]) + [spans[|spans| - 1].0] + [spans[|spans| - 1].1]
  }

  /** And on to the end of the text. */
  function Edges(spans: seq<CharSpan>, length: nat): seq<int> {
    Walked(spans) + [length]
  }

  predicate NeverFalls(s: seq<int>) {
    forall i {:trigger s[i]} :: 1 <= i < |s| ==> s[i - 1] <= s[i]
  }

  lemma NeverFallsSnoc(s: seq<int>, x: int)
    requires s != []
    ensures NeverFalls(s + [x]) <==> NeverFalls(s) && s[|s| - 1] <= x
  {
    var longer := s + [x];
    if NeverFalls(longer) {
      forall i | 1 <= i < |s| ensures s[i - 1] <= s[i] {
        assert longer[i - 1] <= longer[i];
      }
      assert longer[|s| - 1] <= longer[|s|];
    }
  }

  lemma SideUnfolds(spans: seq<CharSpan>, length: nat, front: seq<CharSpan>, span: CharSpan)
    requires spans == front + [span]
    ensures SideSpans(spans, length) <==>
              SideSpans(front, length) && InText(span, length) && (front != [] ==> front[|front| - 1].1 <= span.0)
  {
    if SideSpans(spans, length) {
      forall k | 0 <= k < |front| ensures InText(front[k], length) && (k > 0 ==> front[k - 1].1 <= front[k].0) {
        assert spans[k] == front[k] && (k > 0 ==> spans[k - 1] == front[k - 1]);
      }
      assert spans[|front|] == span && (front != [] ==> spans[|front| - 1] == front[|front| - 1]);
    }
  }

  lemma {:induction false} SideIsWalked(spans: seq<CharSpan>, length: nat)
    ensures var walked := Walked(spans);
            && walked[|walked| - 1] == (if spans == [] then 0 else spans[|spans| - 1].1)
            && (SideSpans(spans, length) <==> NeverFalls(walked) && walked[|walked| - 1] <= length)
  {
    if spans != [] {
      var front, span := spans[..|spans| - 1], spans[|spans| - 1];
      FrontAndLast(spans);
      SideIsWalked(front, length);
      WalkOneMore(spans, length, front, span, Walked(front));
    }
  }

  lemma WalkOneMore(spans: seq<CharSpan>, length: nat, front: seq<CharSpan>, span: CharSpan, walked: seq<int>)
    requires spans == front + [span] && walked != []
    requires walked[|walked| - 1] == if front == [] then 0 else front[|front| - 1].1
    requires SideSpans(front, length) <==> NeverFalls(walked) && walked[|walked| - 1] <= length
    ensures SideSpans(spans, length) <==> NeverFalls(walked + [span.0] + [span.1]) && span.1 <= length
  {
    SideUnfolds(spans, length, front, span);
    NeverFallsSnoc(walked, span.0);
    NeverFallsSnoc(walked + [span.0], span.1);
    assert SideSpans(front, length) && front != [] ==> InText(front[|front| - 1], length);
  }

  /** A side is accepted exactly when walking through its spans never goes back and stays inside the text. */
  lemma SideSpansAscend(spans: seq<CharSpan>, length: nat)
    ensures SideSpans(spans, length) <==> NeverFalls(Edges(spans, length))
  {
    SideIsWalked(spans, length);
    NeverFallsSnoc(Walked(spans), length);
  }

  /** What a group must be: named, alike on both sides, of one constituent at least and two when it is atomic. */
  lemma ValidGroupMeans(g: EditGroup, baseLength: nat, counterfactualLength: nat)
    ensures ValidGroup(g, baseLength, counterfactualLength) <==>
              && |g.name| > 0 && |g.base| == |g.counterfactual| > 0 && (g.atomic ==> |g.base| > 1)
              && NeverFalls(Edges(g.base, baseLength))
              && NeverFalls(Edges(g.counterfactual, counterfactualLength))
  {
    SideSpansAscend(g.base, baseLength);
    SideSpansAscend(g.counterfactual, counterfactualLength);
  }

  predicate ValidGroup(g: EditGroup, baseLength: nat, counterfactualLength: nat) {
    && g.name != "" && SideSpans(g.base, baseLength) && SideSpans(g.counterfactual, counterfactualLength)
    && |g.base| == |g.counterfactual| && |g.base| >= (if g.atomic then 2 else 1)
  }

  predicate NamesDifferAt(groups: seq<EditGroup>, i: nat, j: nat)
    requires i < |groups| && j < |groups|
  {
    groups[i].name != groups[j].name
  }

  predicate ValidGroups(groups: seq<EditGroup>, baseLength: nat, counterfactualLength: nat) {
    && (forall i {:trigger groups[i]} :: 0 <= i < |groups| ==> ValidGroup(groups[i], baseLength, counterfactualLength))
    && (forall i, j {:trigger NamesDifferAt(groups, i, j)} :: 0 <= i < j < |groups| ==> NamesDifferAt(groups, i, j))
  }

  // ---------------------------------------------------------------- the column and back

  function RawSide(spans: seq<CharSpan>): RawSpans {
    Some(seq(|spans|, k requires 0 <= k < |spans| => Some(spans[k])))
  }

  function AsRowValue(g: EditGroup): RawGroup {
    RawGroup(true, Some(g.name), Some(g.atomic), Some((RawSide(g.base), RawSide(g.counterfactual))))
  }

  /** How a group is written: nothing but its four fields, each of the right type, span by span on either side. */
  lemma WrittenGroup(g: EditGroup)
    ensures var raw := AsRowValue(g);
            && raw.hasExactKeys && raw.name == Some(g.name) && raw.atomic == Some(g.atomic) && raw.sides.Some?
            && WrittenSide(raw.sides.value.0, g.base) && WrittenSide(raw.sides.value.1, g.counterfactual)
  {
  }

  predicate WrittenSide(raw: RawSpans, spans: seq<CharSpan>) {
    && raw.Some? && |raw.value| == |spans|
    && forall k {:trigger spans[k]} :: 0 <= k < |spans| ==> raw.value[k] == Some(spans[k])
  }

  function RowItems(groups: seq<EditGroup>): seq<Option<RawGroup>> {
    seq(|groups|, i requires 0 <= i < |groups| => Some(AsRowValue(groups[i])))
  }

  /** A malformed, outlying or overlapping entry: no spans in order are written like this. */
  lemma NoSuchSpans(raw: seq<Option<CharSpan>>, length: nat, k: nat, previousEnd: int)
    requires k < |raw| && (k > 0 ==> raw[k - 1].Some? && raw[k - 1].value.1 == previousEnd)
    requires raw[k] == None || !InText(raw[k].value, length) || (k > 0 && raw[k].value.0 < previousEnd)
    ensures forall s: seq<CharSpan> {:trigger RawSide(s)} :: Some(raw) == RawSide(s) ==> !SideSpans(s, length)
  {
    forall s: seq<CharSpan> {:trigger RawSide(s)} | Some(raw) == RawSide(s) ensures !SideSpans(s, length) {
      assert raw[k] == Some(s[k]);
      assert k > 0 ==> raw[k - 1] == Some(s[k - 1]);
    }
  }

  lemma SideOneMore(spans: seq<CharSpan>, span: CharSpan, length: nat)
    requires SideSpans(spans, length) && InText(span, length)
    requires spans != [] ==> spans[|spans| - 1].1 <= span.0
    ensures SideSpans(spans + [span], length)
  {
  }

  /** The first k entries have been read, and are spans in order inside the text. */
  predicate ReadSoFar(raw: seq<Option<CharSpan>>, read: seq<CharSpan>, k: nat, length: nat) {
    && |read| == k <= |raw| && SideSpans(read, length)
    && forall j {:trigger read[j]} :: 0 <= j < k ==> raw[j] == Some(read[j])
  }

  lemma ReadOneMore(raw: seq<Option<CharSpan>>, read: seq<CharSpan>, k: nat, length: nat, span: CharSpan)
    requires ReadSoFar(raw, read, k, length) && k < |raw| && raw[k] == Some(span) && InText(span, length)
    requires read != [] ==> read[|read| - 1].1 <= span.0
    ensures ReadSoFar(raw, read + [span], k + 1, length)
  {
    SideOneMore(read, span, length);
  }

  /** The entry that is read next refuses the side. */
  lemma RefusedNext(raw: seq<Option<CharSpan>>, read: seq<CharSpan>, k: nat, length: nat)
    requires ReadSoFar(raw, read, k, length) && k < |raw|
    requires raw[k] == None || !InText(raw[k].value, length) || (k > 0 && raw[k].value.0 < read[k - 1].1)
    ensures forall s: seq<CharSpan> {:trigger RawSide(s)} :: Some(raw) == RawSide(s) ==> !SideSpans(s, length)
  {
    NoSuchSpans(raw, length, k, if k == 0 then 0 else read[k - 1].1);
  }

  lemma WrittenLike(raw: seq<Option<CharSpan>>, spans: seq<CharSpan>)
    requires |raw| == |spans| && forall j {:trigger spans[j]} :: 0 <= j < |spans| ==> raw[j] == Some(spans[j])
    ensures RawSide(spans) == Some(raw)
  {
    SameElements(raw, RawSide(spans).value);
  }

  /** Span by span; the first that is malformed, outside the text or before its predecessor's end refuses the side. */
  method ParseSideSpans(raw: RawSpans, length: nat) returns (spans: Option<seq<CharSpan>>)
    ensures spans.Some? ==> raw == RawSide(spans.value) && SideSpans(spans.value, length)
    ensures spans == None ==> forall s: seq<CharSpan> {:trigger RawSide(s)} :: raw == RawSide(s) ==>
              !SideSpans(s, length)
  {
    if raw == None {
      return None;
    }
    var read: seq<CharSpan> := [];
    for k := 0 to |raw.value|
      invariant ReadSoFar(raw.value, read, k, length)
    {
      var pair := raw.value[k];
      if pair == None || !InText(pair.value, length) || (read != [] && pair.value.0 < read[|read| - 1].1) {
        RefusedNext(raw.value, read, k, length);
        return None;
      }
      ReadOneMore(raw.value, read, k, length, pair.value);
      read := read + [pair.value];
    }
    WrittenLike(raw.value, read);
    spans := Some(read);
  }

  /** What the checks of one item make of it, its name not among those seen. */
  method ParseGroup(item: Option<RawGroup>, baseLength: nat, counterfactualLength: nat) returns (g: Option<EditGroup>)
    ensures g.Some? ==> item == Some(AsRowValue(g.value)) && ValidGroup(g.value, baseLength, counterfactualLength)
    ensures g == None ==> forall other :: item == Some(AsRowValue(other)) ==>
              !ValidGroup(other, baseLength, counterfactualLength)
  {
    if item == None || !item.value.hasExactKeys || item.value.name == None || item.value.name.value == ""
      || item.value.atomic == None || item.value.sides == None
    {
      return None;
    }
    var raw := item.value;
    var base := ParseSideSpans(raw.sides.value.0, baseLength);
    if base == None {
      return None;
    }
    var counterfactual := ParseSideSpans(raw.sides.value.1, counterfactualLength);
    if counterfactual == None {
      return None;
    }
    var parsed := EditGroup(raw.name.value, raw.atomic.value, base.value, counterfactual.value);
    forall other | item == Some(AsRowValue(other)) ensures other == parsed {
      RawSideInjective(other.base, parsed.base);
      RawSideInjective(other.counterfactual, parsed.counterfactual);
    }
    if |base.value| != |counterfactual.value| || |base.value| == 0 || (parsed.atomic && |base.value| < 2) {
      return None;
    }
    g := Some(parsed);
  }

  lemma RawSideInjective(a: seq<CharSpan>, b: seq<CharSpan>)
    requires RawSide(a) == RawSide(b)
    ensures a == b
  {
    forall k | 0 <= k < |a| ensures a[k] == b[k] {
      assert RawSide(a).value[k] == Some(a[k]);
    }
  }

  lemma RowItemsInjective(a: seq<EditGroup>, b: seq<EditGroup>)
    requires RowItems(a) == RowItems(b)
    ensures a == b
  {
    forall i | 0 <= i < |a| ensures a[i] == b[i] {
      assert RowItems(a)[i] == Some(AsRowValue(a[i]));
      RawSideInjective(a[i].base, b[i].base);
      RawSideInjective(a[i].counterfactual, b[i].counterfactual);
    }
  }

  /**
   Parsing inverts writing: it accepts a list exactly when it is what some valid groups are written as, and returns
   those groups; a missing column declares none.
   */
  method ParseEditGroups(raw: RawColumn, baseLength: nat, counterfactualLength: nat) returns (r: Option<seq<EditGroup>>)
    ensures raw.Missing? ==> r == Some([])
    ensures raw.NotAList? ==> r == None
    ensures raw.Items? ==>
              forall groups {:trigger RowItems(groups)} ::
                r == Some(groups) <==>
                  raw.items == RowItems(groups) && ValidGroups(groups, baseLength, counterfactualLength)
  {
    match raw {
      case Missing => return Some([]);
      case NotAList => return None;
      case Items(items) =>
        var groups: seq<EditGroup> := [];
        var names: set<string> := {};
        for i := 0 to |items|
          invariant |groups| == i && ValidGroups(groups, baseLength, counterfactualLength)
          invariant forall k {:trigger groups[k]} :: 0 <= k < i ==> items[k] == Some(AsRowValue(groups[k]))
          invariant names == NamesOf(groups)
        {
          var g := ParseGroup(items[i], baseLength, counterfactualLength);
          if g == None {
            NoSuchGroups(items, baseLength, counterfactualLength, i);
            return None;
          }
          if g.value.name in names {
            RepeatedName(items, groups, g.value, i, baseLength, counterfactualLength);
            return None;
          }
          OneMoreGroup(groups, g.value, baseLength, counterfactualLength);
          groups, names := groups + [g.value], names + {g.value.name};
        }
        SameElements(items, RowItems(groups));
        forall other | items == RowItems(other) ensures other == groups {
          RowItemsInjective(other, groups);
        }
        return Some(groups);
    }
  }

  function NamesOf(groups: seq<EditGroup>): set<string> {
    set k | 0 <= k < |groups| :: groups[k].name
  }

  lemma OneMoreGroup(groups: seq<EditGroup>, g: EditGroup, baseLength: nat, counterfactualLength: nat)
    requires ValidGroups(groups, baseLength, counterfactualLength) && ValidGroup(g, baseLength, counterfactualLength)
    requires g.name !in NamesOf(groups)
    ensures ValidGroups(groups + [g], baseLength, counterfactualLength)
    ensures NamesOf(groups + [g]) == NamesOf(groups) + {g.name}
  {
    var more := groups + [g];
    forall i, j | 0 <= i < j < |more| ensures NamesDifferAt(more, i, j) {
      if j < |groups| {
        assert NamesDifferAt(groups, i, j);
      } else {
        assert groups[i].name in NamesOf(groups);
      }
    }
    assert more[|groups|].name in NamesOf(more);
    forall name | name in NamesOf(groups) ensures name in NamesOf(more) {
      var k :| 0 <= k < |groups| && groups[k].name == name;
      assert more[k].name in NamesOf(more);
    }
    forall name | name in NamesOf(more) ensures name in NamesOf(groups) || name == g.name {
      var k :| 0 <= k < |more| && more[k].name == name;
      if k < |groups| {
        assert groups[k].name in NamesOf(groups);
      }
    }
  }

  lemma NoSuchGroups(items: seq<Option<RawGroup>>, baseLength: nat, counterfactualLength: nat, i: nat)
    requires i < |items|
    requires forall g :: items[i] == Some(AsRowValue(g)) ==> !ValidGroup(g, baseLength, counterfactualLength)
    ensures forall groups {:trigger RowItems(groups)} :: items == RowItems(groups) ==>
              !ValidGroups(groups, baseLength, counterfactualLength)
  {
    forall groups {:trigger RowItems(groups)} | items == RowItems(groups)
      ensures !ValidGroups(groups, baseLength, counterfactualLength)
    {
      assert items[i] == Some(AsRowValue(groups[i]));
    }
  }

  lemma RepeatedName(items: seq<Option<RawGroup>>, read: seq<EditGroup>, g: EditGroup, i: nat,
                     baseLength: nat, counterfactualLength: nat)
    requires i < |items| && |read| == i && items[i] == Some(AsRowValue(g))
    requires forall k {:trigger read[k]} :: 0 <= k < i ==> items[k] == Some(AsRowValue(read[k]))
    requires exists k :: 0 <= k < i && read[k].name == g.name
    ensures forall groups {:trigger RowItems(groups)} :: items == RowItems(groups) ==>
              !ValidGroups(groups, baseLength, counterfactualLength)
  {
    var k :| 0 <= k < i && read[k].name == g.name;
    forall groups {:trigger RowItems(groups)} | items == RowItems(groups)
      ensures !ValidGroups(groups, baseLength, counterfactualLength)
    {
      assert items[i] == Some(AsRowValue(groups[i])) && items[k] == Some(AsRowValue(groups[k]));
      assert !NamesDifferAt(groups, k, i);
    }
  }

  /** Accepted spans are ordered and pairwise disjoint. */
  lemma {:induction false} SpansAreDisjoint(spans: seq<CharSpan>, length: nat, j: nat, k: nat)
    requires SideSpans(spans, length) && j < k < |spans|
    ensures spans[j].0 <= spans[j].1 <= spans[k].0 <= spans[k].1
    decreases k
  {
    assert InText(spans[j], length) && InText(spans[k], length);
    if j < k - 1 {
      SpansAreDisjoint(spans, length, j, k - 1);
      assert InText(spans[k - 1], length);
    }
  }

  // ---------------------------------------------------------------- characters to tokens

  /** A constituent's token run: the slots whose characters overlap the span, without a special case for empty spans. */
  function TokenRun(span: CharSpan, offsets: seq<Offset>): seq<int> {
    OverlapsFrom(offsets, span.0, span.1, 0)
  }

  /**
   The run is what a variable position over the same characters resolves to, except for an empty span inside a token:
   the run then holds that token, the position none.
   */
  lemma RunIsCharRange(span: CharSpan, offsets: seq<Offset>)
    requires span.0 <= span.1
    ensures TokenRun(span, offsets) == TokensInCharRange(offsets, span.0, span.1)
            <==> span.0 < span.1 || forall i {:trigger offsets[i]} :: 0 <= i < |offsets| ==>
                   !(offsets[i].0 < span.0 < offsets[i].1)
  {
    if span.0 == span.1 {
      if i :| 0 <= i < |offsets| && offsets[i].0 < span.0 < offsets[i].1 {
        OverlapsAre(offsets, span.0, span.1, 0);
        assert i in TokenRun(span, offsets);
      } else if TokenRun(span, offsets) != [] {
        var i := TokenRun(span, offsets)[0];
        assert i in TokenRun(span, offsets);
        OverlapsAre(offsets, span.0, span.1, 0);
      }
    }
  }

  /** An empty span after the first of a token's two characters: the run holds the token, the position nothing. */
  lemma EmptySpanInsideToken()
    ensures TokenRun((1, 1), [(0, 2)]) == [0] && TokensInCharRange([(0, 2)], 1, 1) == []
  {
    assert OverlapsFrom([(0, 2)], 1, 1, 1) == [];
  }

  /** The slots whose characters a span touches. */
  function Slots(span: CharSpan, offsets: seq<Offset>): set<int> {
    set i: int | 0 <= i < |offsets| && offsets[i] != (0, 0) && offsets[i].0 < span.1 && span.0 < offsets[i].1
  }

  lemma RunIsSlots(span: CharSpan, offsets: seq<Offset>)
    ensures (set i | i in TokenRun(span, offsets)) == Slots(span, offsets)
  {
    OverlapsAre(offsets, span.0, span.1, 0);
  }

  // ---------------------------------------------------------------- all or none

  predicate Touched(span: CharSpan, offsets: seq<Offset>, addressed: set<int>) {
    exists i {:trigger TokenRun(span, offsets)[i]} :: 0 <= i < |TokenRun(span, offsets)|
      && TokenRun(span, offsets)[i] in addressed
  }

  predicate Whole(span: CharSpan, offsets: seq<Offset>, addressed: set<int>) {
    && TokenRun(span, offsets) != []
    && forall i {:trigger TokenRun(span, offsets)[i]} :: 0 <= i < |TokenRun(span, offsets)| ==>
      TokenRun(span, offsets)[i] in addressed
  }

  /** A run touches a span when it addresses one of its slots, and has it whole when it addresses them all. */
  lemma TouchedAndWhole(span: CharSpan, offsets: seq<Offset>, addressed: set<int>)
    ensures Touched(span, offsets, addressed) <==> Slots(span, offsets) * addressed != {}
    ensures Whole(span, offsets, addressed) <==> {} < Slots(span, offsets) <= addressed
  {
    RunIsSlots(span, offsets);
    var run := TokenRun(span, offsets);
    forall i ensures i in Slots(span, offsets) <==> i in run {
      assert i in run <==> i in (set x | x in run);
    }
    if run != [] {
      assert run[0] in run;
    }
    if Touched(span, offsets, addressed) {
      var k :| 0 <= k < |run| && run[k] in addressed;
      assert run[k] in Slots(span, offsets) * addressed;
    }
    if i :| i in Slots(span, offsets) * addressed {
      var k :| 0 <= k < |run| && run[k] == i;
      assert TokenRun(span, offsets)[k] in addressed;
    }
  }

  predicate Untouched(spans: seq<CharSpan>, offsets: seq<Offset>, addressed: set<int>) {
    forall k {:trigger spans[k]} :: 0 <= k < |spans| ==> !Touched(spans[k], offsets, addressed)
  }

  predicate WhollyCovered(spans: seq<CharSpan>, offsets: seq<Offset>, addressed: set<int>) {
    forall k {:trigger spans[k]} :: 0 <= k < |spans| ==> Whole(spans[k], offsets, addressed)
  }

  function SideOf(g: EditGroup, onBase: bool): seq<CharSpan> {
    if onBase then g.base else g.counterfactual
  }

  predicate AllOrNone(g: EditGroup, onBase: bool, offsets: seq<Offset>, addressed: set<int>) {
    g.atomic ==>
      Untouched(SideOf(g, onBase), offsets, addressed) || WhollyCovered(SideOf(g, onBase), offsets, addressed)
  }

  /** Count what is touched and what is whole; accept a group untouched, or whole in every constituent. */
  method CheckGroup(spans: seq<CharSpan>, offsets: seq<Offset>, addressed: set<int>) returns (ok: bool)
    ensures ok <==> Untouched(spans, offsets, addressed) || WhollyCovered(spans, offsets, addressed)
  {
    var touched: nat, whole: nat := 0, 0;
    for k := 0 to |spans|
      invariant whole <= k
      invariant touched == 0 <==> forall j {:trigger spans[j]} :: 0 <= j < k ==> !Touched(spans[j], offsets, addressed)
      invariant whole == k <==> forall j {:trigger spans[j]} :: 0 <= j < k ==> Whole(spans[j], offsets, addressed)
    {
      if Touched(spans[k], offsets, addressed) {
        touched := touched + 1;
      }
      if Whole(spans[k], offsets, addressed) {
        whole := whole + 1;
      }
    }
    ok := touched == 0 || whole == |spans|;
  }

  /** The first atomic group addressed in part refuses the run. */
  method CheckComponentWise(groups: seq<EditGroup>, onBase: bool, offsets: seq<Offset>, addressed: set<int>)
    returns (ok: bool)
    ensures ok <==>
              forall i {:trigger groups[i]} :: 0 <= i < |groups| ==> AllOrNone(groups[i], onBase, offsets, addressed)
  {
    for i := 0 to |groups|
      invariant forall k {:trigger groups[k]} :: 0 <= k < i ==> AllOrNone(groups[k], onBase, offsets, addressed)
    {
      if groups[i].atomic {
        var whole := CheckGroup(SideOf(groups[i], onBase), offsets, addressed);
        if !whole {
          return false;
        }
      }
    }
    ok := true;
  }

  function ConstituentsOf(groups: seq<EditGroup>, onBase: bool, n: nat): nat
    requires n <= |groups|
  {
    if n == 0 then 0 else ConstituentsOf(groups, onBase, n - 1) + |SideOf(groups[n - 1], onBase)|
  }

  function Sides(groups: seq<EditGroup>, onBase: bool): seq<seq<CharSpan>> {
    seq(|groups|, i requires 0 <= i < |groups| => if onBase then groups[i].base else groups[i].counterfactual)
  }

  /** The number covered is the number of all constituents on that side. */
  lemma {:induction false} ConstituentsAreAll(groups: seq<EditGroup>, onBase: bool, n: nat)
    requires n <= |groups|
    ensures ConstituentsOf(groups, onBase, n) == |Concat(Sides(groups, onBase), n)|
    decreases n
  {
    if n > 0 {
      ConstituentsAreAll(groups, onBase, n - 1);
    }
  }

  predicate CoveredUpTo(spans: seq<CharSpan>, n: nat, offsets: seq<Offset>, addressed: set<int>)
    requires n <= |spans|
  {
    forall j {:trigger spans[j]} :: 0 <= j < n ==> Whole(spans[j], offsets, addressed)
  }

  /** Every constituent of every group must be addressed whole; the number covered, or a refusal. */
  method CheckLocationCoverage(groups: seq<EditGroup>, onBase: bool, offsets: seq<Offset>, addressed: set<int>)
    returns (covered: Option<nat>)
    ensures covered == if forall i {:trigger groups[i]} :: 0 <= i < |groups| ==>
                            WhollyCovered(SideOf(groups[i], onBase), offsets, addressed)
                       then Some(ConstituentsOf(groups, onBase, |groups|)) else None
  {
    var count := 0;
    for i := 0 to |groups|
      invariant count == ConstituentsOf(groups, onBase, i)
      invariant forall k {:trigger groups[k]} :: 0 <= k < i ==>
                  WhollyCovered(SideOf(groups[k], onBase), offsets, addressed)
    {
      var spans := SideOf(groups[i], onBase);
      for k := 0 to |spans|
        invariant count == ConstituentsOf(groups, onBase, i) + k
        invariant CoveredUpTo(spans, k, offsets, addressed)
      {
        if !Whole(spans[k], offsets, addressed) {
          assert !WhollyCovered(SideOf(groups[i], onBase), offsets, addressed);
          return None;
        }
        count := count + 1;
      }
    }
    covered := Some(count);
  }

  /** Full location coverage leaves no atomic group addressed in part. */
  lemma CoverageImpliesComponentWise(groups: seq<EditGroup>, onBase: bool, offsets: seq<Offset>, addressed: set<int>,
                                     i: nat)
    requires i < |groups|
    requires forall k {:trigger groups[k]} :: 0 <= k < |groups| ==>
               WhollyCovered(SideOf(groups[k], onBase), offsets, addressed)
    ensures AllOrNone(groups[i], onBase, offsets, addressed)
  {
  }

  /** The check refuses exactly the partial edits: some constituent touched, and some not addressed whole. */
  lemma RefusedWhenPartial(g: EditGroup, onBase: bool, offsets: seq<Offset>, addressed: set<int>)
    ensures var side := if onBase then g.base else g.counterfactual;
            !AllOrNone(g, onBase, offsets, addressed) <==>
              g.atomic && exists j, k {:trigger side[j], side[k]} ::
                0 <= j < |side| && 0 <= k < |side|
                && Touched(side[j], offsets, addressed) && !Whole(side[k], offsets, addressed)
  {
    assert SideOf(g, onBase) == if onBase then g.base else g.counterfactual;
  }
}
