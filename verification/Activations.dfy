/** Gathering the activations that predict the targets from an all-position harvest, dense or flattened ragged. */
module Activations {
  import opened Sequences
  import opened Wrappers

  /** A dense tensor holds a window of equal width for each row; a flat one holds all windows end to end. */
  datatype Harvest<A> = Dense(width: nat, windows: seq<seq<A>>) | Flat(acts: seq<A>)

  /** A tensor is rectangular. */
  predicate Rectangular<A>(h: Harvest<A>) {
    h.Dense? ==> forall k :: 0 <= k < |h.windows| ==> |h.windows[k]| == h.width
  }

  datatype GatherError = NoAlignedCohort | ShapeMismatch | OutsideSequence

  function Counts(rows: seq<Prepared>): seq<nat> {
    seq(|rows|, k requires 0 <= k < |rows| => |rows[k].ids|)
  }

  /** Where row k begins in the flattened harvest. */
  function StartOf(counts: seq<nat>, k: nat): nat
    requires k <= |counts|
  {
    if k == 0 then 0 else StartOf(counts, k - 1) + counts[k - 1]
  }

  lemma {:induction false} StartsGrow(counts: seq<nat>, k: nat, l: nat)
    requires k <= l <= |counts|
    ensures StartOf(counts, k) <= StartOf(counts, l)
    ensures k < l ==> StartOf(counts, k) + counts[k] <= StartOf(counts, l)
  {
    if k < l {
      StartsGrow(counts, k, l - 1);
    }
  }

  /** The rows all have the same, nonzero number of targets. */
  predicate Cohort(rows: seq<Prepared>) {
    |rows| > 0 && |rows[0].targets| > 0 && forall k :: 0 <= k < |rows| ==> |rows[k].targets| == |rows[0].targets|
  }

  predicate ShapeFits<A>(h: Harvest<A>, counts: seq<nat>) {
    match h
    case Dense(width, windows) => |windows| == |counts| && forall k :: 0 <= k < |counts| ==> counts[k] == width
    case Flat(acts) => |acts| == StartOf(counts, |counts|)
  }

  predicate PositionsInside(row: Prepared) {
    forall i :: 0 <= i < |row.targets| ==> 0 <= row.targets[i].predictionPosition < |row.ids|
  }

  /** The window of row k. */
  function Window<A>(h: Harvest<A>, counts: seq<nat>, k: nat): (w: seq<A>)
    requires Rectangular(h) && ShapeFits(h, counts) && k < |counts|
    ensures |w| == counts[k]
  {
    match h
    case Dense(_, windows) => windows[k]
    case Flat(acts) =>
      StartsGrow(counts, k + 1, |counts|);
      acts[StartOf(counts, k)..StartOf(counts, k) + counts[k]]
  }

  /** The activations of a row's window at its targets' prediction positions. */
  function AlignedRow<A>(window: seq<A>, row: Prepared): seq<A>
    requires |window| == |row.ids| && PositionsInside(row)
  {
    seq(|row.targets|, i requires 0 <= i < |row.targets| => window[row.targets[i].predictionPosition])
  }

  function FirstError<A>(h: Harvest<A>, rows: seq<Prepared>): Option<GatherError> {
    if !Cohort(rows) then Some(NoAlignedCohort)
    else if !ShapeFits(h, Counts(rows)) then Some(ShapeMismatch)
    else if exists k {:trigger rows[k]} :: 0 <= k < |rows| && !PositionsInside(rows[k]) then Some(OutsideSequence)
    else None
  }

  /**
   What is gathered, spelled out: rows with equally many targets, at least one, whose windows are what was harvested,
   and positions inside them.
   */
  lemma GatherAccepts<A>(h: Harvest<A>, rows: seq<Prepared>)
    ensures FirstError(h, rows) == None <==>
              && rows != [] && |rows[0].targets| >= 1
              && (forall k, l {:trigger rows[k], rows[l]} :: 0 <= k < |rows| && 0 <= l < |rows| ==>
                    |rows[k].targets| == |rows[l].targets|)
              && (match h
                  case Dense(width, windows) =>
                    |windows| == |rows| && forall k {:trigger rows[k]} :: 0 <= k < |rows| ==> |rows[k].ids| == width
                  case Flat(acts) => |acts| == |Concat(IdsOf(rows), |rows|)|)
              && (forall k {:trigger rows[k]} :: 0 <= k < |rows| ==> forall i :: 0 <= i < |rows[k].targets| ==>
                    0 <= rows[k].targets[i].predictionPosition < |rows[k].ids|)
  {
    AllIdsTogether(rows, |rows|);
    assert |Counts(rows)| == |rows|;
    forall k | 0 <= k < |rows| ensures Counts(rows)[k] == |rows[k].ids| {
    }
    if rows != [] && (forall k, l {:trigger rows[k], rows[l]} :: 0 <= k < |rows| && 0 <= l < |rows| ==>
                        |rows[k].targets| == |rows[l].targets|)
    {
      assert forall k :: 0 <= k < |rows| ==> |rows[k].targets| == |rows[0].targets|;
    }
  }

  function IdsOf(rows: seq<Prepared>): seq<seq<int>> {
    seq(|rows|, k requires 0 <= k < |rows| => rows[k].ids)
  }

  lemma {:induction false} AllIdsTogether(rows: seq<Prepared>, n: nat)
    requires n <= |rows|
    ensures StartOf(Counts(rows), n) == |Concat(IdsOf(rows), n)|
    decreases n
  {
    if n > 0 {
      AllIdsTogether(rows, n - 1);
    }
  }

  lemma WindowOfFlat<A>(acts: seq<A>, counts: seq<nat>, k: nat, at: nat)
    requires |acts| == StartOf(counts, |counts|) && k < |counts| && at == StartOf(counts, k)
    ensures at + counts[k] == StartOf(counts, k + 1) <= |acts|
    ensures acts[at..at + counts[k]] == Window(Flat(acts), counts, k)
  {
    StartsGrow(counts, k + 1, |counts|);
  }

  /** Cut a flat harvest into windows of the given widths, one after the other. */
  method Split<A>(acts: seq<A>, counts: seq<nat>) returns (windows: seq<seq<A>>)
    requires |acts| == StartOf(counts, |counts|)
    ensures |windows| == |counts|
    ensures forall k :: 0 <= k < |counts| ==> windows[k] == Window(Flat(acts), counts, k)
  {
    ghost var want := seq(|counts|, k requires 0 <= k < |counts| => Window(Flat(acts), counts, k));
    windows := [];
    var at := 0;
    for k := 0 to |counts|
      invariant windows == want[..k] && at == StartOf(counts, k)
    {
      WindowOfFlat(acts, counts, k, at);
      TakeOneMore(want, k);
      windows := windows + [acts[at..at + counts[k]]];
      at := at + counts[k];
    }
  }

  /** The window of every row, from either layout. */
  method CutWindows<A>(h: Harvest<A>, counts: seq<nat>) returns (windows: seq<seq<A>>)
    requires Rectangular(h) && ShapeFits(h, counts)
    ensures |windows| == |counts|
    ensures forall k {:trigger windows[k]} :: 0 <= k < |counts| ==> windows[k] == Window(h, counts, k)
  {
    match h {
      case Dense(_, ws) => windows := ws;
      case Flat(acts) => windows := Split(acts, counts);
    }
  }

  predicate WindowsFit<A>(windows: seq<seq<A>>, rows: seq<Prepared>) {
    |windows| == |rows| && forall k {:trigger windows[k]} :: 0 <= k < |rows| ==> |windows[k]| == |rows[k].ids|
  }

  /** Each row's activations, until a row whose positions do not fit. */
  method AlignRows<A>(windows: seq<seq<A>>, rows: seq<Prepared>) returns (aligned: Option<seq<seq<A>>>)
    requires WindowsFit(windows, rows)
    ensures aligned.Some? <==> forall k {:trigger rows[k]} :: 0 <= k < |rows| ==> PositionsInside(rows[k])
    ensures aligned.Some? ==> |aligned.value| == |rows|
    ensures aligned.Some? ==> forall k {:trigger aligned.value[k]} :: 0 <= k < |rows| ==>
              aligned.value[k] == AlignedRow(windows[k], rows[k])
  {
    var done: seq<seq<A>> := [];
    for k := 0 to |rows|
      invariant |done| == k && forall j {:trigger rows[j]} :: 0 <= j < k ==> PositionsInside(rows[j])
      invariant forall j {:trigger done[j]} :: 0 <= j < k ==> done[j] == AlignedRow(windows[j], rows[j])
    {
      if !PositionsInside(rows[k]) {
        return None;
      }
      assert |windows[k]| == |rows[k].ids|;
      done := done + [AlignedRow(windows[k], rows[k])];
    }
    aligned := Some(done);
  }

  method Gather<A>(h: Harvest<A>, rows: seq<Prepared>) returns (r: Result<seq<seq<A>>, GatherError>)
    requires Rectangular(h)
    ensures FirstError(h, rows).Some? ==> r == Err(FirstError(h, rows).value)
    ensures FirstError(h, rows) == None ==> r.Ok? && |r.value| == |rows|
    ensures FirstError(h, rows) == None ==>
              forall k {:trigger r.value[k]} :: 0 <= k < |rows| ==>
                r.value[k] == AlignedRow(Window(h, Counts(rows), k), rows[k])
  {
    if !Cohort(rows) {
      return Err(NoAlignedCohort);
    }
    if !ShapeFits(h, Counts(rows)) {
      return Err(ShapeMismatch);
    }
    var windows := CutWindows(h, Counts(rows));
    var aligned := AlignRows(windows, rows);
    if aligned == None {
      return Err(OutsideSequence);
    }
    r := Ok(aligned.value);
  }

  // ---------------------------------------------------------------- both layouts agree

  function Widths<A>(windows: seq<seq<A>>): seq<nat> {
    seq(|windows|, k requires 0 <= k < |windows| => |windows[k]|)
  }

  lemma {:induction false} ConcatLength<A>(windows: seq<seq<A>>, n: nat)
    requires n <= |windows|
    ensures |Concat(windows, n)| == StartOf(Widths(windows), n)
  {
    if n > 0 {
      ConcatLength(windows, n - 1);
    }
  }

  /** Cutting undoes flattening: window k of the flattened harvest is window k. */
  lemma {:induction false} SplitConcat<A>(windows: seq<seq<A>>, n: nat, k: nat)
    requires k < n <= |windows|
    ensures var start := StartOf(Widths(windows), k);
            start + |windows[k]| <= |Concat(windows, n)|
              && Concat(windows, n)[start..start + |windows[k]|] == windows[k]
  {
    var widths := Widths(windows);
    ConcatLength(windows, n - 1);
    if k == n - 1 {
      AppendSlices(Concat(windows, k), windows[k]);
    } else {
      SplitConcat(windows, n - 1, k);
      var start := StartOf(widths, k);
      assert Concat(windows, n)[start..start + |windows[k]|] == Concat(windows, n - 1)[start..start + |windows[k]|];
    }
  }

  /**
   A cohort saved densely and the same cohort saved flat give the same activation for every target: the one at its
   prediction position, which is also the one its read addresses on any left-padded row.
   */
  lemma LayoutsAgree<A>(windows: seq<seq<A>>, width: nat, rows: seq<Prepared>, k: nat)
    requires |windows| == |rows| && k < |rows| && Counts(rows) == Widths(windows)
    requires forall j :: 0 <= j < |windows| ==> |windows[j]| == width
    ensures ShapeFits(Dense(width, windows), Counts(rows)) && ShapeFits(Flat(Concat(windows, |windows|)), Counts(rows))
    ensures Window(Dense(width, windows), Counts(rows), k) == Window(Flat(Concat(windows, |windows|)), Counts(rows), k)
  {
    ConcatLength(windows, |windows|);
    SplitConcat(windows, |windows|, k);
    assert Counts(rows)[k] == |windows[k]|;
  }

  /**
   Target i's activation, three ways: gathered, read at its negative index from the end of the row's window, and
   looked up in the flattened harvest behind the rows before it.
   */
  lemma ThreeAddresses<A>(windows: seq<seq<A>>, row: Prepared, frozen: Frozen, roles: map<int, string>, eos: seq<int>,
                          k: nat, i: nat)
    requires WellPrepared(row, frozen, roles, eos) && i < row.outputLength
    requires k < |windows| && |windows[k]| == |row.ids|
    ensures PositionsInside(row)
    ensures var gathered := AlignedRow(windows[k], row)[i];
            var flat, start := Concat(windows, |windows|), StartOf(Widths(windows), k);
            && windows[k][|windows[k]| + ReadIndex(i, row.outputLength)] == gathered
            && start + row.targets[i].predictionPosition < |flat|
            && flat[start + row.targets[i].predictionPosition] == gathered
  {
    forall j | 0 <= j < |row.targets| ensures 0 <= row.targets[j].predictionPosition < |row.ids| {
      assert row.targets[j] == TargetAt(frozen, roles, eos, j);
    }
    ReadsResolveToPredictions(row, frozen, roles, eos, i, 0, 0);
    SplitConcat(windows, |windows|, k);
    var flat, start := Concat(windows, |windows|), StartOf(Widths(windows), k);
    assert flat[start..start + |windows[k]|][row.targets[i].predictionPosition] == AlignedRow(windows[k], row)[i];
  }
}
