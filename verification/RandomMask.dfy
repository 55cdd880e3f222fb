/**
 Size-matched random controls for a fitted mask: which units are drawn, and what the written control's hard split is.
 A generator's draw is any permutation.
 */
module RandomMask {
  import opened Wrappers

  /** The map of a gate decides where its parameters split. */
  datatype Gate = Sigmoid | Clamp | HardConcrete(threshold: real) | Budget

  datatype Entry = Entry(key: string, theta: seq<real>, gate: Gate)

  datatype Draw = Uniform | Complement

  datatype Refusal = NoUnmatchedComplement | NeedsTopK | TopKTooLarge | NothingToStandOn

  function Threshold(g: Gate): real {
    match g
    case Clamp => 0.5
    case HardConcrete(t) => t
    case _ => 0.0
  }

  /** The values a control is written on: the unit interval's ends for a clamp gate, a unit either side otherwise. */
  function Poles(g: Gate): (real, real) {
    if g.Clamp? then (0.0, 1.0) else (Threshold(g) - 1.0, Threshold(g) + 1.0)
  }

  predicate Kept(e: Entry, i: nat) {
    i < |e.theta| && e.theta[i] > Threshold(e.gate)
  }

  /** A strictly increasing map of the reals through one half at zero, as the logistic function is. */
  ghost predicate Squashing(sigma: real -> real) {
    sigma(0.0) == 0.5 && forall x, y {:trigger sigma(x), sigma(y)} :: x < y ==> sigma(x) < sigma(y)
  }

  function Clip(x: real): real {
    if x < 0.0 then 0.0 else if x > 1.0 then 1.0 else x
  }

  /** A hard-concrete gate stretches the squashed parameter to [lo, hi] and clips it. */
  function Stretched(sigma: real -> real, lo: real, hi: real, theta: real): real {
    Clip(sigma(theta) * (hi - lo) + lo)
  }

  lemma SignOfProduct(x: real, y: real)
    requires y > 0.0
    ensures x * y > 0.0 <==> x > 0.0
  {
    if x < 0.0 {
      assert (-x) * y > 0.0;
      assert x * y == -((-x) * y);
    } else if x == 0.0 {
      assert x * y == 0.0;
    }
  }

  lemma ProductApart(x: real, y: real, z: real)
    ensures (x - y) * z == x * z - y * z
  {
  }

  lemma ClipAbove(x: real)
    ensures Clip(x) > 0.5 <==> x > 0.5
  {
  }

  lemma StretchedAbove(s: real, half: real, lo: real, hi: real)
    requires lo < hi && half * (hi - lo) + lo == 0.5
    ensures Clip(s * (hi - lo) + lo) > 0.5 <==> s > half
  {
    ProductApart(s, half, hi - lo);
    SignOfProduct(s - half, hi - lo);
    ClipAbove(s * (hi - lo) + lo);
  }

  lemma StretchedWhenAbove(sigma: real -> real, theta: real, threshold: real, lo: real, hi: real)
    requires Squashing(sigma) && lo < hi && sigma(threshold) * (hi - lo) + lo == 0.5
    ensures Stretched(sigma, lo, hi, theta) > 0.5 <==> theta > threshold
  {
    SquashedAbove(sigma, theta, threshold, sigma(theta), sigma(threshold));
    StretchedAbove(sigma(theta), sigma(threshold), lo, hi);
  }

  lemma SquashedAbove(sigma: real -> real, theta: real, threshold: real, s: real, half: real)
    requires Squashing(sigma) && s == sigma(theta) && half == sigma(threshold)
    ensures s > half <==> theta > threshold
  {
    if theta < threshold {
      assert sigma(theta) < sigma(threshold);
    } else if threshold < theta {
      assert sigma(threshold) < sigma(theta);
    } else {
      assert theta == threshold;
    }
  }

  /**
   A gate keeps exactly the units whose own mask value is over one half: the squashed parameter at any temperature, the
   clipped parameter itself, or the stretched one, whose threshold is where it crosses one half.
   */
  lemma KeptAboveHalf(e: Entry, i: nat, sigma: real -> real, temperature: real, lo: real, hi: real)
    requires i < |e.theta| && Squashing(sigma) && temperature > 0.0 && lo < hi
    requires e.gate.HardConcrete? ==> sigma(e.gate.threshold) * (hi - lo) + lo == 0.5
    ensures var theta := e.theta[i];
            match e.gate
            case Sigmoid => Kept(e, i) <==> sigma(theta / temperature) > 0.5
            case Clamp => Kept(e, i) <==> Clip(theta) > 0.5
            case HardConcrete(_) => Kept(e, i) <==> Stretched(sigma, lo, hi, theta) > 0.5
            case Budget => Kept(e, i) <==> sigma(theta) > 0.5
  {
    var theta := e.theta[i];
    match e.gate
    case Sigmoid =>
      SignOfQuotient(theta, temperature);
      assert sigma(0.0) == 0.5 && (theta / temperature < 0.0 ==> sigma(theta / temperature) < sigma(0.0));
    case Clamp =>
    case HardConcrete(t) => StretchedWhenAbove(sigma, theta, t, lo, hi);
    case Budget =>
      assert sigma(0.0) == 0.5 && (theta < 0.0 ==> sigma(theta) < sigma(0.0));
  }

  lemma SignOfQuotient(x: real, y: real)
    requires y > 0.0
    ensures (x / y > 0.0 <==> x > 0.0) && (x / y == 0.0 <==> x == 0.0)
  {
    assert x / y * y == x;
  }

  /** A control is written on values as far from the split as they can be: the unit interval's ends, or one unit off. */
  lemma PolesAreDecisive(g: Gate)
    ensures var (off, on) := Poles(g);
            && off < Threshold(g) < on && on - Threshold(g) == Threshold(g) - off
            && (if g.Clamp? then Clip(off) == off == 0.0 && Clip(on) == on == 1.0 else on - Threshold(g) == 1.0)
  {
  }

  /** The indices below n that satisfy the split, or do not, in order. */
  function Units(e: Entry, kept: bool, n: nat): seq<nat>
    requires n <= |e.theta|
  {
    if n == 0 then [] else Units(e, kept, n - 1) + if Kept(e, n - 1) == kept then [(n - 1) as nat] else []
  }

  function CountOf(e: Entry, topK: Option<nat>): nat {
    if topK.Some? then topK.value else |Units(e, true, |e.theta|)|
  }

  /** Dropped units, in order. */
  function Dropped(e: Entry): seq<nat> {
    Units(e, false, |e.theta|)
  }

  predicate DistinctAt(s: seq<nat>, i: nat, j: nat)
    requires i < |s| && j < |s|
  {
    s[i] != s[j]
  }

  predicate Distinct(s: seq<nat>) {
    forall i, j {:trigger DistinctAt(s, i, j)} :: 0 <= i < j < |s| ==> DistinctAt(s, i, j)
  }

  predicate Permutes(order: seq<nat>, n: nat) {
    |order| == n && Distinct(order) && forall i {:trigger order[i]} :: 0 <= i < n ==> order[i] < n
  }

  /** A generator: for an entry and a size, a permutation of that size. */
  type Generator = (string, nat) -> seq<nat>

  ghost predicate Fair(g: Generator) {
    forall key, n {:trigger g(key, n)} :: Permutes(g(key, n), n)
  }

  // ---------------------------------------------------------------- the three draws

  function Pick(from: seq<nat>, order: seq<nat>, count: nat): seq<nat>
    requires count <= |order| && forall i {:trigger order[i]} :: 0 <= i < |order| ==> order[i] < |from|
  {
    seq(count, i requires 0 <= i < count => from[order[i]])
  }

  /** The drawn units that fall to an entry at [start, start + size), counted from its start. */
  function Inside(flat: seq<nat>, start: nat, size: nat, n: nat): seq<nat>
    requires n <= |flat|
  {
    if n == 0 then []
    else Inside(flat, start, size, n - 1)
         + if start <= flat[n - 1] < start + size then [flat[n - 1] - start] else []
  }

  function StartOf(entries: seq<Entry>, k: nat): nat
    requires k <= |entries|
  {
    if k == 0 then 0 else StartOf(entries, k - 1) + |entries[k - 1].theta|
  }

  function TotalCount(entries: seq<Entry>, topK: Option<nat>, k: nat): nat
    requires k <= |entries|
  {
    if k == 0 then 0 else TotalCount(entries, topK, k - 1) + CountOf(entries[k - 1], topK)
  }

  /** The total is the counts of all entries together. */
  lemma {:induction false} TotalOfBoth(a: seq<Entry>, b: seq<Entry>, topK: Option<nat>, n: nat)
    requires n <= |b|
    ensures TotalCount(a + b, topK, |a| + n) == TotalCount(a, topK, |a|) + TotalCount(b, topK, n)
    ensures |b| == 1 && n == 1 ==> TotalCount(b, topK, n) == CountOf(b[0], topK)
    decreases n
  {
    if n == 0 {
      TotalOfFirst(a, b, topK, |a|);
    } else {
      TotalOfBoth(a, b, topK, n - 1);
      assert (a + b)[|a| + n - 1] == b[n - 1];
    }
  }

  lemma {:induction false} TotalOfFirst(a: seq<Entry>, b: seq<Entry>, topK: Option<nat>, n: nat)
    requires n <= |a|
    ensures TotalCount(a + b, topK, n) == TotalCount(a, topK, n)
    decreases n
  {
    if n > 0 {
      TotalOfFirst(a, b, topK, n - 1);
    }
  }

  lemma {:induction false} UnitsAre(e: Entry, kept: bool, n: nat)
    requires n <= |e.theta|
    ensures |Units(e, kept, n)| + |Units(e, !kept, n)| == n && Distinct(Units(e, kept, n))
    ensures forall i: nat {:trigger i in Units(e, kept, n)} :: i in Units(e, kept, n) <==> i < n && Kept(e, i) == kept
    decreases n
  {
    if n > 0 {
      UnitsAre(e, kept, n - 1);
      forall i, j | 0 <= i < j < |Units(e, kept, n)| ensures DistinctAt(Units(e, kept, n), i, j) {
        var before := Units(e, kept, n - 1);
        if j < |before| {
          assert DistinctAt(before, i, j);
        } else {
          assert before[i] in before;
        }
      }
    }
  }

  /** The count to match: the one asked for, or the number of units over the threshold. */
  lemma CountIsKept(e: Entry, topK: Option<nat>)
    ensures CountOf(e, topK) == if topK.Some? then topK.value else |KeptUnits(e)|
    ensures |Dropped(e)| + |KeptUnits(e)| == |e.theta|
  {
    UnitsAre(e, true, |e.theta|);
    var units := Units(e, true, |e.theta|);
    assert KeptUnits(e) == Members(units);
    DistinctSize(units, |units|);
    TakeAll(units);
  }

  function Members(s: seq<nat>): set<nat> {
    set i | i in s
  }

  function KeptUnits(e: Entry): set<nat> {
    set i: nat | i < |e.theta| && e.theta[i] > Threshold(e.gate)
  }

  lemma {:induction false} DistinctSize(s: seq<nat>, n: nat)
    requires n <= |s| && Distinct(s)
    ensures |Members(s[..n])| == n
    decreases n
  {
    if n > 0 {
      DistinctSize(s, n - 1);
      TakeOneMore(s, n - 1);
      forall i | 0 <= i < n - 1 ensures s[i] != s[n - 1] {
        assert DistinctAt(s, i, n - 1);
      }
      assert s[n - 1] !in s[..n - 1] && Members(s[..n]) == Members(s[..n - 1]) + {s[n - 1]};
    }
  }

  // ---------------------------------------------------------------- the draws, entry by entry

  predicate RefusedAt(e: Entry, draw: Draw, topK: Option<nat>) {
    (topK.Some? && topK.value > |e.theta|) || (draw.Complement? && CountOf(e, topK) > |Dropped(e)|)
  }

  /** The refusals, in the order they are made. */
  function FirstRefusal(entries: seq<Entry>, draw: Draw, matched: bool, topK: Option<nat>): Option<Refusal> {
    if draw.Complement? && !matched then Some(NoUnmatchedComplement)
    else if topK == None && exists k :: 0 <= k < |entries| && entries[k].gate.Budget? then Some(NeedsTopK)
    else if topK.Some? && exists k :: 0 <= k < |entries| && topK.value > |entries[k].theta| then Some(TopKTooLarge)
    else if draw.Complement? && exists k :: 0 <= k < |entries| && CountOf(entries[k], topK) > |Dropped(entries[k])| then
      Some(NothingToStandOn)
    else None
  }

  /** What is drawn at all, spelled out in counts of kept and dropped units. */
  lemma DrawAccepts(entries: seq<Entry>, draw: Draw, matched: bool, topK: Option<nat>)
    ensures FirstRefusal(entries, draw, matched, topK) == None <==>
              && (draw.Complement? ==> matched)
              && forall k {:trigger entries[k]} :: 0 <= k < |entries| ==>
                   && (entries[k].gate.Budget? ==> topK.Some?)
                   && (topK.Some? ==> topK.value <= |entries[k].theta|)
                   && (draw.Complement? ==> CountOf(entries[k], topK) + |KeptUnits(entries[k])| <= |entries[k].theta|)
  {
    forall k | 0 <= k < |entries|
      ensures |Dropped(entries[k])| + |KeptUnits(entries[k])| == |entries[k].theta|
    {
      CountIsKept(entries[k], topK);
    }
  }

  lemma CountFits(e: Entry, topK: Option<nat>)
    requires topK.Some? ==> topK.value <= |e.theta|
    ensures CountOf(e, topK) <= |e.theta|
  {
    UnitsAre(e, true, |e.theta|);
  }

  /** A matched draw of one entry: a function of the entry, its count and its own permutation alone. */
  function MatchedDraw(e: Entry, draw: Draw, topK: Option<nat>, g: Generator): seq<nat>
    requires Fair(g) && !RefusedAt(e, draw, topK)
  {
    CountFits(e, topK);
    assert Permutes(g(e.key, |e.theta|), |e.theta|) && Permutes(g(e.key, |Dropped(e)|), |Dropped(e)|);
    match draw
    case Uniform => g(e.key, |e.theta|)[..CountOf(e, topK)]
    case Complement => Pick(Dropped(e), g(e.key, |Dropped(e)|), CountOf(e, topK))
  }

  /** A draw stands for a set of units of its entry. */
  predicate DrawnFrom(drawn: seq<nat>, e: Entry) {
    Distinct(drawn) && forall i {:trigger drawn[i]} :: 0 <= i < |drawn| ==> drawn[i] < |e.theta|
  }

  /** A uniform draw keeps the entry's count. */
  lemma UniformDraw(e: Entry, topK: Option<nat>, g: Generator)
    requires Fair(g) && !RefusedAt(e, Uniform, topK)
    ensures var drawn := MatchedDraw(e, Uniform, topK, g);
            |drawn| == CountOf(e, topK) && DrawnFrom(drawn, e)
  {
    CountFits(e, topK);
    var order := g(e.key, |e.theta|);
    var drawn := order[..CountOf(e, topK)];
    forall i, j | 0 <= i < j < |drawn| ensures DistinctAt(drawn, i, j) {
      assert DistinctAt(order, i, j);
    }
  }

  /** A complement draw keeps the entry's count and holds no unit the fit keeps. */
  lemma ComplementDraw(e: Entry, topK: Option<nat>, g: Generator)
    requires Fair(g) && !RefusedAt(e, Complement, topK)
    ensures var drawn := MatchedDraw(e, Complement, topK, g);
            && |drawn| == CountOf(e, topK) && DrawnFrom(drawn, e)
            && forall i {:trigger drawn[i]} :: 0 <= i < |drawn| ==> !Kept(e, drawn[i])
  {
    var dropped := Dropped(e);
    var order := g(e.key, |dropped|);
    UnitsAre(e, false, |e.theta|);
    var drawn := MatchedDraw(e, Complement, topK, g);
    forall i | 0 <= i < |drawn| ensures drawn[i] < |e.theta| && !Kept(e, drawn[i]) {
      assert drawn[i] == dropped[order[i]] && dropped[order[i]] in dropped;
    }
    forall i, j | 0 <= i < j < |drawn| ensures DistinctAt(drawn, i, j) {
      assert DistinctAt(order, i, j);
      assert DistinctAt(dropped, if order[i] < order[j] then order[i] else order[j],
                        if order[i] < order[j] then order[j] else order[i]);
    }
  }

  // ---------------------------------------------------------------- the unmatched draw

  function CountBelow(flat: seq<nat>, b: nat, n: nat): nat
    requires n <= |flat|
  {
    if n == 0 then 0 else CountBelow(flat, b, n - 1) + if flat[n - 1] < b then 1 else 0
  }

  predicate Holds(flat: seq<nat>, n: nat, x: nat)
    requires n <= |flat|
  {
    exists i {:trigger flat[i]} :: 0 <= i < n && flat[i] == x
  }

  lemma {:induction false} InsideIs(flat: seq<nat>, start: nat, size: nat, n: nat)
    requires n <= |flat| && Distinct(flat)
    ensures |Inside(flat, start, size, n)| == CountBelow(flat, start + size, n) - CountBelow(flat, start, n)
    ensures Distinct(Inside(flat, start, size, n))
    ensures forall x: nat {:trigger x in Inside(flat, start, size, n)} ::
              x in Inside(flat, start, size, n) <==> x < size && Holds(flat, n, start + x)
    decreases n
  {
    if n > 0 {
      InsideIs(flat, start, size, n - 1);
      var before, after := Inside(flat, start, size, n - 1), Inside(flat, start, size, n);
      forall i, j | 0 <= i < j < |after| ensures DistinctAt(after, i, j) {
        if j < |before| {
          assert DistinctAt(before, i, j);
        } else {
          assert before[i] in before;
          assert Holds(flat, n - 1, start + before[i]);
          var k :| 0 <= k < n - 1 && flat[k] == start + before[i];
          assert DistinctAt(flat, k, n - 1);
        }
      }
    }
  }

  function TotalDrawn(entries: seq<Entry>, flat: seq<nat>, k: nat): nat
    requires k <= |entries|
  {
    if k == 0 then 0
    else TotalDrawn(entries, flat, k - 1) + |Inside(flat, StartOf(entries, k - 1), |entries[k - 1].theta|, |flat|)|
  }

  lemma {:induction false} NothingBelowZero(flat: seq<nat>, n: nat)
    requires n <= |flat|
    ensures CountBelow(flat, 0, n) == 0
    decreases n
  {
    if n > 0 {
      NothingBelowZero(flat, n - 1);
    }
  }

  lemma {:induction false} AllBelow(flat: seq<nat>, b: nat, n: nat)
    requires n <= |flat| && forall i {:trigger flat[i]} :: 0 <= i < |flat| ==> flat[i] < b
    ensures CountBelow(flat, b, n) == n
    decreases n
  {
    if n > 0 {
      AllBelow(flat, b, n - 1);
    }
  }

  /** The first k entries share out the drawn units below the next entry's start. */
  lemma {:induction false} DrawnBelow(entries: seq<Entry>, flat: seq<nat>, k: nat)
    requires k <= |entries| && Distinct(flat)
    ensures TotalDrawn(entries, flat, k) == CountBelow(flat, StartOf(entries, k), |flat|)
    decreases k
  {
    if k == 0 {
      NothingBelowZero(flat, |flat|);
    } else {
      DrawnBelow(entries, flat, k - 1);
      InsideIs(flat, StartOf(entries, k - 1), |entries[k - 1].theta|, |flat|);
    }
  }

  lemma {:induction false} CountsFit(entries: seq<Entry>, topK: Option<nat>, k: nat)
    requires k <= |entries| && TopKFits(entries, topK)
    ensures TotalCount(entries, topK, k) <= StartOf(entries, k)
    decreases k
  {
    if k > 0 {
      CountsFit(entries, topK, k - 1);
      CountFits(entries[k - 1], topK);
    }
  }

  /** The unmatched draw: the first of a permutation of all units, as many as all counts together. */
  function FlatDraw(entries: seq<Entry>, topK: Option<nat>, order: seq<nat>): seq<nat>
    requires TotalCount(entries, topK, |entries|) <= |order|
  {
    order[..TotalCount(entries, topK, |entries|)]
  }

  /** The unmatched draw conserves the total: what the entries receive adds up to what they were to keep. */
  lemma UnmatchedConserves(entries: seq<Entry>, topK: Option<nat>, order: seq<nat>)
    requires TotalCount(entries, topK, |entries|) <= |order| && Permutes(order, StartOf(entries, |entries|))
    ensures TotalDrawn(entries, FlatDraw(entries, topK, order), |entries|) == TotalCount(entries, topK, |entries|)
  {
    var flat := FlatDraw(entries, topK, order);
    forall i, j | 0 <= i < j < |flat| ensures DistinctAt(flat, i, j) {
      assert DistinctAt(order, i, j);
    }
    forall i | 0 <= i < |flat| ensures flat[i] < StartOf(entries, |entries|) {
      assert order[i] < StartOf(entries, |entries|);
    }
    DrawnBelow(entries, flat, |entries|);
    AllBelow(flat, StartOf(entries, |entries|), |flat|);
  }

  // ---------------------------------------------------------------- drawing for all entries

  function UnmatchedDraw(entries: seq<Entry>, flat: seq<nat>, k: nat): seq<nat>
    requires k < |entries|
  {
    Inside(flat, StartOf(entries, k), |entries[k].theta|, |flat|)
  }

  lemma NotRefusedAt(entries: seq<Entry>, draw: Draw, matched: bool, topK: Option<nat>, k: nat)
    requires FirstRefusal(entries, draw, matched, topK) == None && k < |entries|
    ensures !RefusedAt(entries[k], draw, topK)
  {
  }

  predicate TopKFits(entries: seq<Entry>, topK: Option<nat>) {
    topK.Some? ==> forall i {:trigger entries[i]} :: 0 <= i < |entries| ==> topK.value <= |entries[i].theta|
  }

  function LengthsTogether(drawn: seq<seq<nat>>, k: nat): nat
    requires k <= |drawn|
  {
    if k == 0 then 0 else LengthsTogether(drawn, k - 1) + |drawn[k - 1]|
  }

  /** What a matched draw gives one entry: as many distinct units of its own as its count, none kept by a complement. */
  predicate MatchedFor(e: Entry, draw: Draw, topK: Option<nat>, drawn: seq<nat>) {
    && |drawn| == CountOf(e, topK) && DrawnFrom(drawn, e)
    && (draw.Complement? ==> forall i {:trigger drawn[i]} :: 0 <= i < |drawn| ==> !Kept(e, drawn[i]))
  }

  lemma MatchedDrawFits(e: Entry, draw: Draw, topK: Option<nat>, g: Generator)
    requires Fair(g) && !RefusedAt(e, draw, topK)
    ensures MatchedFor(e, draw, topK, MatchedDraw(e, draw, topK, g))
  {
    match draw
    case Uniform => UniformDraw(e, topK, g);
    case Complement => ComplementDraw(e, topK, g);
  }

  lemma {:induction false} UnmatchedLengths(entries: seq<Entry>, flat: seq<nat>, drawn: seq<seq<nat>>, k: nat)
    requires |drawn| == |entries| && k <= |entries|
    requires forall j {:trigger drawn[j]} :: 0 <= j < |entries| ==> drawn[j] == UnmatchedDraw(entries, flat, j)
    ensures LengthsTogether(drawn, k) == TotalDrawn(entries, flat, k)
    decreases k
  {
    if k > 0 {
      UnmatchedLengths(entries, flat, drawn, k - 1);
    }
  }

  /** What an unmatched draw gives one entry: distinct units of its own. */
  lemma UnmatchedFits(entries: seq<Entry>, flat: seq<nat>, k: nat)
    requires k < |entries| && Distinct(flat)
    ensures DrawnFrom(UnmatchedDraw(entries, flat, k), entries[k])
  {
    var drawn := UnmatchedDraw(entries, flat, k);
    InsideIs(flat, StartOf(entries, k), |entries[k].theta|, |flat|);
    forall i | 0 <= i < |drawn| ensures drawn[i] < |entries[k].theta| {
      assert drawn[i] in drawn;
    }
  }

  lemma UnmatchedTogether(entries: seq<Entry>, topK: Option<nat>, order: seq<nat>, drawn: seq<seq<nat>>)
    requires TotalCount(entries, topK, |entries|) <= |order| && Permutes(order, StartOf(entries, |entries|))
    requires |drawn| == |entries|
    requires var flat := FlatDraw(entries, topK, order);
             forall j {:trigger drawn[j]} :: 0 <= j < |entries| ==> drawn[j] == UnmatchedDraw(entries, flat, j)
    ensures LengthsTogether(drawn, |entries|) == TotalCount(entries, topK, |entries|)
    ensures forall k {:trigger drawn[k]} :: 0 <= k < |entries| ==> DrawnFrom(drawn[k], entries[k])
  {
    var flat := FlatDraw(entries, topK, order);
    UnmatchedLengths(entries, flat, drawn, |entries|);
    UnmatchedConserves(entries, topK, order);
    forall i, j | 0 <= i < j < |flat| ensures DistinctAt(flat, i, j) {
      assert DistinctAt(order, i, j);
    }
    forall k | 0 <= k < |entries| ensures DrawnFrom(drawn[k], entries[k]) {
      UnmatchedFits(entries, flat, k);
    }
  }

  /** Entry by entry, each from its own permutation. */
  method DrawMatched(entries: seq<Entry>, draw: Draw, topK: Option<nat>, g: Generator) returns (drawn: seq<seq<nat>>)
    requires Fair(g) && forall k {:trigger entries[k]} :: 0 <= k < |entries| ==> !RefusedAt(entries[k], draw, topK)
    ensures |drawn| == |entries|
    ensures forall k {:trigger drawn[k]} :: 0 <= k < |entries| ==>
              drawn[k] == MatchedDraw(entries[k], draw, topK, g) && MatchedFor(entries[k], draw, topK, drawn[k])
  {
    drawn := [];
    for k := 0 to |entries|
      invariant |drawn| == k
      invariant forall j {:trigger drawn[j]} :: 0 <= j < k ==> drawn[j] == MatchedDraw(entries[j], draw, topK, g)
    {
      drawn := drawn + [MatchedDraw(entries[k], draw, topK, g)];
    }
    forall k | 0 <= k < |entries| ensures MatchedFor(entries[k], draw, topK, drawn[k]) {
      MatchedDrawFits(entries[k], draw, topK, g);
    }
  }

  /** From one permutation of all units, cut back into the entries it fell to. */
  method DrawUnmatched(entries: seq<Entry>, topK: Option<nat>, order: seq<nat>) returns (drawn: seq<seq<nat>>)
    requires TopKFits(entries, topK) && Permutes(order, StartOf(entries, |entries|))
    ensures |drawn| == |entries| && TotalCount(entries, topK, |entries|) <= |order|
    ensures forall k {:trigger drawn[k]} :: 0 <= k < |entries| ==>
              drawn[k] == UnmatchedDraw(entries, FlatDraw(entries, topK, order), k) && DrawnFrom(drawn[k], entries[k])
    ensures LengthsTogether(drawn, |entries|) == TotalCount(entries, topK, |entries|)
  {
    CountsFit(entries, topK, |entries|);
    var flat := order[..TotalCount(entries, topK, |entries|)];
    var start := 0;
    drawn := [];
    for k := 0 to |entries|
      invariant |drawn| == k && start == StartOf(entries, k)
      invariant forall j {:trigger drawn[j]} :: 0 <= j < k ==> drawn[j] == UnmatchedDraw(entries, flat, j)
    {
      drawn := drawn + [Inside(flat, start, |entries[k].theta|, |flat|)];
      start := start + |entries[k].theta|;
    }
    UnmatchedTogether(entries, topK, order, drawn);
  }

  /**
   Draw for every entry: matched draws entry by entry, an unmatched one cut back into the entries it fell to. Every
   entry receives distinct units of its own: matched, as many as its count and none kept where the complement is
   asked for; unmatched, all entries together receive all counts together.
   */
  method DrawAll(entries: seq<Entry>, draw: Draw, matched: bool, topK: Option<nat>, g: Generator)
    returns (r: Result<seq<seq<nat>>, Refusal>)
    requires Fair(g)
    ensures FirstRefusal(entries, draw, matched, topK).Some? ==>
              r == Err(FirstRefusal(entries, draw, matched, topK).value)
    ensures FirstRefusal(entries, draw, matched, topK) == None ==> r.Ok? && |r.value| == |entries|
    ensures FirstRefusal(entries, draw, matched, topK) == None && matched ==>
              forall k {:trigger r.value[k]} :: 0 <= k < |entries| ==>
                !RefusedAt(entries[k], draw, topK) && r.value[k] == MatchedDraw(entries[k], draw, topK, g)
    ensures FirstRefusal(entries, draw, matched, topK) == None && !matched ==>
              var order := g("", StartOf(entries, |entries|));
              && TotalCount(entries, topK, |entries|) <= |order|
              && forall k {:trigger r.value[k]} :: 0 <= k < |entries| ==>
                   r.value[k] == UnmatchedDraw(entries, FlatDraw(entries, topK, order), k)
    ensures r.Ok? && matched ==>
              forall k {:trigger r.value[k]} :: 0 <= k < |entries| ==> MatchedFor(entries[k], draw, topK, r.value[k])
    ensures r.Ok? && !matched ==>
              && LengthsTogether(r.value, |entries|) == TotalCount(entries, topK, |entries|)
              && forall k {:trigger r.value[k]} :: 0 <= k < |entries| ==> DrawnFrom(r.value[k], entries[k])
  {
    var refusal := FirstRefusal(entries, draw, matched, topK);
    if refusal.Some? {
      return Err(refusal.value);
    }
    var drawn: seq<seq<nat>>;
    if matched {
      forall k | 0 <= k < |entries| ensures !RefusedAt(entries[k], draw, topK) {
        NotRefusedAt(entries, draw, matched, topK, k);
      }
      drawn := DrawMatched(entries, draw, topK, g);
    } else {
      drawn := DrawUnmatched(entries, topK, g("", StartOf(entries, |entries|)));
    }
    r := Ok(drawn);
  }

  // ---------------------------------------------------------------- writing the control

  /** Read by the gate's own threshold, a written control is exactly the set that was drawn. */
  lemma HardSplitIsDraw(e: Entry, drawn: seq<nat>, mask: seq<real>, i: nat)
    requires |mask| == |e.theta| && i < |mask|
    requires forall k :: 0 <= k < |mask| ==> mask[k] == if k in drawn then Poles(e.gate).1 else Poles(e.gate).0
    ensures mask[i] > Threshold(e.gate) <==> i in drawn
  {
  }

  /** Off everywhere, then on at the drawn units: the hard split of what is written is the draw. */
  method WriteControl(e: Entry, drawn: seq<nat>) returns (mask: array<real>)
    requires DrawnFrom(drawn, e)
    ensures fresh(mask) && mask.Length == |e.theta|
    ensures forall i :: 0 <= i < mask.Length ==> mask[i] == if i in drawn then Poles(e.gate).1 else Poles(e.gate).0
    ensures forall i :: 0 <= i < mask.Length ==> (mask[i] > Threshold(e.gate) <==> i in drawn)
  {
    var poles := Poles(e.gate);
    mask := new real[|e.theta|](_ => poles.0);
    for k := 0 to |drawn|
      invariant forall i :: 0 <= i < mask.Length ==> mask[i] == if i in drawn[..k] then poles.1 else poles.0
    {
      TakeOneMore(drawn, k);
      mask[drawn[k]] := poles.1;
    }
    TakeAll(drawn);
    forall i | 0 <= i < mask.Length ensures mask[i] > Threshold(e.gate) <==> i in drawn {
      HardSplitIsDraw(e, drawn, mask[..], i);
    }
  }

  // ---------------------------------------------------------------- complements of a ranked cut

  /** The units a consumer keeps when it cuts the ranking at a count: none outside outranks one inside. */
  ghost predicate TopCut(e: Entry, kept: set<nat>, k: nat) {
    && |kept| == k && (forall i :: i in kept ==> i < |e.theta|)
    && (forall i: nat, j: nat :: i in kept && i < |e.theta| && j < |e.theta| && j !in kept ==> e.theta[i] >= e.theta[j])
  }

  /** Distinct elements of a set are no more than the set holds. */
  lemma {:induction false} DistinctInSet(s: seq<nat>, all: set<nat>, n: nat)
    requires n <= |s| && Distinct(s) && forall i {:trigger s[i]} :: 0 <= i < n ==> s[i] in all
    ensures n <= |all|
    decreases n
  {
    if n > 0 {
      forall i | 0 <= i < n - 1 ensures s[i] in all - {s[n - 1]} {
        assert DistinctAt(s, i, n - 1);
      }
      DistinctInSet(s, all - {s[n - 1]}, n - 1);
    }
  }

  lemma {:induction false} SetInSeq(all: set<nat>, s: seq<nat>)
    requires forall x :: x in all ==> x in s
    ensures |all| <= |s|
    decreases |s|
  {
    if s == [] {
      assert all == {};
    } else {
      SetInSeq(all - {s[0]}, s[1..]);
    }
  }

  /**
   A complement is drawn from the units under the threshold. Where the consumer cuts the ranking at a count instead,
   those units are free of what it keeps if and only if it keeps no more than lie over the threshold.
   */
  lemma ComplementMissesCut(e: Entry, k: nat, kept: set<nat>)
    requires TopCut(e, kept, k)
    ensures (forall unit :: unit in Dropped(e) ==> unit !in kept) <==> k <= |Units(e, true, |e.theta|)|
  {
    var above := Units(e, true, |e.theta|);
    UnitsAre(e, true, |e.theta|);
    UnitsAre(e, false, |e.theta|);
    if unit :| unit in Dropped(e) && unit in kept {
      forall i {:trigger above[i]} | 0 <= i < |above| ensures above[i] in kept - {unit} {
        assert above[i] in above && Kept(e, above[i]);
      }
      DistinctInSet(above, kept - {unit}, |above|);
    } else {
      forall x | x in kept ensures x in above {
        assert x in Dropped(e) || x in above;
      }
      SetInSeq(kept, above);
    }
  }

  /** The generator that leaves everything in order. */
  function InOrder(): Generator {
    (key: string, n: nat) => seq(n, i requires 0 <= i < n => i)
  }

  lemma InOrderIsFair()
    ensures Fair(InOrder())
  {
    forall key: string, n: nat ensures Permutes(InOrder()(key, n), n) {
      var order := InOrder()(key, n);
      forall i, j | 0 <= i < j < n ensures DistinctAt(order, i, j) {
      }
    }
  }

  /** Both units are under the threshold, and a complement draw of one of them is the one that ranks first. */
  lemma ComplementDrawsRankedUnit()
    ensures var e := Entry("gate", [0.4, 0.3], HardConcrete(0.5));
            && TopCut(e, {0}, 1) && !RefusedAt(e, Complement, Some(1)) && Fair(InOrder())
            && MatchedDraw(e, Complement, Some(1), InOrder()) == [0]
  {
    var e := Entry("gate", [0.4, 0.3], HardConcrete(0.5));
    InOrderIsFair();
    assert Units(e, false, 0) == [] && Units(e, false, 1) == [0] && Units(e, false, 2) == [0, 1];
    assert Dropped(e) == [0, 1];
    assert InOrder()("gate", 2) == [0, 1];
  }
}
