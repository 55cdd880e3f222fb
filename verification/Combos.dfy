/** The cross product of finitely many choices, first slowest and last fastest, and its mixed-radix numbering. */
module Combos {
  import opened Wrappers

  function ProductOf(sizes: seq<nat>): nat {
    if sizes == [] then 1 else sizes[0] * ProductOf(sizes[1..])
  }

  /** For each choice of the head in turn, every choice of the rest. */
  function Cross(sizes: seq<nat>): seq<seq<nat>>
    decreases |sizes|, 1, 0
  {
    if sizes == [] then [[]] else CrossFrom(sizes, 0)
  }

  function CrossFrom(sizes: seq<nat>, v: nat): seq<seq<nat>>
    requires sizes != [] && v <= sizes[0]
    decreases |sizes|, 0, sizes[0] - v
  {
    if v == sizes[0] then [] else Prefixed(v, Cross(sizes[1..])) + CrossFrom(sizes, v + 1)
  }

  function Prefixed(v: nat, combos: seq<seq<nat>>): seq<seq<nat>> {
    seq(|combos|, k requires 0 <= k < |combos| => [v] + combos[k])
  }

  predicate Fits(combo: seq<nat>, sizes: seq<nat>) {
    |combo| == |sizes| && forall i :: 0 <= i < |sizes| ==> combo[i] < sizes[i]
  }

  /** The number of a combination: its digits read in mixed radix. */
  function Rank(combo: seq<nat>, sizes: seq<nat>): nat
    requires |combo| == |sizes|
  {
    if sizes == [] then 0 else combo[0] * ProductOf(sizes[1..]) + Rank(combo[1..], sizes[1..])
  }

  /** The k-th combination. */
  function Digits(sizes: seq<nat>, k: nat): (combo: seq<nat>)
    requires k < ProductOf(sizes)
    ensures |combo| == |sizes|
  {
    if sizes == [] then []
    else
      var m := ProductOf(sizes[1..]);
      DivMod(k, m, sizes[0]);
      [k / m] + Digits(sizes[1..], k % m)
  }

  lemma MulMonotone(a: nat, b: nat, m: nat)
    requires a <= b
    ensures a * m <= b * m
  {
  }

  lemma OneMoreBlock(v: nat, m: nat)
    ensures (v + 1) * m == v * m + m
  {
  }

  lemma PositiveFactor(n: nat, m: nat)
    requires 0 < n * m
    ensures 0 < m
  {
  }

  lemma QuotientBound(k: nat, m: nat, n: nat)
    requires 0 < m && k < n * m
    ensures k / m < n
  {
    DivisionIs(k, m);
    if n <= k / m {
      MulMonotone(n, k / m, m);
    }
  }

  lemma DivisionIs(k: nat, m: nat)
    requires 0 < m
    ensures k == k / m * m + k % m && 0 <= k % m < m && 0 <= k / m
  {
  }

  lemma DivMod(k: nat, m: nat, n: nat)
    requires k < n * m
    ensures m > 0 && k / m < n && k % m < m && k == k / m * m + k % m
  {
    PositiveFactor(n, m);
    QuotientBound(k, m, n);
    DivisionIs(k, m);
  }

  lemma DivModUnique(q: nat, m: nat, r: nat)
    requires r < m
    ensures (q * m + r) / m == q && (q * m + r) % m == r
  {
    var k := q * m + r;
    var d := k / m;
    DivisionIs(k, m);
    OneMoreBlock(d, m);
    OneMoreBlock(q, m);
    if d < q {
      MulMonotone(d + 1, q, m);
    } else if q < d {
      MulMonotone(q + 1, d, m);
    }
  }

  /** Entry k of block v lies inside the product. */
  lemma InBlock(v: nat, n: nat, m: nat, k: nat)
    requires v < n && k < m
    ensures v * m + k < n * m
  {
    OneMoreBlock(v, m);
    MulMonotone(v + 1, n, m);
  }

  /** Within the block of one head value, the rest counts up. */
  lemma FirstBlock(sizes: seq<nat>, v: nat, k: nat)
    requires sizes != [] && v < sizes[0] && k < ProductOf(sizes[1..])
    ensures v * ProductOf(sizes[1..]) + k < ProductOf(sizes)
    ensures Digits(sizes, v * ProductOf(sizes[1..]) + k) == [v] + Digits(sizes[1..], k)
  {
    var m := ProductOf(sizes[1..]);
    InBlock(v, sizes[0], m, k);
    DivModUnique(v, m, k);
    HeadAndRest(sizes, v * m + k, m, v, k);
  }

  lemma HeadAndRest(sizes: seq<nat>, n: nat, m: nat, v: nat, k: nat)
    requires sizes != [] && m == ProductOf(sizes[1..]) && n < ProductOf(sizes) && 0 < m
    requires n / m == v && n % m == k
    ensures k < m && Digits(sizes, n) == [v] + Digits(sizes[1..], k)
  {
    DivisionIs(n, m);
  }

  predicate CountsUp(combos: seq<seq<nat>>, sizes: seq<nat>, from: nat) {
    from + |combos| == ProductOf(sizes)
    && forall k {:trigger combos[k]} :: 0 <= k < |combos| ==> combos[k] == Digits(sizes, from + k)
  }

  lemma BlockThenRest(sizes: seq<nat>, v: nat, m: nat, from: nat, block: seq<seq<nat>>, rest: seq<seq<nat>>)
    requires sizes != [] && v < sizes[0] && m == ProductOf(sizes[1..]) && from == v * m
    requires |block| == m && CountsUp(rest, sizes, from + m)
    requires forall k {:trigger block[k]} :: 0 <= k < m ==> block[k] == [v] + Digits(sizes[1..], k)
    ensures CountsUp(block + rest, sizes, from)
  {
    forall k | 0 <= k < |block + rest| ensures (block + rest)[k] == Digits(sizes, from + k) {
      if k < m {
        FirstBlock(sizes, v, k);
      } else {
        assert (block + rest)[k] == rest[k - m];
      }
    }
  }

  lemma {:induction false} CrossFromIs(sizes: seq<nat>, v: nat, m: nat)
    requires sizes != [] && v <= sizes[0] && m == ProductOf(sizes[1..])
    requires |Cross(sizes[1..])| == m
    requires forall k {:trigger Cross(sizes[1..])[k]} :: 0 <= k < m ==> Cross(sizes[1..])[k] == Digits(sizes[1..], k)
    ensures CountsUp(CrossFrom(sizes, v), sizes, v * m)
    decreases sizes[0] - v
  {
    if v < sizes[0] {
      CrossFromIs(sizes, v + 1, m);
      OneMoreBlock(v, m);
      BlockThenRest(sizes, v, m, v * m, Prefixed(v, Cross(sizes[1..])), CrossFrom(sizes, v + 1));
    }
  }

  /** The cross product is the combinations in numeric order: as many as the product of the sizes, the k-th being k. */
  lemma {:induction false} CrossIs(sizes: seq<nat>)
    ensures CountsUp(Cross(sizes), sizes, 0)
    decreases |sizes|
  {
    if sizes != [] {
      CrossIs(sizes[1..]);
      CrossFromIs(sizes, 0, ProductOf(sizes[1..]));
    }
  }

  /** Numbering and digits are inverse. */
  lemma {:induction false} DigitsRank(sizes: seq<nat>, k: nat)
    requires k < ProductOf(sizes)
    ensures Fits(Digits(sizes, k), sizes) && Rank(Digits(sizes, k), sizes) == k
    decreases |sizes|
  {
    if sizes != [] {
      var m := ProductOf(sizes[1..]);
      DivMod(k, m, sizes[0]);
      DigitsRank(sizes[1..], k % m);
      assert Digits(sizes, k)[1..] == Digits(sizes[1..], k % m);
    }
  }

  lemma {:induction false} RankDigits(combo: seq<nat>, sizes: seq<nat>)
    requires Fits(combo, sizes)
    ensures Rank(combo, sizes) < ProductOf(sizes) && Digits(sizes, Rank(combo, sizes)) == combo
    decreases |sizes|
  {
    if sizes != [] {
      var m := ProductOf(sizes[1..]);
      RankDigits(combo[1..], sizes[1..]);
      FirstBlock(sizes, combo[0], Rank(combo[1..], sizes[1..]));
      assert combo == [combo[0]] + combo[1..];
    }
  }

  /** Earlier at the first place where two combinations differ. */
  predicate LexLess(a: seq<nat>, b: seq<nat>)
    requires |a| == |b|
  {
    a != [] && (a[0] < b[0] || (a[0] == b[0] && LexLess(a[1..], b[1..])))
  }

  /** Numeric order is lexicographic order. */
  lemma {:induction false} RankIsLexicographic(a: seq<nat>, b: seq<nat>, sizes: seq<nat>)
    requires Fits(a, sizes) && Fits(b, sizes)
    ensures Rank(a, sizes) < Rank(b, sizes) <==> LexLess(a, b)
    decreases |sizes|
  {
    if sizes != [] {
      var m := ProductOf(sizes[1..]);
      RankIsLexicographic(a[1..], b[1..], sizes[1..]);
      RankDigits(a[1..], sizes[1..]);
      RankDigits(b[1..], sizes[1..]);
      BlocksInOrder(a[0], Rank(a[1..], sizes[1..]), b[0], Rank(b[1..], sizes[1..]), m);
    }
  }

  lemma BlocksInOrder(v: nat, j: nat, w: nat, k: nat, m: nat)
    requires j < m && k < m
    ensures v * m + j < w * m + k <==> v < w || (v == w && j < k)
  {
    OneMoreBlock(v, m);
    OneMoreBlock(w, m);
    if v < w {
      MulMonotone(v + 1, w, m);
    } else if w < v {
      MulMonotone(w + 1, v, m);
    }
  }

  /** A product of two lists of sizes is numbered block by block. */
  lemma {:induction false} ProductConcat(a: seq<nat>, b: seq<nat>)
    ensures ProductOf(a + b) == ProductOf(a) * ProductOf(b)
    decreases |a|
  {
    if a == [] {
      assert a + b == b;
    } else {
      ProductConcat(a[1..], b);
      assert (a + b)[1..] == a[1..] + b;
      MulAssociative(a[0], ProductOf(a[1..]), ProductOf(b));
    }
  }

  lemma MulAssociative(a: nat, b: nat, c: nat)
    ensures a * (b * c) == (a * b) * c
  {
  }

  // ---------------------------------------------------------------- products of products

  /** The head's place value is what the rest can count. */
  lemma RankUnfolds(combo: seq<nat>, sizes: seq<nat>, rest: seq<nat>, restSizes: seq<nat>, m: nat)
    requires |combo| == |sizes| > 0 && rest == combo[1..] && restSizes == sizes[1..] && m == ProductOf(restSizes)
    ensures Rank(combo, sizes) == combo[0] * m + Rank(rest, restSizes)
  {
  }

  lemma TailOfConcat<T>(a: seq<T>, b: seq<T>)
    requires a != []
    ensures (a + b)[1..] == a[1..] + b && (a + b)[0] == a[0]
  {
  }

  lemma FitsConcat(c: seq<nat>, e: seq<nat>, a: seq<nat>, b: seq<nat>)
    requires Fits(c, a) && Fits(e, b)
    ensures Fits(c + e, a + b)
  {
  }

  /** The number of two combinations put together. */
  lemma {:induction false} RankConcat(c: seq<nat>, e: seq<nat>, a: seq<nat>, b: seq<nat>)
    requires Fits(c, a) && Fits(e, b)
    ensures Fits(c + e, a + b) && Rank(c + e, a + b) == Rank(c, a) * ProductOf(b) + Rank(e, b)
    decreases |a|
  {
    FitsConcat(c, e, a, b);
    if a == [] {
      RankBehindNothing(c, e, a, b);
    } else {
      var rest, restSizes := c[1..], a[1..];
      RankConcat(rest, e, restSizes, b);
      ProductConcat(restSizes, b);
      RankStep(c, e, a, b, rest, restSizes, ProductOf(restSizes), ProductOf(b), Rank(e, b));
    }
  }

  lemma RankBehindNothing(c: seq<nat>, e: seq<nat>, a: seq<nat>, b: seq<nat>)
    requires c == a == [] && |e| == |b|
    ensures |c + e| == |a + b| && Rank(c + e, a + b) == Rank(e, b) && Rank(c, a) == 0
  {
    assert c + e == e && a + b == b;
  }

  lemma RankStep(c: seq<nat>, e: seq<nat>, a: seq<nat>, b: seq<nat>, rest: seq<nat>, restSizes: seq<nat>,
                 m: nat, p: nat, last: nat)
    requires |c| == |a| > 0 && |e| == |b| && rest == c[1..] && restSizes == a[1..]
    requires m == ProductOf(restSizes) && ProductOf(restSizes + b) == m * p
    requires Rank(rest + e, restSizes + b) == Rank(rest, restSizes) * p + last
    ensures Rank(c + e, a + b) == Rank(c, a) * p + last
  {
    TailOfConcat(c, e);
    TailOfConcat(a, b);
    RankUnfolds(c + e, a + b, rest + e, restSizes + b, m * p);
    RankUnfolds(c, a, rest, restSizes, m);
    PutTogether(c[0], m, Rank(rest, restSizes), p, m * p, last, Rank(rest + e, restSizes + b), Rank(c, a),
                Rank(c + e, a + b));
  }

  lemma Distribute(v: nat, m: nat, r: nat, p: nat)
    ensures v * (m * p) + r * p == (v * m + r) * p
  {
    MulAssociative(v, m, p);
  }

  lemma PutTogether(v: nat, m: nat, r: nat, p: nat, mp: nat, last: nat, rest: nat, front: nat, whole: nat)
    requires mp == m * p && rest == r * p + last && front == v * m + r && whole == v * mp + rest
    ensures whole == front * p + last
  {
    Distribute(v, m, r, p);
  }

  /** Place j of block i of a product of products is combination i, then combination j. */
  lemma DigitsConcat(a: seq<nat>, b: seq<nat>, k: nat, i: nat, j: nat)
    requires i < ProductOf(a) && j < ProductOf(b) && k == i * ProductOf(b) + j
    ensures k < ProductOf(a + b) && Digits(a + b, k) == Digits(a, i) + Digits(b, j)
  {
    DigitsRank(a, i);
    DigitsRank(b, j);
    DigitsOfRank(Digits(a, i), Digits(b, j), a, b, k);
  }

  lemma DigitsOfRank(c: seq<nat>, e: seq<nat>, a: seq<nat>, b: seq<nat>, k: nat)
    requires Fits(c, a) && Fits(e, b) && k == Rank(c, a) * ProductOf(b) + Rank(e, b)
    ensures k < ProductOf(a + b) && Digits(a + b, k) == c + e
  {
    RankConcat(c, e, a, b);
    RankDigits(c + e, a + b);
  }

  predicate AllFit(combos: seq<seq<nat>>, sizes: seq<nat>) {
    forall k {:trigger combos[k]} :: 0 <= k < |combos| ==> Fits(combos[k], sizes)
  }

  lemma CrossFits(sizes: seq<nat>)
    ensures AllFit(Cross(sizes), sizes) && |Cross(sizes)| == ProductOf(sizes)
  {
    CrossIs(sizes);
    forall k | 0 <= k < |Cross(sizes)| ensures Fits(Cross(sizes)[k], sizes) {
      DigitsRank(sizes, 0 + k);
    }
  }

  lemma {:induction false} ProductPositive(sizes: seq<nat>)
    requires forall i {:trigger sizes[i]} :: 0 <= i < |sizes| ==> sizes[i] > 0
    ensures ProductOf(sizes) > 0
    decreases |sizes|
  {
    if sizes != [] {
      ProductPositive(sizes[1..]);
      MulMonotone(1, sizes[0], ProductOf(sizes[1..]));
    }
  }

  method Multiply(sizes: seq<nat>) returns (product: nat)
    ensures product == ProductOf(sizes)
  {
    product := 1;
    for i := 0 to |sizes|
      invariant product == ProductOf(sizes[..i])
    {
      TakeOneMore(sizes, i);
      ProductConcat(sizes[..i], [sizes[i]]);
      assert ProductOf([sizes[i]]) == sizes[i] by {
        assert [sizes[i]][1..] == [];
      }
      product := product * sizes[i];
    }
    TakeAll(sizes);
  }

  // ---------------------------------------------------------------- blocks of equal length

  predicate Uniform<T>(groups: seq<seq<T>>, m: nat) {
    forall i {:trigger groups[i]} :: 0 <= i < |groups| ==> |groups[i]| == m
  }

  lemma {:induction false} UniformLength<T>(groups: seq<seq<T>>, n: nat, m: nat)
    requires n <= |groups| && Uniform(groups, m)
    ensures |Concat(groups, n)| == n * m
    decreases n
  {
    if n > 0 {
      UniformLength(groups, n - 1, m);
      OneMoreBlock(n - 1, m);
    }
  }

  /** Entry j of group i is entry k of them all. */
  lemma {:induction false} UniformAt<T>(groups: seq<seq<T>>, n: nat, m: nat, i: nat, j: nat, k: nat)
    requires i < n <= |groups| && Uniform(groups, m) && j < m && k == i * m + j
    ensures k < |Concat(groups, n)| && Concat(groups, n)[k] == groups[i][j]
    decreases n
  {
    UniformLength(groups, n, m);
    UniformLength(groups, n - 1, m);
    InBlock(i, n, m, j);
    if i < n - 1 {
      UniformAt(groups, n - 1, m, i, j, k);
    }
  }

  /** The block an index falls in, and its place there. */
  lemma SplitIndex(k: nat, m: nat, n: nat) returns (i: nat, j: nat)
    requires k < n * m
    ensures i < n && j < m && k == i * m + j
  {
    DivMod(k, m, n);
    i, j := k / m, k % m;
  }

  /** Different combinations have different numbers. */
  lemma DifferentRanks(sizes: seq<nat>, a: seq<nat>, b: seq<nat>)
    requires Fits(a, sizes) && Fits(b, sizes) && a != b
    ensures Rank(a, sizes) != Rank(b, sizes)
  {
    RankDigits(a, sizes);
    RankDigits(b, sizes);
  }
}
