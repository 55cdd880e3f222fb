/** Two lossless encodings of a hard mask: its runs, and its bits packed into base 64. */
module Masks {
  import opened Base64
  import opened Wrappers

  datatype Encoded = Ranges(pairs: seq<(nat, nat)>) | Bitset(data: string, unitCount: nat)

  /** The mask padded with a false at either end, read at position i. */
  function At(values: seq<bool>, i: int): bool {
    0 <= i < |values| && values[i]
  }

  // ---------------------------------------------------------------- runs

  /** The positions below b where the padded mask changes. */
  function Boundaries(values: seq<bool>, b: nat): seq<nat> {
    if b == 0 then []
    else Boundaries(values, b - 1) + if At(values, b - 2) != At(values, b - 1) then [(b - 1) as nat] else []
  }

  /** Read in pairs. */
  function Paired(boundaries: seq<nat>): seq<(nat, nat)> {
    seq(|boundaries| / 2, k requires 0 <= k < |boundaries| / 2 => (boundaries[2 * k], boundaries[2 * k + 1]))
  }

  function Runs(values: seq<bool>): seq<(nat, nat)> {
    Paired(Boundaries(values, |values| + 1))
  }

  predicate Increasing(s: seq<nat>, bound: nat) {
    && (forall i {:trigger s[i]} :: 0 <= i < |s| ==> s[i] < bound)
    && (forall i, j {:trigger s[i], s[j]} :: 0 <= i < j < |s| ==> s[i] < s[j])
  }

  /** The boundaries below b increase, and there is an odd number of them exactly inside a run. */
  lemma {:induction false} BoundariesAlternate(values: seq<bool>, b: nat)
    ensures Increasing(Boundaries(values, b), b)
    ensures |Boundaries(values, b)| % 2 == 1 <==> At(values, b - 1)
    decreases b
  {
    if b > 0 {
      BoundariesAlternate(values, b - 1);
    }
  }

  lemma {:induction false} BoundariesGrow(values: seq<bool>, b: nat, c: nat)
    requires b <= c
    ensures Boundaries(values, b) <= Boundaries(values, c)
    ensures |Boundaries(values, b)| < |Boundaries(values, c)| ==> Boundaries(values, c)[|Boundaries(values, b)|] >= b
    decreases c
  {
    if b < c {
      BoundariesGrow(values, b, c - 1);
    }
  }

  /** There is a boundary at a position exactly where the padded mask changes. */
  lemma {:induction false} BoundaryIsChange(values: seq<bool>, b: nat, p: nat)
    ensures p in Boundaries(values, b) <==> p < b && At(values, p - 1) != At(values, p)
    decreases b
  {
    if b > 0 {
      BoundaryIsChange(values, b - 1, p);
    }
  }

  predicate InPair(pair: (nat, nat), i: nat) {
    pair.0 <= i < pair.1
  }

  predicate InRanges(pairs: seq<(nat, nat)>, i: nat) {
    exists k {:trigger pairs[k]} :: 0 <= k < |pairs| && InPair(pairs[k], i)
  }

  /** c of the increasing positions are at or before i. */
  lemma CountIs(s: seq<nat>, bound: nat, i: nat, c: nat, j: nat)
    requires Increasing(s, bound) && c <= |s| && (c > 0 ==> s[c - 1] <= i) && (c < |s| ==> i < s[c]) && j < |s|
    ensures s[j] <= i <==> j < c
  {
  }

  /** Pairs of increasing boundaries hold a position exactly when an odd number of boundaries is at or before it. */
  lemma PairsByParity(s: seq<nat>, bound: nat, i: nat, c: nat)
    requires Increasing(s, bound) && |s| % 2 == 0 && c <= |s|
    requires (c > 0 ==> s[c - 1] <= i) && (c < |s| ==> i < s[c])
    ensures InRanges(Paired(s), i) <==> c % 2 == 1
  {
    if c % 2 == 1 {
      assert InPair(Paired(s)[c / 2], i);
    }
    if k :| 0 <= k < |Paired(s)| && InPair(Paired(s)[k], i) {
      CountIs(s, bound, i, c, 2 * k);
      CountIs(s, bound, i, c, 2 * k + 1);
    }
  }

  /** The boundaries below b come first among all of them. */
  lemma BoundariesSplit(values: seq<bool>, b: nat, n: nat)
    requires b <= n
    ensures var c, all := |Boundaries(values, b)|, Boundaries(values, n);
            c <= |all| && (c > 0 ==> all[c - 1] < b) && (c < |all| ==> b <= all[c])
  {
    BoundariesGrow(values, b, n);
    BoundariesAlternate(values, b);
    var before, all := Boundaries(values, b), Boundaries(values, n);
    assert before != [] ==> all[|before| - 1] == before[|before| - 1];
  }

  /** How many boundaries are at or before a position. */
  lemma CountBefore(values: seq<bool>, i: nat) returns (c: nat)
    ensures var all := Boundaries(values, |values| + 1);
            && c <= |all| && (c > 0 ==> all[c - 1] <= i) && (c < |all| ==> i < all[c])
            && (c % 2 == 1 <==> At(values, i))
  {
    var n := |values| + 1;
    var here := if i + 1 <= n then i + 1 else n;
    BoundariesAlternate(values, here);
    BoundariesSplit(values, here, n);
    c := |Boundaries(values, here)|;
  }

  /** A position is set exactly when it lies in one of the runs. */
  lemma RunsDecode(values: seq<bool>, i: nat)
    ensures |Boundaries(values, |values| + 1)| % 2 == 0
    ensures InRanges(Runs(values), i) <==> At(values, i)
  {
    BoundariesAlternate(values, |values| + 1);
    var c := CountBefore(values, i);
    PairsByParity(Boundaries(values, |values| + 1), |values| + 1, i, c);
  }

  predicate RunAt(values: seq<bool>, runs: seq<(nat, nat)>, k: nat)
    requires k < |runs|
  {
    var start: int, end: int := runs[k].0, runs[k].1;
    && start < end <= |values| && !At(values, start - 1) && At(values, start) && At(values, end - 1) && !At(values, end)
    && (k + 1 < |runs| ==> end < runs[k + 1].0)
  }

  /** The runs are nonempty, in order, apart from each other, and cannot be extended on either side. */
  lemma RunsAreMaximal(values: seq<bool>, k: nat)
    requires k < |Runs(values)|
    ensures RunAt(values, Runs(values), k)
  {
    var all := Boundaries(values, |values| + 1);
    BoundariesAlternate(values, |values| + 1);
    BorderAt(values, 2 * k);
    BorderAt(values, 2 * k + 1);
  }

  /** At an even boundary a run begins, at an odd one it ends. */
  lemma BorderAt(values: seq<bool>, j: nat)
    requires j < |Boundaries(values, |values| + 1)|
    ensures var p: int := Boundaries(values, |values| + 1)[j];
            if j % 2 == 0 then !At(values, p - 1) && At(values, p) else At(values, p - 1) && !At(values, p)
  {
    var n := |values| + 1;
    var all := Boundaries(values, n);
    var p := all[j];
    BoundariesAlternate(values, n);
    BoundaryIsChange(values, n, p);
    BoundariesAlternate(values, p);
    BoundariesGrow(values, p, n);
    PlaceInOrder(all, n, |Boundaries(values, p)|, j, Boundaries(values, p));
  }

  /** The position that follows all smaller ones sits at their number. */
  lemma PlaceInOrder(all: seq<nat>, bound: nat, b: nat, j: nat, before: seq<nat>)
    requires Increasing(all, bound) && j < |all| && before <= all && b == |before|
    requires Increasing(before, all[j]) && (b < |all| ==> all[b] >= all[j])
    ensures b == j
  {
  }

  // ---------------------------------------------------------------- bits

  /** The low eight values of a list as a byte, the first in the lowest bit; what is missing is zero. */
  function ByteOf(bits: seq<bool>, n: nat): (b: nat)
    requires n <= 8
    ensures b < Power(n)
  {
    if n == 0 then 0
    else (if bits != [] && bits[0] then 1 else 0) + 2 * ByteOf(if bits == [] then [] else bits[1..], n - 1)
  }

  function Power(n: nat): (p: nat)
    ensures p > 0
  {
    if n == 0 then 1 else 2 * Power(n - 1)
  }

  function BitOf(b: nat, j: nat): bool {
    if j == 0 then b % 2 == 1 else BitOf(b / 2, j - 1)
  }

  lemma {:induction false} BitOfByte(bits: seq<bool>, n: nat, j: nat)
    requires j < n <= 8
    ensures BitOf(ByteOf(bits, n), j) == (j < |bits| && bits[j])
    decreases n
  {
    var rest := if bits == [] then [] else bits[1..];
    var b, r := ByteOf(bits, n), ByteOf(rest, n - 1);
    assert b / 2 == r;
    if j > 0 {
      BitOfByte(rest, n - 1, j - 1);
    }
  }

  /** Eight values to a byte, in order. */
  function Pack(values: seq<bool>): seq<Byte>
    decreases |values|
  {
    if values == [] then []
    else
      assert ByteOf(values, 8) < 256 by { EightBits(); }
      [ByteOf(values, 8) as Byte] + Pack(if |values| <= 8 then [] else values[8..])
  }

  lemma EightBits()
    ensures Power(8) == 256
  {
    assert Power(4) == 16;
  }

  /** Bit i of a packed list. */
  predicate BitAt(bytes: seq<Byte>, i: nat) {
    i / 8 < |bytes| && BitOf(bytes[i / 8], i % 8)
  }

  lemma {:induction false} PackedBit(values: seq<bool>, i: nat)
    ensures BitAt(Pack(values), i) <==> At(values, i)
    decreases |values|
  {
    if values != [] {
      EightBits();
      var rest := if |values| <= 8 then [] else values[8..];
      if i < 8 {
        BitOfByte(values, 8, i);
      } else {
        PackedBit(rest, i - 8);
        assert i / 8 == 1 + (i - 8) / 8 && i % 8 == (i - 8) % 8;
        assert i / 8 < |Pack(values)| ==> Pack(values)[i / 8] == Pack(rest)[(i - 8) / 8];
      }
    }
  }

  // ---------------------------------------------------------------- both encodings, and the choice

  /** What a reader makes of an encoding, given the number of units. */
  predicate DecodedAt(e: Encoded, i: nat) {
    match e
    case Ranges(pairs) => InRanges(pairs, i)
    case Bitset(data, _) => Decode(data).Some? && BitAt(Decode(data).value, i)
  }

  function Ranged(values: seq<bool>): Encoded {
    Ranges(Runs(values))
  }

  function Packed(values: seq<bool>): Encoded {
    Bitset(Encode(Pack(values)), |values|)
  }

  /** The shorter of the two, the ranges when they are equally long. */
  function EncodedMask(values: seq<bool>, length: Encoded -> nat): Encoded {
    if length(Packed(values)) < length(Ranged(values)) then Packed(values) else Ranged(values)
  }

  /** The choice is the shorter encoding, and the ranges where they are equally long. */
  lemma EncodedMaskIsShortest(values: seq<bool>, length: Encoded -> nat)
    ensures length(EncodedMask(values, length)) <= length(Ranged(values))
    ensures length(EncodedMask(values, length)) <= length(Packed(values))
    ensures EncodedMask(values, length).Ranges? <==> length(Ranged(values)) <= length(Packed(values))
  {
  }

  /** Whichever encoding is chosen, however long its text, every unit decodes to what the mask holds. */
  lemma EncodedMaskIsLossless(values: seq<bool>, length: Encoded -> nat, i: nat)
    ensures DecodedAt(EncodedMask(values, length), i) <==> i < |values| && values[i]
  {
    RunsDecode(values, i);
    RoundTrip(Pack(values));
    PackedBit(values, i);
  }
}
