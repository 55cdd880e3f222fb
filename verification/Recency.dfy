/** Recency lists: the distinct keys of a history of uses, least recently used first, and what cutting them keeps. */
module Recency {
  import opened Wrappers

  function LastOf<T>(s: seq<T>, n: nat): seq<T> {
    if |s| <= n then s else s[|s| - n..]
  }

  function Without<T(==)>(s: seq<T>, x: T): seq<T> {
    if s == [] then []
    else Without(s[..|s| - 1], x) + if s[|s| - 1] == x then [] else [s[|s| - 1]]
  }

  /** The distinct keys of a history of uses, least recently used first. */
  function ByRecency<T(==)>(used: seq<T>): seq<T> {
    if used == [] then []
    else Without(ByRecency(used[..|used| - 1]), used[|used| - 1]) + [used[|used| - 1]]
  }

  /** The last use of a key in a history, one past it; 0 if it was never used. */
  function LastUse<T(==)>(used: seq<T>, k: T): (n: nat)
    ensures n <= |used| && (n == 0 <==> k !in used)
  {
    if used == [] then 0 else if used[|used| - 1] == k then |used| else LastUse(used[..|used| - 1], k)
  }

  predicate SortedByLastUse<T(==)>(keys: seq<T>, used: seq<T>) {
    forall i, j {:trigger keys[i], keys[j]} :: 0 <= i < j < |keys| ==> LastUse(used, keys[i]) < LastUse(used, keys[j])
  }

  lemma {:induction false} WithoutMembers<T>(s: seq<T>, x: T)
    ensures forall y :: y in Without(s, x) <==> y in s && y != x
  {
    if s != [] {
      WithoutMembers(s[..|s| - 1], x);
      FrontAndLast(s);
    }
  }

  lemma {:induction false} WithoutConcat<T>(a: seq<T>, b: seq<T>, x: T)
    ensures Without(a + b, x) == Without(a, x) + Without(b, x)
  {
    if b == [] {
      assert a + b == a;
    } else {
      WithoutConcat(a, b[..|b| - 1], x);
      assert (a + b)[..|a + b| - 1] == a + b[..|b| - 1];
      assert (a + b)[|a + b| - 1] == b[|b| - 1];
    }
  }

  lemma SnocSorted<T>(keys: seq<T>, k: T, used: seq<T>)
    requires SortedByLastUse(keys, used) && forall y :: y in keys ==> LastUse(used, y) < LastUse(used, k)
    ensures SortedByLastUse(keys + [k], used)
  {
  }

  lemma FrontSorted<T>(keys: seq<T>, used: seq<T>)
    requires keys != [] && SortedByLastUse(keys, used)
    ensures SortedByLastUse(keys[..|keys| - 1], used)
    ensures forall y :: y in keys[..|keys| - 1] ==> LastUse(used, y) < LastUse(used, keys[|keys| - 1])
  {
  }

  lemma {:induction false} WithoutKeepsOrder<T>(keys: seq<T>, x: T, used: seq<T>)
    requires SortedByLastUse(keys, used)
    ensures SortedByLastUse(Without(keys, x), used)
  {
    if keys != [] {
      var front := keys[..|keys| - 1];
      FrontSorted(keys, used);
      WithoutKeepsOrder(front, x, used);
      WithoutMembers(front, x);
      if keys[|keys| - 1] != x {
        SnocSorted(Without(front, x), keys[|keys| - 1], used);
      }
    }
  }

  /** A use of another key leaves the last uses of these as they were. */
  lemma LaterUse<T>(keys: seq<T>, front: seq<T>, k: T)
    requires SortedByLastUse(keys, front) && k !in keys
    ensures SortedByLastUse(keys, front + [k])
    ensures forall y :: y in keys ==> LastUse(front + [k], y) < LastUse(front + [k], k)
  {
    assert (front + [k])[..|front|] == front;
    assert forall y {:trigger LastUse(front + [k], y)} :: y != k ==> LastUse(front + [k], y) == LastUse(front, y);
  }

  /** Recency, independently: the keys are those of the history, in the order of their last uses (so distinct). */
  lemma {:induction false} ByRecencyMeans<T>(used: seq<T>)
    ensures SortedByLastUse(ByRecency(used), used)
    ensures forall k :: k in ByRecency(used) <==> k in used
  {
    if used != [] {
      var front, last := used[..|used| - 1], used[|used| - 1];
      ByRecencyMeans(front);
      WithoutMembers(ByRecency(front), last);
      WithoutKeepsOrder(ByRecency(front), last, front);
      LaterUse(Without(ByRecency(front), last), front, last);
      FrontAndLast(used);
      SnocSorted(Without(ByRecency(front), last), last, used);
    }
  }

  /** Sorted keys are distinct, so removing one shortens by one. */
  lemma {:induction false} OneLess<T>(keys: seq<T>, k: T, used: seq<T>)
    requires SortedByLastUse(keys, used)
    ensures |Without(keys, k)| == |keys| - if k in keys then 1 else 0
  {
    if keys != [] {
      FrontSorted(keys, used);
      OneLess(keys[..|keys| - 1], k, used);
      FrontAndLast(keys);
    }
  }

  lemma LastOfAppend<T>(a: seq<T>, b: seq<T>, n: nat)
    requires |b| >= n
    ensures LastOf(a + b, n) == LastOf(b, n)
  {
  }

  lemma LastOfSorted<T>(keys: seq<T>, used: seq<T>, n: nat)
    requires SortedByLastUse(keys, used)
    ensures SortedByLastUse(LastOf(keys, n), used)
  {
  }

  lemma UseAfterDrop<T>(older: seq<T>, newer: seq<T>, k: T, n: nat)
    requires |Without(newer, k)| + 1 >= n
    ensures LastOf(Without(newer, k) + [k], n) == LastOf(Without(older + newer, k) + [k], n)
  {
    WithoutConcat(older, newer, k);
    Reassociate(Without(older, k), Without(newer, k), [k]);
    LastOfAppend(Without(older, k), Without(newer, k) + [k], n);
  }

  lemma SplitLast<T>(s: seq<T>, n: nat)
    requires |s| > n
    ensures s == s[..|s| - n] + LastOf(s, n)
  {
  }

  /** Cutting a recency list to its bound commutes with a use: only the most recent keys matter. */
  lemma UseAfterCut<T>(used: seq<T>, k: T, n: nat)
    requires n > 0
    ensures LastOf(Without(LastOf(ByRecency(used), n), k) + [k], n) == LastOf(ByRecency(used + [k]), n)
  {
    var recent := ByRecency(used);
    assert (used + [k])[..|used|] == used;
    if |recent| > n {
      ByRecencyMeans(used);
      LastOfSorted(recent, used, n);
      OneLess(LastOf(recent, n), k, used);
      SplitLast(recent, n);
      UseAfterDrop(recent[..|recent| - n], LastOf(recent, n), k, n);
    }
  }
}
