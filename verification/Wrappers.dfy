/** Small failure-compatible and sequence helpers shared by the modules. */
module Wrappers {
  datatype Option<+T> = None | Some(value: T)

  datatype Result<+T, +E> = Ok(value: T) | Err(error: E)

  /** The value a dictionary holds at a key, if any. */
  function Lookup<K, T>(m: map<K, T>, k: K): Option<T> {
    if k in m then Some(m[k]) else None
  }

  /** Taking one element more of a sequence. */
  lemma TakeOneMore<T>(s: seq<T>, i: nat)
    requires i < |s|
    ensures s[..i + 1] == s[..i] + [s[i]]
  {
  }

  /** A nonempty sequence is its front and its last element. */
  lemma FrontAndLast<T>(s: seq<T>)
    requires s != []
    ensures s == s[..|s| - 1] + [s[|s| - 1]]
  {
  }

  lemma AppendSlices<T>(a: seq<T>, b: seq<T>)
    ensures (a + b)[..|a|] == a && (a + b)[|a|..] == b
  {
  }

  lemma DropDrop<T>(s: seq<T>, i: nat, j: nat)
    requires i + j <= |s|
    ensures s[i..][j..] == s[i + j..]
    ensures s[i..][..j] == s[i..i + j]
  {
  }

  lemma Reassociate<T>(a: seq<T>, b: seq<T>, c: seq<T>)
    ensures (a + b) + c == a + (b + c)
  {
  }

  lemma TakeAll<T>(s: seq<T>)
    ensures s[..|s|] == s
  {
  }

  lemma SameMap<K, T>(a: map<K, T>, b: map<K, T>)
    requires a.Keys == b.Keys && forall k {:trigger a[k]} :: k in a ==> a[k] == b[k]
    ensures a == b
  {
  }

  /** A sequence that agrees with another and has one element more. */
  lemma GrownByOne<T>(longer: seq<T>, s: seq<T>, x: T)
    requires |longer| == |s| + 1 && longer[|s|] == x
    requires forall i {:trigger longer[i]} :: 0 <= i < |s| ==> longer[i] == s[i]
    ensures longer == s + [x]
  {
  }

  lemma SameElements<T>(a: seq<T>, b: seq<T>)
    requires |a| == |b| && forall i {:trigger a[i]} :: 0 <= i < |a| ==> a[i] == b[i]
    ensures a == b
  {
  }

  /** The first n groups, one after the other. */
  function Concat<T>(groups: seq<seq<T>>, n: nat): seq<T>
    requires n <= |groups|
  {
    if n == 0 then [] else Concat(groups, n - 1) + groups[n - 1]
  }

  /** What is in the concatenation is in some group. */
  lemma {:induction false} ConcatMembers<T>(groups: seq<seq<T>>, n: nat, x: T)
    requires n <= |groups|
    ensures x in Concat(groups, n) <==> exists i {:trigger groups[i]} :: 0 <= i < n && x in groups[i]
    decreases n
  {
    if n > 0 {
      ConcatMembers(groups, n - 1, x);
    }
  }

  lemma {:induction false} ConcatPrefix<T>(a: seq<seq<T>>, b: seq<seq<T>>, n: nat)
    requires n <= |a|
    ensures Concat(a + b, n) == Concat(a, n)
    decreases n
  {
    if n > 0 {
      ConcatPrefix(a, b, n - 1);
    }
  }

  /** Groups put together concatenate to the concatenations put together. */
  lemma {:induction false} ConcatOfBoth<T>(a: seq<seq<T>>, b: seq<seq<T>>, n: nat)
    requires n <= |b|
    ensures Concat(a + b, |a| + n) == Concat(a, |a|) + Concat(b, n)
    decreases n
  {
    if n == 0 {
      ConcatPrefix(a, b, |a|);
    } else {
      ConcatOfBoth(a, b, n - 1);
      Reassociate(Concat(a, |a|), Concat(b, n - 1), b[n - 1]);
    }
  }
}
