/** Chains of an edge relation, extended one element at a time: the level of length k + 1 from the level of length k. */
module Chains {
  import opened Wrappers

  /** A nonempty sequence of nodes whose every consecutive pair is an edge. */
  predicate Chain<T(==)>(nodes: set<T>, edge: (T, T) -> bool, path: seq<T>) {
    && path != []
    && (forall i :: 0 <= i < |path| ==> path[i] in nodes)
    && (forall i :: 0 < i < |path| ==> edge(path[i - 1], path[i]))
  }

  lemma OneLonger<T>(nodes: set<T>, edge: (T, T) -> bool, path: seq<T>, c: T)
    requires path != []
    ensures Chain(nodes, edge, path + [c]) <==> Chain(nodes, edge, path) && c in nodes && edge(path[|path| - 1], c)
  {
    var longer := path + [c];
    if Chain(nodes, edge, longer) {
      forall i | 0 <= i < |path| ensures path[i] in nodes && (i > 0 ==> edge(path[i - 1], path[i])) {
        assert longer[i] == path[i];
        assert i > 0 ==> edge(longer[i - 1], longer[i]);
      }
      assert edge(longer[|path| - 1], longer[|path|]);
    }
  }

  /** The extensions of a path to those of the candidates that it has an edge to, in order. */
  function Extensions<T>(edge: (T, T) -> bool, path: seq<T>, cs: seq<T>): seq<seq<T>>
    requires path != []
  {
    if cs == [] then []
    else Extensions(edge, path, cs[..|cs| - 1])
         + (if edge(path[|path| - 1], cs[|cs| - 1]) then [path + [cs[|cs| - 1]]] else [])
  }

  lemma ExtensionsOneMore<T>(edge: (T, T) -> bool, path: seq<T>, cs: seq<T>, i: nat)
    requires path != [] && i < |cs|
    ensures Extensions(edge, path, cs[..i + 1])
         == Extensions(edge, path, cs[..i]) + (if edge(path[|path| - 1], cs[i]) then [path + [cs[i]]] else [])
  {
    assert cs[..i + 1][..i] == cs[..i];
  }

  lemma {:induction false} ExtensionsAre<T>(edge: (T, T) -> bool, path: seq<T>, cs: seq<T>, q: seq<T>)
    requires path != []
    ensures q in Extensions(edge, path, cs)
       <==> |q| == |path| + 1 && q[..|path|] == path && q[|path|] in cs && edge(path[|path| - 1], q[|path|])
  {
    if cs != [] {
      var init, c := cs[..|cs| - 1], cs[|cs| - 1];
      FrontAndLast(cs);
      ExtensionsAre(edge, path, init, q);
      if |q| == |path| + 1 && q[..|path|] == path && q[|path|] == c {
        FrontAndLast(q);
      }
    }
  }

  /** The extensions of one path to its successors. */
  function PathExtensions<T>(edge: (T, T) -> bool, successors: map<T, seq<T>>, p: seq<T>): seq<seq<T>> {
    if p != [] && p[|p| - 1] in successors then Extensions(edge, p, successors[p[|p| - 1]]) else []
  }

  /** The extensions of every path to its successors, in order. */
  function NextPaths<T>(edge: (T, T) -> bool, successors: map<T, seq<T>>, paths: seq<seq<T>>): seq<seq<T>>
  {
    if paths == [] then []
    else
      NextPaths(edge, successors, paths[..|paths| - 1]) + PathExtensions(edge, successors, paths[|paths| - 1])
  }

  lemma NextPathsOneMore<T>(edge: (T, T) -> bool, successors: map<T, seq<T>>, paths: seq<seq<T>>, i: nat)
    requires i < |paths| && paths[i] != [] && paths[i][|paths[i]| - 1] in successors
    ensures NextPaths(edge, successors, paths[..i + 1])
         == NextPaths(edge, successors, paths[..i])
            + Extensions(edge, paths[i], successors[paths[i][|paths[i]| - 1]])
  {
    assert paths[..i + 1][..i] == paths[..i];
  }

  lemma PathExtensionsAre<T>(edge: (T, T) -> bool, successors: map<T, seq<T>>, p: seq<T>, q: seq<T>)
    ensures q in PathExtensions(edge, successors, p)
       <==> |q| >= 2 && q[..|q| - 1] == p && q[|q| - 2] in successors
            && q[|q| - 1] in successors[q[|q| - 2]] && edge(q[|q| - 2], q[|q| - 1])
  {
    if p != [] && p[|p| - 1] in successors {
      ExtensionsAre(edge, p, successors[p[|p| - 1]], q);
    }
  }

  lemma {:induction false} NextPathsAre<T>(edge: (T, T) -> bool, successors: map<T, seq<T>>, paths: seq<seq<T>>,
                                           q: seq<T>)
    ensures q in NextPaths(edge, successors, paths)
       <==> |q| >= 2 && q[..|q| - 1] in paths && q[|q| - 2] in successors
            && q[|q| - 1] in successors[q[|q| - 2]] && edge(q[|q| - 2], q[|q| - 1])
  {
    if paths != [] {
      var init, p := paths[..|paths| - 1], paths[|paths| - 1];
      FrontAndLast(paths);
      NextPathsAre(edge, successors, init, q);
      PathExtensionsAre(edge, successors, p, q);
    }
  }

  /** Exactly the chains of k elements. */
  ghost predicate ExactLevel<T(!new)>(nodes: set<T>, edge: (T, T) -> bool, paths: seq<seq<T>>, k: nat) {
    forall path :: path in paths <==> |path| == k && Chain(nodes, edge, path)
  }

  /** Edges lead from a node to one of its listed successors. */
  ghost predicate Follows<T(!new)>(nodes: set<T>, edge: (T, T) -> bool, successors: map<T, seq<T>>) {
    && successors.Keys == nodes
    && (forall v, c {:trigger c in successors[v]} :: v in successors && c in successors[v] ==> c in nodes)
    && (forall v, c {:trigger edge(v, c)} :: edge(v, c) && v in nodes && c in nodes ==> c in successors[v])
  }

  /** Every path is nonempty and ends in a node. */
  ghost predicate EndIn<T>(nodes: set<T>, paths: seq<seq<T>>) {
    forall p :: p in paths ==> p != [] && p[|p| - 1] in nodes
  }

  lemma EndOf<T>(nodes: set<T>, paths: seq<seq<T>>, i: nat)
    requires EndIn(nodes, paths) && i < |paths|
    ensures paths[i] != [] && paths[i][|paths[i]| - 1] in nodes
  {
  }

  lemma ChainsEndIn<T(!new)>(nodes: set<T>, edge: (T, T) -> bool, paths: seq<seq<T>>, k: nat)
    requires ExactLevel(nodes, edge, paths, k)
    ensures EndIn(nodes, paths)
  {
  }

  /** Extending exactly the chains of k elements gives exactly the chains of k + 1. */
  lemma NextLevelIsExact<T(!new)>(nodes: set<T>, edge: (T, T) -> bool, successors: map<T, seq<T>>, paths: seq<seq<T>>,
                                  k: nat)
    requires k >= 1 && ExactLevel(nodes, edge, paths, k) && Follows(nodes, edge, successors)
    ensures ExactLevel(nodes, edge, NextPaths(edge, successors, paths), k + 1)
  {
    var next := NextPaths(edge, successors, paths);
    forall q
      ensures q in next <==> |q| == k + 1 && Chain(nodes, edge, q)
    {
      NextPathsAre(edge, successors, paths, q);
      if |q| >= 2 {
        var p, c := q[..|q| - 1], q[|q| - 1];
        FrontAndLast(q);
        OneLonger(nodes, edge, p, c);
        assert p[|p| - 1] == q[|q| - 2];
      }
    }
  }

  /** The chains of one element are the nodes. */
  lemma SingletonLevel<T(!new)>(nodes: set<T>, edge: (T, T) -> bool, listed: seq<T>, paths: seq<seq<T>>)
    requires forall v :: v in listed <==> v in nodes
    requires |paths| == |listed| && forall i :: 0 <= i < |paths| ==> paths[i] == [listed[i]]
    ensures ExactLevel(nodes, edge, paths, 1)
  {
    forall path
      ensures path in paths <==> |path| == 1 && Chain(nodes, edge, path)
    {
      if |path| == 1 && Chain(nodes, edge, path) {
        assert path[0] in nodes;
        var i :| 0 <= i < |listed| && listed[i] == path[0];
        assert paths[i] == path;
      }
      if path in paths {
        var i :| 0 <= i < |paths| && paths[i] == path;
        assert listed[i] in listed;
      }
    }
  }

  ghost predicate NoChains<T(!new)>(nodes: set<T>, edge: (T, T) -> bool, k: nat) {
    forall path :: Chain(nodes, edge, path) ==> |path| != k
  }

  /** Any front part of a chain is a chain, so beyond an empty level there is nothing. */
  lemma {:induction false} NothingBeyondEmpty<T(!new)>(nodes: set<T>, edge: (T, T) -> bool, path: seq<T>, k: nat)
    requires NoChains(nodes, edge, k) && k >= 1 && Chain(nodes, edge, path)
    ensures |path| < k
    decreases |path|
  {
    if |path| > k {
      FrontAndLast(path);
      OneLonger(nodes, edge, path[..|path| - 1], path[|path| - 1]);
      NothingBeyondEmpty(nodes, edge, path[..|path| - 1], k);
    }
  }
}
