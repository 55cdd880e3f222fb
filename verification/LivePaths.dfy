/**
 Live causal paths: chains of variables along which changing one variable can change the next, found level by
 level with one counterfactual trace per candidate value.
 */
module LivePaths {
  import opened Wrappers
  import opened CausalSpec
  import opened Trace
  import opened Chains

  /** A model's mechanisms, the values of input variables, and each variable's possible values. */
  datatype Setting = Setting(m: Mechanisms, inputs: map<Var, Value>, domain: map<Var, seq<Value>>)

  ghost predicate WellFormed(s: Setting) {
    && Acyclic(s.m) && NoDeferredFeeders(Model(s.m, s.inputs))
    && s.inputs.Keys <= s.m.Keys && RootsOnly(s.m, s.inputs)
    && s.m.Keys <= s.domain.Keys
  }

  /** The model as it is, and as it is with v set to x. */
  ghost function Actual(s: Setting): Model {
    Model(s.m, s.inputs)
  }

  /** Some value of v gives c another value than it actually has. */
  ghost predicate Live(s: Setting, v: Var, c: Var)
    requires WellFormed(s)
  {
    && v in s.m && c in s.m && v in s.m[c].parents
    && exists x :: x in s.domain[v] && Changes(s, v, x, c)
  }

  ghost predicate Changes(s: Setting, v: Var, x: Value, c: Var)
    requires WellFormed(s) && v in s.m
  {
    StillAcyclic(s, v, x);
    Evaluate(Intervened(Actual(s), v, x), c) != Evaluate(Actual(s), c)
  }

  lemma StillAcyclic(s: Setting, v: Var, x: Value)
    requires WellFormed(s) && v in s.m
    ensures Acyclic(Intervened(Actual(s), v, x).m)
  {
    var rank: map<Var, nat>, bound: nat :| Ranked(s.m, rank, bound);
    var after := s.m[v := Constant(x)];
    assert after.Keys == s.m.Keys && forall u :: u in after && u != v ==> after[u] == s.m[u];
    assert Ranked(after, rank, bound);
  }

  ghost function LiveEdges(s: Setting): (Var, Var) -> bool
    requires WellFormed(s)
  {
    (v, c) => Live(s, v, c)
  }

  /** A chain of variables whose every consecutive edge is live. */
  ghost predicate LiveChain(s: Setting, path: seq<Var>)
    requires WellFormed(s)
  {
    Chain(s.m.Keys, LiveEdges(s), path)
  }

  /** Testing the edge from v to c reads c in the actual run, which fails when c has no value there. */
  ghost predicate EdgeRaises(s: Setting, v: Var, c: Var)
    requires WellFormed(s) && v in s.m
  {
    s.domain[v] != [] && Evaluate(Actual(s), c) == None
  }

  ghost predicate SomeEdgeRaises(s: Setting)
    requires WellFormed(s)
  {
    exists v, c {:trigger v in s.m[c].parents} :: c in s.m && v in s.m[c].parents && v in s.m && EdgeRaises(s, v, c)
  }

  /** Given every input, no edge raises. */
  lemma NothingRaises(s: Setting)
    requires WellFormed(s) && forall v :: v in s.m && s.m[v].parents == [] ==> v in s.inputs
    ensures !SomeEdgeRaises(s)
  {
    var rank: map<Var, nat>, bound: nat :| Ranked(s.m, rank, bound);
    forall v | v in s.m ensures Evaluate(Actual(s), v).Some? {
      EveryVariableHasAValue(s, rank, bound, v);
    }
  }

  lemma {:induction false} EveryVariableHasAValue(s: Setting, rank: map<Var, nat>, bound: nat, v: Var)
    requires WellFormed(s) && Ranked(s.m, rank, bound) && v in s.m
    requires forall u :: u in s.m && s.m[u].parents == [] ==> u in s.inputs
    ensures Evaluate(Actual(s), v).Some?
    decreases rank[v]
  {
    var sol := Solution(Actual(s), true);
    forall p | p in s.m[v].parents
      ensures p in sol
    {
      EveryVariableHasAValue(s, rank, bound, p);
    }
    assert Lookup(sol, v) == Rule(Actual(s), true, sol, v);
  }

  /** A variable that has a value still has one after an intervention. */
  lemma {:induction false} StillHasAValue(s: Setting, w: Var, x: Value, rank: map<Var, nat>, bound: nat, v: Var)
    requires WellFormed(s) && Ranked(s.m, rank, bound) && v in s.m && w in s.m
    requires Evaluate(Actual(s), v).Some?
    ensures Acyclic(Intervened(Actual(s), w, x).m) && Evaluate(Intervened(Actual(s), w, x), v).Some?
    decreases rank[v]
  {
    StillAcyclic(s, w, x);
    var after := Intervened(Actual(s), w, x);
    var now, sol := Solution(Actual(s), true), Solution(after, true);
    assert Lookup(now, v) == Rule(Actual(s), true, now, v);
    assert Lookup(sol, v) == Rule(after, true, sol, v);
    if v != w {
      assert after.m[v] == s.m[v];
      forall p | p in s.m[v].parents
        ensures p in sol
      {
        assert v !in s.inputs;
        assert p in now;
        StillHasAValue(s, w, x, rank, bound, p);
      }
    }
  }

  // ---------------------------------------------------------------- the search

  /** The value of c in a counterfactual run with v set to x. */
  method ReadAfter(s: Setting, v: Var, x: Value, c: Var) returns (r: Option<Value>)
    requires WellFormed(s) && v in s.m && c in s.m
    ensures Acyclic(Intervened(Actual(s), v, x).m) && r == Evaluate(Intervened(Actual(s), v, x), c)
  {
    var t := NewTrace(s.m, s.inputs);
    StillAcyclic(s, v, x);
    var _ := t.Intervene(v, x);
    r := t.Get(c);
  }

  /** One candidate value: does setting v to x change c? It raises when c has no value in the actual run. */
  method Probe(s: Setting, actual: CausalTrace, v: Var, x: Value, c: Var) returns (changed: Option<bool>)
    requires WellFormed(s) && v in s.m && c in s.m && Faithful(s, actual)
    modifies actual`values
    ensures Faithful(s, actual)
    ensures changed == if Evaluate(Actual(s), c) == None then None else Some(Changes(s, v, x, c))
  {
    ghost var rank: map<Var, nat>, bound: nat :| Ranked(s.m, rank, bound);
    if Evaluate(Actual(s), c).Some? {
      StillHasAValue(s, v, x, rank, bound, c);
    }
    var there := ReadAfter(s, v, x, c);
    var here := actual.Get(c);
    changed := if there == None || here == None then None else Some(there != here);
  }

  /** The trace of the actual run, possibly with more lazy values cached. */
  ghost predicate Faithful(s: Setting, t: CausalTrace)
    requires WellFormed(s)
    reads t
  {
    t.Valid() && t.Meaning() == Solution(Actual(s), true)
  }

  /** Try every candidate value of v. */
  method TestEdge(s: Setting, actual: CausalTrace, v: Var, c: Var) returns (live: Option<bool>)
    requires WellFormed(s) && c in s.m && v in s.m && v in s.m[c].parents && Faithful(s, actual)
    modifies actual`values
    ensures Faithful(s, actual)
    ensures live == if EdgeRaises(s, v, c) then None else Some(Live(s, v, c))
  {
    var changes := false;
    var xs := s.domain[v];
    for i := 0 to |xs|
      invariant Faithful(s, actual) && (i > 0 ==> !EdgeRaises(s, v, c))
      invariant changes <==> exists x :: x in xs[..i] && Changes(s, v, x, c)
    {
      var changed := Probe(s, actual, v, xs[i], c);
      if changed == None {
        return None;
      }
      TakeOneMore(xs, i);
      changes := changes || changed.value;
    }
    TakeAll(xs);
    live := Some(changes);
  }

  /** A live chain climbs the ranking, so it is no longer than the ranking is high. */
  lemma {:induction false} ChainIsShort(s: Setting, rank: map<Var, nat>, bound: nat, path: seq<Var>)
    requires WellFormed(s) && Ranked(s.m, rank, bound) && LiveChain(s, path)
    ensures path[|path| - 1] in s.m && |path| <= rank[path[|path| - 1]] + 1 <= bound + 1
    decreases |path|
  {
    if |path| > 1 {
      FrontAndLast(path);
      OneLonger(s.m.Keys, LiveEdges(s), path[..|path| - 1], path[|path| - 1]);
      ChainIsShort(s, rank, bound, path[..|path| - 1]);
      assert Live(s, path[|path| - 2], path[|path| - 1]);
    } else {
      assert path[0] in s.m.Keys;
    }
  }

  /** No test of an edge from v to one of cs raises. */
  ghost predicate Tested(s: Setting, v: Var, cs: seq<Var>)
    requires WellFormed(s) && v in s.m
  {
    forall c :: c in cs ==> !EdgeRaises(s, v, c)
  }

  /** One path: append every child that it reaches live. */
  method ExtendPath(s: Setting, actual: CausalTrace, path: seq<Var>, cs: seq<Var>)
    returns (longer: Option<seq<seq<Var>>>)
    requires WellFormed(s) && Faithful(s, actual) && path != [] && path[|path| - 1] in s.m
    requires forall c :: c in cs ==> c in s.m && path[|path| - 1] in s.m[c].parents
    modifies actual`values
    ensures Faithful(s, actual)
    ensures longer == if Tested(s, path[|path| - 1], cs) then Some(Extensions(LiveEdges(s), path, cs)) else None
  {
    var found: seq<seq<Var>> := [];
    for i := 0 to |cs|
      invariant Faithful(s, actual) && Tested(s, path[|path| - 1], cs[..i])
      invariant found == Extensions(LiveEdges(s), path, cs[..i])
    {
      assert cs[i] in cs;
      var live := TestEdge(s, actual, path[|path| - 1], cs[i]);
      if live == None {
        return None;
      }
      ExtensionsOneMore(LiveEdges(s), path, cs, i);
      TakeOneMore(cs, i);
      if live.value {
        found := found + [path + [cs[i]]];
      }
    }
    TakeAll(cs);
    longer := Some(found);
  }

  /** No test of an edge out of the end of a path raises. */
  ghost predicate PathTested(s: Setting, children: map<Var, seq<Var>>, path: seq<Var>)
    requires WellFormed(s) && ChildrenOf(s.m, children)
  {
    path != [] && path[|path| - 1] in s.m && Tested(s, path[|path| - 1], children[path[|path| - 1]])
  }

  ghost predicate AllTested(s: Setting, children: map<Var, seq<Var>>, paths: seq<seq<Var>>, i: nat)
    requires WellFormed(s) && ChildrenOf(s.m, children) && i <= |paths|
  {
    forall j {:trigger paths[j]} :: 0 <= j < i ==> PathTested(s, children, paths[j])
  }

  lemma RaisesThere(s: Setting, children: map<Var, seq<Var>>, v: Var)
    requires WellFormed(s) && ChildrenOf(s.m, children) && v in s.m && !Tested(s, v, children[v])
    ensures SomeEdgeRaises(s)
  {
    var c :| c in children[v] && EdgeRaises(s, v, c);
    assert v in s.m[c].parents;
  }

  /** One path: append its live extensions to the children of its last variable v. */
  method ExtendOne(s: Setting, actual: CausalTrace, children: map<Var, seq<Var>>, path: seq<Var>, v: Var)
    returns (extensions: Option<seq<seq<Var>>>)
    requires WellFormed(s) && Faithful(s, actual) && ChildrenOf(s.m, children)
    requires path != [] && v == path[|path| - 1] && v in s.m
    modifies actual`values
    ensures Faithful(s, actual)
    ensures extensions.Some? ==>
              Tested(s, v, children[v]) && extensions.value == Extensions(LiveEdges(s), path, children[v])
    ensures extensions == None ==> SomeEdgeRaises(s)
  {
    extensions := ExtendPath(s, actual, path, children[v]);
    if extensions == None {
      RaisesThere(s, children, v);
    }
  }

  method ExtendNext(s: Setting, actual: CausalTrace, children: map<Var, seq<Var>>, paths: seq<seq<Var>>, i: nat)
    returns (extensions: Option<seq<seq<Var>>>)
    requires WellFormed(s) && Faithful(s, actual) && ChildrenOf(s.m, children)
    requires EndIn(s.m.Keys, paths) && i < |paths|
    modifies actual`values
    ensures Faithful(s, actual)
    ensures extensions.Some? ==>
              && PathTested(s, children, paths[i])
              && NextPaths(LiveEdges(s), children, paths[..i + 1])
                 == NextPaths(LiveEdges(s), children, paths[..i]) + extensions.value
    ensures extensions == None ==> SomeEdgeRaises(s)
  {
    EndOf(s.m.Keys, paths, i);
    NextPathsOneMore(LiveEdges(s), children, paths, i);
    extensions := ExtendOne(s, actual, children, paths[i], paths[i][|paths[i]| - 1]);
  }

  method ExtendAll(s: Setting, actual: CausalTrace, children: map<Var, seq<Var>>, paths: seq<seq<Var>>)
    returns (longer: Option<seq<seq<Var>>>)
    requires WellFormed(s) && Faithful(s, actual) && ChildrenOf(s.m, children)
    requires EndIn(s.m.Keys, paths)
    modifies actual`values
    ensures Faithful(s, actual)
    ensures longer.Some? ==>
              longer.value == NextPaths(LiveEdges(s), children, paths) && AllTested(s, children, paths, |paths|)
    ensures longer == None ==> SomeEdgeRaises(s)
  {
    var found: seq<seq<Var>> := [];
    for i := 0 to |paths|
      invariant Faithful(s, actual) && AllTested(s, children, paths, i)
      invariant found == NextPaths(LiveEdges(s), children, paths[..i])
    {
      var extensions := ExtendNext(s, actual, children, paths, i);
      if extensions == None {
        return None;
      }
      found := found + extensions.value;
    }
    TakeAll(paths);
    longer := Some(found);
  }

  /** The second level tests every edge. */
  lemma SinglesTestEveryEdge(s: Setting, children: map<Var, seq<Var>>, paths: seq<seq<Var>>)
    requires WellFormed(s) && ChildrenOf(s.m, children) && ExactLevel(s.m.Keys, LiveEdges(s), paths, 1)
    requires AllTested(s, children, paths, |paths|)
    ensures !SomeEdgeRaises(s)
  {
    forall v, c {:trigger v in s.m[c].parents} | c in s.m && v in s.m[c].parents && v in s.m
      ensures !EdgeRaises(s, v, c)
    {
      assert Chain(s.m.Keys, LiveEdges(s), [v]);
      var j :| 0 <= j < |paths| && paths[j] == [v];
      assert c in children[v];
    }
  }

  lemma LiveEdgesFollowChildren(s: Setting, children: map<Var, seq<Var>>)
    requires WellFormed(s) && ChildrenOf(s.m, children)
    ensures Follows(s.m.Keys, LiveEdges(s), children)
  {
  }

  // ---------------------------------------------------------------- the levels

  /** The dictionary of levels: it has the levels first .. last and each holds exactly the live chains of its length. */
  ghost predicate AllLevels(s: Setting, paths: map<nat, seq<seq<Var>>>, first: nat, last: nat)
    requires WellFormed(s)
  {
    && (forall k :: k in paths <==> first <= k <= last)
    && (forall k :: k in paths ==> ExactLevel(s.m.Keys, LiveEdges(s), paths[k], k))
  }

  lemma AddLevel(s: Setting, paths: map<nat, seq<seq<Var>>>, first: nat, last: nat, longer: seq<seq<Var>>)
    requires WellFormed(s) && AllLevels(s, paths, first, last) && first <= last + 1
    requires ExactLevel(s.m.Keys, LiveEdges(s), longer, last + 1)
    ensures AllLevels(s, paths[last + 1 := longer], first, last + 1)
  {
  }

  lemma DropSingles(s: Setting, paths: map<nat, seq<seq<Var>>>, last: nat)
    requires WellFormed(s) && AllLevels(s, paths, 1, last)
    ensures AllLevels(s, paths - {1}, 2, last)
  {
  }

  /** One turn: the next level is added to the dictionary. */
  method SearchLevel(s: Setting, actual: CausalTrace, children: map<Var, seq<Var>>,
                     before: map<nat, seq<seq<Var>>>, step: nat, ghost rank: map<Var, nat>, ghost bound: nat)
    returns (paths: Option<map<nat, seq<seq<Var>>>>)
    requires WellFormed(s) && Faithful(s, actual) && ChildrenOf(s.m, children) && Ranked(s.m, rank, bound)
    requires step >= 2 && AllLevels(s, before, 1, step - 1)
    modifies actual`values
    ensures Faithful(s, actual)
    ensures paths.Some? ==> AllLevels(s, paths.value, 1, step) && (paths.value[step] != [] ==> step <= bound + 1)
    ensures paths.Some? && step == 2 ==> !SomeEdgeRaises(s)
    ensures paths == None ==> SomeEdgeRaises(s)
  {
    LevelAfter(s, children, before, step, rank, bound);
    var longer := ExtendAll(s, actual, children, before[step - 1]);
    if longer == None {
      return None;
    }
    if step == 2 {
      SinglesTestEveryEdge(s, children, before[1]);
    }
    paths := Some(before[step := longer.value]);
  }

  /** The dictionary with the extensions of its last level added is right one level further. */
  lemma LevelAfter(s: Setting, children: map<Var, seq<Var>>, before: map<nat, seq<seq<Var>>>, step: nat,
                   rank: map<Var, nat>, bound: nat)
    requires WellFormed(s) && ChildrenOf(s.m, children) && Ranked(s.m, rank, bound)
    requires step >= 2 && AllLevels(s, before, 1, step - 1)
    ensures EndIn(s.m.Keys, before[step - 1])
    ensures var longer := NextPaths(LiveEdges(s), children, before[step - 1]);
            AllLevels(s, before[step := longer], 1, step) && (longer != [] ==> step <= bound + 1)
  {
    var longer := NextPaths(LiveEdges(s), children, before[step - 1]);
    LiveEdgesFollowChildren(s, children);
    ChainsEndIn(s.m.Keys, LiveEdges(s), before[step - 1], step - 1);
    NextLevelIsExact(s.m.Keys, LiveEdges(s), children, before[step - 1], step - 1);
    AddLevel(s, before, 1, step - 1, longer);
    if longer != [] {
      LevelBound(s, rank, bound, longer, step);
    }
  }

  /** Every length from 2 to the first without a live chain, each with exactly its live chains. */
  ghost predicate Listing(s: Setting, paths: map<nat, seq<seq<Var>>>, last: nat)
    requires WellFormed(s)
  {
    last >= 2 && AllLevels(s, paths, 2, last) && paths[last] == []
  }

  lemma ListingWithoutSingles(s: Setting, paths: map<nat, seq<seq<Var>>>, last: nat)
    requires WellFormed(s) && last >= 2 && AllLevels(s, paths, 1, last) && paths[last] == []
    ensures Listing(s, paths - {1}, last)
  {
    DropSingles(s, paths, last);
  }

  /**
   Level by level until one is empty; the empty level stays in the dictionary. It raises exactly when some edge to be
   tested leads to a variable without a value.
   */
  method FindLivePaths(s: Setting, variables: seq<Var>, children: map<Var, seq<Var>>)
    returns (found: Option<map<nat, seq<seq<Var>>>>)
    requires WellFormed(s) && ChildrenOf(s.m, children) && forall v :: v in variables <==> v in s.m
    ensures found == None <==> SomeEdgeRaises(s)
    ensures found.Some? ==> exists last :: Listing(s, found.value, last)
  {
    var actual := NewTrace(s.m, s.inputs);
    ghost var rank: map<Var, nat>, bound: nat :| Ranked(s.m, rank, bound);
    var paths: map<nat, seq<seq<Var>>> := SingleLevel(s, variables);
    var step: nat := 2;
    while true
      invariant 2 <= step <= bound + 2 && Faithful(s, actual) && AllLevels(s, paths, 1, step - 1)
      invariant step > 2 ==> !SomeEdgeRaises(s)
      decreases bound + 3 - step
    {
      var more := SearchLevel(s, actual, children, paths, step, rank, bound);
      if more == None {
        return None;
      }
      paths := more.value;
      if |paths[step]| == 0 {
        break;
      }
      step := step + 1;
    }
    ListingWithoutSingles(s, paths, step);
    found := Some(paths - {1});
  }

  method SingleLevel(s: Setting, variables: seq<Var>) returns (paths: map<nat, seq<seq<Var>>>)
    requires WellFormed(s) && forall v :: v in variables <==> v in s.m
    ensures AllLevels(s, paths, 1, 1)
  {
    var singles := seq(|variables|, i requires 0 <= i < |variables| => [variables[i]]);
    SingletonLevel(s.m.Keys, LiveEdges(s), variables, singles);
    paths := map[1 := singles];
  }

  lemma LevelBound(s: Setting, rank: map<Var, nat>, bound: nat, paths: seq<seq<Var>>, k: nat)
    requires WellFormed(s) && Ranked(s.m, rank, bound) && ExactLevel(s.m.Keys, LiveEdges(s), paths, k) && paths != []
    ensures k <= bound + 1
  {
    assert paths[0] in paths;
    ChainIsShort(s, rank, bound, paths[0]);
  }

  // ---------------------------------------------------------------- the filters

  ghost predicate Joins(path: seq<Var>, start: Var, end: Var) {
    |path| >= 2 && path[0] == start && path[|path| - 1] == end
  }

  /** Whether some path of one level runs from start to end. */
  method LevelJoins(paths: seq<seq<Var>>, start: Var, end: Var) returns (r: bool)
    requires forall p :: p in paths ==> |p| >= 2
    ensures r <==> exists p :: p in paths && Joins(p, start, end)
  {
    for i := 0 to |paths|
      invariant forall p :: p in paths[..i] ==> !Joins(p, start, end)
    {
      assert paths[i] in paths;
      if paths[i][0] == start && paths[i][|paths[i]| - 1] == end {
        return true;
      }
      TakeOneMore(paths, i);
    }
    TakeAll(paths);
    return false;
  }

  lemma LevelLengths(s: Setting, paths: map<nat, seq<seq<Var>>>, last: nat, k: nat)
    requires WellFormed(s) && AllLevels(s, paths, 2, last) && k in paths
    ensures forall p :: p in paths[k] ==> |p| == k && LiveChain(s, p)
  {
  }

  lemma ChainsAreListed(s: Setting, paths: map<nat, seq<seq<Var>>>, last: nat, p: seq<Var>)
    requires WellFormed(s) && Listing(s, paths, last)
    requires LiveChain(s, p) && |p| >= 2
    ensures |p| < last && |p| in paths && p in paths[|p|]
  {
    assert NoChains(s.m.Keys, LiveEdges(s), last) by {
      forall q | LiveChain(s, q) ensures |q| != last {
        assert q in paths[last] <==> |q| == last;
      }
    }
    NothingBeyondEmpty(s.m.Keys, LiveEdges(s), p, last);
  }

  /** The start/end filter: true exactly when a live chain joins the two variables, unless the search raises. */
  method SpecificPathFilter(s: Setting, variables: seq<Var>, children: map<Var, seq<Var>>, start: Var, end: Var)
    returns (r: Option<bool>)
    requires WellFormed(s) && ChildrenOf(s.m, children) && forall v :: v in variables <==> v in s.m
    ensures r == None <==> SomeEdgeRaises(s)
    ensures r.Some? ==> (r.value <==> exists p :: LiveChain(s, p) && Joins(p, start, end))
  {
    var found := FindLivePaths(s, variables, children);
    if found == None {
      return None;
    }
    var paths := found.value;
    ghost var last: nat :| Listing(s, paths, last);
    var todo := paths.Keys;
    while todo != {}
      invariant todo <= paths.Keys
      invariant forall k, p :: k in paths.Keys - todo && p in paths[k] ==> !Joins(p, start, end)
      decreases todo
    {
      var k :| k in todo;
      LevelLengths(s, paths, last, k);
      var joined := LevelJoins(paths[k], start, end);
      if joined {
        return Some(true);
      }
      todo := todo - {k};
    }
    forall p | LiveChain(s, p) && |p| >= 2
      ensures !Joins(p, start, end)
    {
      ChainsAreListed(s, paths, last, p);
    }
    return Some(false);
  }

  /**
   The maximum-length filter. It compares the length of the longest live chain with the wanted ones; it raises (None)
   when the search does, and when no edge is live, as it has nothing to take the maximum of.
   */
  method PathMaxLenFilter(s: Setting, variables: seq<Var>, children: map<Var, seq<Var>>, lengths: set<nat>)
    returns (r: Option<bool>)
    requires WellFormed(s) && ChildrenOf(s.m, children) && forall v :: v in variables <==> v in s.m
    ensures r == None <==> SomeEdgeRaises(s) || forall v, c :: v in s.m && c in s.m ==> !Live(s, v, c)
    ensures r.Some? ==> exists longest: seq<Var> ::
                          LiveChain(s, longest) && (forall p :: LiveChain(s, p) ==> |p| <= |longest|)
                          && r.value == (|longest| in lengths)
  {
    var found := FindLivePaths(s, variables, children);
    if found == None {
      return None;
    }
    var paths := found.value;
    ghost var last: nat :| Listing(s, paths, last);
    var max := LongestLevel(paths);
    if max == None {
      NoLiveEdges(s, paths, last);
      return None;
    }
    ghost var longest := paths[max.value][0];
    assert longest in paths[max.value];
    LevelLengths(s, paths, last, max.value);
    LongestChain(s, paths, last, longest);
    r := Some(max.value in lengths);
  }

  /** The largest length whose level is not empty. */
  method LongestLevel(paths: map<nat, seq<seq<Var>>>) returns (max: Option<nat>)
    ensures max == None <==> forall k :: k in paths ==> paths[k] == []
    ensures max.Some? ==> max.value in paths && paths[max.value] != []
                          && forall k :: k in paths && paths[k] != [] ==> k <= max.value
  {
    max := None;
    var todo := paths.Keys;
    while todo != {}
      invariant todo <= paths.Keys
      invariant max.Some? ==> max.value in paths && paths[max.value] != []
      invariant forall k :: k in paths.Keys - todo && paths[k] != [] ==> max.Some? && k <= max.value
      decreases todo
    {
      var k :| k in todo;
      if |paths[k]| != 0 && (max == None || k > max.value) {
        max := Some(k);
      }
      todo := todo - {k};
    }
  }

  lemma NoLiveEdges(s: Setting, paths: map<nat, seq<seq<Var>>>, last: nat)
    requires WellFormed(s) && last >= 2 && AllLevels(s, paths, 2, last) && forall k :: k in paths ==> paths[k] == []
    ensures forall v, c :: v in s.m && c in s.m ==> !Live(s, v, c)
  {
    forall v, c | v in s.m && c in s.m
      ensures !Live(s, v, c)
    {
      assert 2 in paths;
      assert [v, c] in paths[2] <==> |[v, c]| == 2 && LiveChain(s, [v, c]);
    }
  }

  lemma LongestChain(s: Setting, paths: map<nat, seq<seq<Var>>>, last: nat, longest: seq<Var>)
    requires WellFormed(s) && Listing(s, paths, last)
    requires LiveChain(s, longest) && |longest| >= 2
    requires forall k :: k in paths && paths[k] != [] ==> k <= |longest|
    ensures forall p :: LiveChain(s, p) ==> |p| <= |longest|
    ensures Live(s, longest[0], longest[1])
  {
    assert LiveEdges(s)(longest[0], longest[1]);
    forall p | LiveChain(s, p)
      ensures |p| <= |longest|
    {
      if |p| >= 2 {
        ChainsAreListed(s, paths, last, p);
      }
    }
  }

  // ---------------------------------------------------------------- a model without live edges

  /** Raw input alone, and a raw output whose mechanism does not look at it. */
  function DeafChild(x: Value, y: Value): Setting {
    Setting(map["raw_input" := Constant(x), "raw_output" := Mechanism(["raw_input"], (_: seq<Value>) => y, false)],
            map["raw_input" := x], map["raw_input" := [x, y], "raw_output" := [y]])
  }

  lemma DeafChildIsWellFormed(x: Value, y: Value)
    ensures WellFormed(DeafChild(x, y))
  {
    var rank: map<Var, nat> := map["raw_input" := 0, "raw_output" := 1];
    assert Ranked(DeafChild(x, y).m, rank, 1);
  }

  lemma DeafChildNeverChanges(model: Model, y: Value)
    requires Acyclic(model.m) && "raw_input" in model.m && "raw_output" in model.m && "raw_input" in model.sources
               && model.m["raw_input"].parents == []
    requires model.m["raw_output"] == Mechanism(["raw_input"], (_: seq<Value>) => y, false)
    ensures Evaluate(model, "raw_output") == Some(y)
  {
    var sol := Solution(model, true);
    assert Lookup(sol, "raw_input") == Rule(model, true, sol, "raw_input");
    assert Lookup(sol, "raw_output") == Rule(model, true, sol, "raw_output");
  }

  lemma DeafChildIsNotLive(x: Value, y: Value, v: Var, c: Var)
    requires WellFormed(DeafChild(x, y))
    ensures !Live(DeafChild(x, y), v, c)
  {
    var s := DeafChild(x, y);
    if v == "raw_input" && c == "raw_output" {
      DeafChildNeverChanges(Actual(s), y);
      forall z: Value | z in s.domain[v] ensures !Changes(s, v, z, c) {
        StillAcyclic(s, v, z);
        DeafChildNeverChanges(Intervened(Actual(s), v, z), y);
      }
    }
  }

  /** On that model the maximum-length filter raises, whatever lengths are wanted. */
  method FilterRaises(x: Value, y: Value, lengths: set<nat>) returns (r: Option<bool>)
    ensures r == None
  {
    var s := DeafChild(x, y);
    DeafChildIsWellFormed(x, y);
    var children := BuildChildren(s.m);
    r := PathMaxLenFilter(s, ["raw_input", "raw_output"], children, lengths);
    forall v, c | v in s.m && c in s.m ensures !Live(s, v, c) {
      DeafChildIsNotLive(x, y, v, c);
    }
  }
}
