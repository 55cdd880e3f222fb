/**
 The causal model's constructor: children, outputs, timesteps, validity checks and the sorted variable list.
 The timesteps found level by level are proved to be longest-path levels, and a ranking in CausalSpec's sense.
 */
module ModelGraph {
  import opened Wrappers
  import opened CausalSpec
  import opened Trace

  // ---------------------------------------------------------------- walks

  /** A chain of k edges leads from an input down to v. */
  ghost predicate Walk(m: Mechanisms, v: Var, k: nat)
    decreases k
  {
    v in m && if k == 0 then m[v].parents == [] else exists p :: p in m[v].parents && Walk(m, p, k - 1)
  }

  ghost predicate SomeWalk(m: Mechanisms, k: nat) {
    exists v :: Walk(m, v, k)
  }

  lemma {:induction false} WalkIsShort(m: Mechanisms, rank: map<Var, nat>, bound: nat, v: Var, k: nat)
    requires Ranked(m, rank, bound) && Walk(m, v, k)
    ensures k <= rank[v] <= bound
    decreases k
  {
    if k > 0 {
      var p :| p in m[v].parents && Walk(m, p, k - 1);
      WalkIsShort(m, rank, bound, p, k - 1);
    }
  }

  /** A walk passes through every shorter length. */
  lemma {:induction false} ShorterWalk(m: Mechanisms, v: Var, k: nat, j: nat) returns (u: Var)
    requires Walk(m, v, k) && j <= k
    ensures Walk(m, u, j)
    decreases k
  {
    if j == k {
      u := v;
    } else {
      var p :| p in m[v].parents && Walk(m, p, k - 1);
      u := ShorterWalk(m, p, k - 1, j);
    }
  }

  /** In an acyclic graph every variable is reached from some input. */
  lemma {:induction false} EveryVariableIsReached(m: Mechanisms, rank: map<Var, nat>, bound: nat, v: Var)
    returns (k: nat)
    requires Ranked(m, rank, bound) && v in m
    ensures Walk(m, v, k)
    decreases rank[v]
  {
    if m[v].parents == [] {
      k := 0;
    } else {
      var p := m[v].parents[0];
      assert p in m[v].parents;
      var j := EveryVariableIsReached(m, rank, bound, p);
      k := j + 1;
    }
  }

  /** An input, or a variable some input leads down to. */
  ghost predicate Reached(m: Mechanisms, v: Var) {
    exists k: nat :: Walk(m, v, k)
  }

  ghost predicate LongestWalk(m: Mechanisms, v: Var, k: nat) {
    Walk(m, v, k) && forall j: nat :: Walk(m, v, j) ==> j <= k
  }

  ghost predicate AllReached(m: Mechanisms) {
    forall v :: v in m ==> Reached(m, v)
  }

  ghost predicate Bounded(m: Mechanisms, bound: nat) {
    forall v, k: nat :: Walk(m, v, k) ==> k <= bound
  }

  /** No walk from an input is longer than some bound. */
  ghost predicate WalksEnd(m: Mechanisms) {
    exists bound: nat :: Bounded(m, bound)
  }

  ghost predicate ParentsDeclared(m: Mechanisms) {
    forall v, p {:trigger p in m[v].parents} :: v in m && p in m[v].parents ==> p in m
  }

  lemma ParentIsReached(m: Mechanisms, v: Var, p: Var)
    requires v in m && p in m[v].parents && Reached(m, p)
    ensures Reached(m, v)
  {
    var k: nat :| Walk(m, p, k);
    assert Walk(m, v, k + 1);
  }

  /** A chain of k edges leads from u down to v. */
  ghost predicate Leads(m: Mechanisms, u: Var, v: Var, k: nat)
    decreases k
  {
    v in m && if k == 0 then u == v else exists p :: p in m[v].parents && Leads(m, u, p, k - 1)
  }

  /** Some variable that is reached leads back to itself. */
  ghost predicate CycleReached(m: Mechanisms) {
    exists v, k: nat :: k > 0 && Reached(m, v) && Leads(m, v, v, k)
  }

  lemma {:induction false} WalkOn(m: Mechanisms, u: Var, v: Var, j: nat, k: nat, n: nat)
    requires Walk(m, u, j) && Leads(m, u, v, k) && n == j + k
    ensures Walk(m, v, n)
    decreases k
  {
    if k > 0 {
      var p :| p in m[v].parents && Leads(m, u, p, k - 1);
      WalkOn(m, u, p, j, k - 1, n - 1);
    }
  }

  /** Once around the cycle and again: there are walks of any length. */
  lemma {:induction false} AroundAgain(m: Mechanisms, v: Var, k: nat, bound: nat) returns (n: nat)
    requires k > 0 && Reached(m, v) && Leads(m, v, v, k)
    ensures n > bound && Walk(m, v, n)
  {
    if bound == 0 {
      var j: nat :| Walk(m, v, j);
      n := j + k;
      WalkOn(m, v, v, j, k, n);
    } else {
      var j := AroundAgain(m, v, k, bound - 1);
      n := j + k;
      WalkOn(m, v, v, j, k, n);
    }
  }

  /** The variables along a walk, from an input to v. */
  ghost predicate Along(m: Mechanisms, path: seq<Var>) {
    && path != []
    && (forall i :: 0 <= i < |path| ==> path[i] in m && Reached(m, path[i]))
    && forall i :: 0 < i < |path| ==> path[i - 1] in m[path[i]].parents
  }

  lemma {:induction false} WalkIsPath(m: Mechanisms, v: Var, k: nat) returns (path: seq<Var>)
    requires Walk(m, v, k)
    ensures Along(m, path) && |path| == k + 1 && path[k] == v
    decreases k
  {
    if k == 0 {
      path := [v];
    } else {
      var p :| p in m[v].parents && Walk(m, p, k - 1);
      var front := WalkIsPath(m, p, k - 1);
      path := front + [v];
      assert Reached(m, v);
    }
  }

  lemma {:induction false} PathLeads(m: Mechanisms, path: seq<Var>, i: nat, j: nat)
    requires Along(m, path) && i <= j < |path|
    ensures Leads(m, path[i], path[j], j - i)
    decreases j
  {
    if i < j {
      PathLeads(m, path, i, j - 1);
    }
  }

  /** A list of declared variables that is longer than there are variables repeats one. */
  lemma {:induction false} SomeRepeat(path: seq<Var>, all: set<Var>) returns (i: nat, j: nat)
    requires |path| > |all| && forall v :: v in path ==> v in all
    ensures i < j < |path| && path[i] == path[j]
  {
    var last := path[|path| - 1];
    if k :| 0 <= k < |path| - 1 && path[k] == last {
      i, j := k, |path| - 1;
    } else {
      assert last in all;
      var front := path[..|path| - 1];
      i, j := SomeRepeat(front, all - {last});
    }
  }

  /** The loop over the levels ends exactly where no cycle is reached from an input. */
  lemma WalksEndIff(m: Mechanisms)
    ensures WalksEnd(m) <==> !CycleReached(m)
  {
    if CycleReached(m) {
      var v, k: nat :| k > 0 && Reached(m, v) && Leads(m, v, v, k);
      forall bound: nat ensures !Bounded(m, bound) {
        var n := AroundAgain(m, v, k, bound);
      }
    } else {
      assert Bounded(m, |m.Keys|) by {
        forall v, k: nat | Walk(m, v, k) ensures k <= |m.Keys| {
          if k > |m.Keys| {
            LongWalkRepeats(m, v, k);
          }
        }
      }
    }
  }

  lemma LongWalkRepeats(m: Mechanisms, v: Var, k: nat)
    requires Walk(m, v, k) && k > |m.Keys|
    ensures CycleReached(m)
  {
    var path := WalkIsPath(m, v, k);
    var i, j := SomeRepeat(path, m.Keys);
    PathLeads(m, path, i, j);
  }

  /** An acyclic graph is one on which the loop ends with every variable reached. */
  lemma AcyclicIff(m: Mechanisms)
    requires ParentsDeclared(m)
    ensures Acyclic(m) <==> WalksEnd(m) && AllReached(m)
  {
    if Acyclic(m) {
      var rank: map<Var, nat>, bound: nat :| Ranked(m, rank, bound);
      forall v, k: nat | Walk(m, v, k) ensures k <= bound {
        WalkIsShort(m, rank, bound, v, k);
      }
      assert Bounded(m, bound);
      forall v | v in m ensures Reached(m, v) {
        var k := EveryVariableIsReached(m, rank, bound, v);
      }
    }
    if WalksEnd(m) && AllReached(m) {
      RankedByWalks(m);
    }
  }

  /** The longest walk into a variable that is reached. */
  lemma {:induction false} LongestInto(m: Mechanisms, v: Var, k: nat, bound: nat) returns (longest: nat)
    requires Bounded(m, bound) && Walk(m, v, k)
    ensures LongestWalk(m, v, longest) && longest <= bound
    decreases bound - k
  {
    if j: nat :| Walk(m, v, j) && j > k {
      longest := LongestInto(m, v, j, bound);
    } else {
      longest := k;
    }
  }

  lemma HasLongest(m: Mechanisms, bound: nat, v: Var)
    requires Bounded(m, bound) && Reached(m, v)
    ensures exists k: nat :: LongestWalk(m, v, k) && k <= bound
  {
    var k: nat :| Walk(m, v, k);
    var longest := LongestInto(m, v, k, bound);
  }

  ghost function Level(m: Mechanisms, bound: nat, v: Var): (k: nat)
    requires Bounded(m, bound) && Reached(m, v)
    ensures LongestWalk(m, v, k) && k <= bound
  {
    HasLongest(m, bound, v);
    var k: nat :| LongestWalk(m, v, k) && k <= bound;
    k
  }

  lemma RankedByWalks(m: Mechanisms)
    requires ParentsDeclared(m) && WalksEnd(m) && AllReached(m)
    ensures Acyclic(m)
  {
    var bound: nat :| Bounded(m, bound);
    var rank: map<Var, nat> := map v | v in m :: Level(m, bound, v);
    forall v, p | v in m && p in m[v].parents ensures p in m && rank[p] < rank[v] {
      assert Walk(m, v, rank[p] + 1);
    }
    assert Ranked(m, rank, bound);
  }

  // ---------------------------------------------------------------- levels

  /** The longest walk of fewer than `step` edges into v, for every v that has one. */
  ghost predicate LevelsBelow(m: Mechanisms, timesteps: map<Var, nat>, step: nat) {
    && (forall v :: v in timesteps ==>
                      v in m && timesteps[v] < step && Walk(m, v, timesteps[v])
                      && forall k :: timesteps[v] < k < step ==> !Walk(m, v, k))
    && (forall v, k: nat :: k < step && Walk(m, v, k) ==> v in timesteps)
  }

  /** Longest-path levels, for exactly the variables that are reached. */
  ghost predicate LongestWalks(m: Mechanisms, timesteps: map<Var, nat>) {
    && (forall v :: v in timesteps <==> Reached(m, v))
    && forall v :: v in timesteps ==> LongestWalk(m, v, timesteps[v])
  }

  /** The length of the longest walk of all, or 0 where there is none. */
  ghost predicate LastLevel(m: Mechanisms, last: nat) {
    && (SomeWalk(m, last) || (last == 0 && !SomeWalk(m, 0)))
    && forall k: nat :: SomeWalk(m, k) ==> k <= last
  }

  /** v is a child of one of the parents `seen` that sit one level below `step`. */
  ghost predicate Raised(m: Mechanisms, timesteps: map<Var, nat>, seen: set<Var>, step: nat, v: Var) {
    v in m && exists p :: p in m[v].parents && p in seen && p in timesteps && timesteps[p] + 1 == step
  }

  ghost predicate SomeRaised(m: Mechanisms, timesteps: map<Var, nat>, seen: set<Var>, step: nat) {
    exists v :: Raised(m, timesteps, seen, step, v)
  }

  /** `next` is `timesteps` with the raised variables moved to `step`. */
  ghost predicate RaisedTo(m: Mechanisms, timesteps: map<Var, nat>, next: map<Var, nat>, seen: set<Var>, step: nat) {
    forall v :: Lookup(next, v) == if Raised(m, timesteps, seen, step, v) then Some(step) else Lookup(timesteps, v)
  }

  lemma RaisedIsWalk(m: Mechanisms, timesteps: map<Var, nat>, step: nat, v: Var)
    requires step >= 1 && LevelsBelow(m, timesteps, step)
    ensures Raised(m, timesteps, timesteps.Keys, step, v) <==> Walk(m, v, step)
  {
    if Walk(m, v, step) {
      var p :| p in m[v].parents && Walk(m, p, step - 1);
      assert p in timesteps && timesteps[p] == step - 1;
    }
  }

  /** Children of the level below move to `step`; everything else stays: the levels are right one step further. */
  lemma NextLevel(m: Mechanisms, timesteps: map<Var, nat>, next: map<Var, nat>, step: nat)
    requires step >= 1 && LevelsBelow(m, timesteps, step) && RaisedTo(m, timesteps, next, timesteps.Keys, step)
    ensures LevelsBelow(m, next, step + 1)
    ensures SomeRaised(m, timesteps, timesteps.Keys, step) <==> SomeWalk(m, step)
  {
    forall v
      ensures Lookup(next, v) == if Walk(m, v, step) then Some(step) else Lookup(timesteps, v)
      ensures Raised(m, timesteps, timesteps.Keys, step, v) <==> Walk(m, v, step)
    {
      RaisedIsWalk(m, timesteps, step, v);
    }
    forall v | v in next
      ensures v in m && next[v] < step + 1 && Walk(m, v, next[v])
      ensures forall k :: next[v] < k < step + 1 ==> !Walk(m, v, k)
    {
      assert Lookup(next, v) == Some(next[v]);
    }
    forall v, k: nat | k < step + 1 && Walk(m, v, k)
      ensures v in next
    {
      assert Lookup(next, v).Some?;
    }
  }

  // ---------------------------------------------------------------- the constructor's loops

  /** The inputs' levels, then one level more per turn until a turn changes nothing. */
  method ComputeTimesteps(m: Mechanisms, children: map<Var, seq<Var>>, inputs: seq<Var>)
    returns (timesteps: map<Var, nat>, endTime: nat)
    requires WalksEnd(m) && ChildrenOf(m, children)
    requires forall v :: v in inputs <==> v in m && m[v].parents == []
    ensures LongestWalks(m, timesteps) && LastLevel(m, endTime)
  {
    ghost var bound: nat :| Bounded(m, bound);
    timesteps := map v | v in inputs :: 0;
    FirstLevel(m, timesteps);
    var step, change := 1, true;
    while change
      invariant 1 <= step && LevelsBelow(m, timesteps, step) && Turned(m, step, change, bound)
      decreases change, bound + 2 - step
    {
      timesteps, change := Turn(m, children, timesteps, step, bound);
      step := step + 1;
    }
    endTime := step - 2;
    NoLongerWalks(m, timesteps, endTime);
  }

  /** One turn of the loop. */
  method Turn(m: Mechanisms, children: map<Var, seq<Var>>, timesteps: map<Var, nat>, step: nat, ghost bound: nat)
    returns (next: map<Var, nat>, change: bool)
    requires step >= 1 && ChildrenOf(m, children) && Bounded(m, bound)
    requires LevelsBelow(m, timesteps, step) && Turned(m, step, true, bound)
    ensures LevelsBelow(m, next, step + 1) && Turned(m, step + 1, change, bound) && (change ==> step <= bound)
  {
    next, change := RaiseLevel(m, children, timesteps, step);
    NextLevel(m, timesteps, next, step);
    TurnedOnce(m, step, change, bound);
  }

  lemma FirstLevel(m: Mechanisms, timesteps: map<Var, nat>)
    requires forall v :: v in timesteps <==> v in m && m[v].parents == []
    requires forall v :: v in timesteps ==> timesteps[v] == 0
    ensures LevelsBelow(m, timesteps, 1)
  {
  }

  /** Where the loop stands: every turn but the last found a walk one edge longer. */
  ghost predicate Turned(m: Mechanisms, step: nat, change: bool, bound: nat)
    requires step >= 1
  {
    && step <= bound + 2
    && (change ==> step <= bound + 1 && (step > 1 ==> SomeWalk(m, step - 1)))
    && (!change ==> step > 1 && !SomeWalk(m, step - 1) && (step > 2 ==> SomeWalk(m, step - 2)))
  }

  lemma TurnedOnce(m: Mechanisms, step: nat, change: bool, bound: nat)
    requires step >= 1 && Bounded(m, bound) && Turned(m, step, true, bound) && change == SomeWalk(m, step)
    ensures Turned(m, step + 1, change, bound)
    ensures change ==> step <= bound
  {
    if change {
      var v :| Walk(m, v, step);
    }
  }

  /** One turn: copy the levels and move every child of the level below to `step`. */
  method RaiseLevel(m: Mechanisms, children: map<Var, seq<Var>>, timesteps: map<Var, nat>, step: nat)
    returns (next: map<Var, nat>, change: bool)
    requires step >= 1 && ChildrenOf(m, children) && timesteps.Keys <= m.Keys
    ensures RaisedTo(m, timesteps, next, timesteps.Keys, step)
    ensures change <==> SomeRaised(m, timesteps, timesteps.Keys, step)
  {
    next, change := timesteps, false;
    ghost var seen: set<Var> := {};
    var todo := timesteps.Keys;
    while todo != {}
      invariant todo <= timesteps.Keys && seen == timesteps.Keys - todo
      invariant RaisedTo(m, timesteps, next, seen, step)
      invariant change <==> SomeRaised(m, timesteps, seen, step)
      decreases todo
    {
      var parent :| parent in todo;
      todo := todo - {parent};
      SeenOneMore(m, children, timesteps, seen, step, parent);
      if timesteps[parent] == step - 1 {
        var cs := children[parent];
        ghost var before, changed := next, change;
        for i := 0 to |cs|
          invariant forall v :: Lookup(next, v) == if v in cs[..i] then Some(step) else Lookup(before, v)
          invariant change == (changed || i > 0)
        {
          next := next[cs[i] := step];
          change := true;
          TakeOneMore(cs, i);
        }
        TakeAll(cs);
        RaiseChildren(m, children, timesteps, before, next, seen, step, parent);
      }
      seen := seen + {parent};
    }
    assert seen == timesteps.Keys;
  }

  /** What one more parent adds to the raised variables. */
  lemma SeenOneMore(m: Mechanisms, children: map<Var, seq<Var>>, timesteps: map<Var, nat>, seen: set<Var>, step: nat,
                    p: Var)
    requires ChildrenOf(m, children) && p in timesteps && timesteps.Keys <= m.Keys
    ensures forall v :: Raised(m, timesteps, seen + {p}, step, v)
                   <==> Raised(m, timesteps, seen, step, v) || (timesteps[p] + 1 == step && v in children[p])
    ensures SomeRaised(m, timesteps, seen + {p}, step)
       <==> SomeRaised(m, timesteps, seen, step) || (timesteps[p] + 1 == step && children[p] != [])
  {
    forall v
      ensures Raised(m, timesteps, seen + {p}, step, v)
         <==> Raised(m, timesteps, seen, step, v) || (timesteps[p] + 1 == step && v in children[p])
    {
      if Raised(m, timesteps, seen + {p}, step, v) {
        var q :| q in m[v].parents && q in seen + {p} && q in timesteps && timesteps[q] + 1 == step;
      }
    }
    if SomeRaised(m, timesteps, seen + {p}, step) {
      var v :| Raised(m, timesteps, seen + {p}, step, v);
    }
    if timesteps[p] + 1 == step && children[p] != [] {
      assert Raised(m, timesteps, seen + {p}, step, children[p][0]);
    }
    if SomeRaised(m, timesteps, seen, step) {
      var v :| Raised(m, timesteps, seen, step, v);
      assert Raised(m, timesteps, seen + {p}, step, v);
    }
  }

  lemma RaiseChildren(m: Mechanisms, children: map<Var, seq<Var>>, timesteps: map<Var, nat>,
                      before: map<Var, nat>, next: map<Var, nat>, seen: set<Var>, step: nat, p: Var)
    requires ChildrenOf(m, children) && p in timesteps && timesteps.Keys <= m.Keys && timesteps[p] + 1 == step
    requires RaisedTo(m, timesteps, before, seen, step)
    requires forall v :: Lookup(next, v) == if v in children[p] then Some(step) else Lookup(before, v)
    ensures RaisedTo(m, timesteps, next, seen + {p}, step)
  {
    SeenOneMore(m, children, timesteps, seen, step, p);
  }

  /** When no walk is one step longer, the levels are final. */
  lemma NoLongerWalks(m: Mechanisms, timesteps: map<Var, nat>, last: nat)
    requires LevelsBelow(m, timesteps, last + 2) && !SomeWalk(m, last + 1)
    requires last > 0 ==> SomeWalk(m, last)
    ensures LongestWalks(m, timesteps) && LastLevel(m, last)
  {
    forall v, k: nat | Walk(m, v, k) ensures k <= last {
      if k > last {
        var u := ShorterWalk(m, v, k, last + 1);
      }
    }
  }

  // ---------------------------------------------------------------- outputs

  predicate Distinct(vs: seq<Var>) {
    forall i, j :: 0 <= i < j < |vs| ==> vs[i] != vs[j]
  }

  /** vs without the variables in `dropped`, order kept. */
  function Keep(vs: seq<Var>, dropped: set<Var>): (r: seq<Var>)
    ensures forall v :: v in r <==> v in vs && v !in dropped
  {
    if vs == [] then []
    else if vs[0] in dropped then Keep(vs[1..], dropped)
    else [vs[0]] + Keep(vs[1..], dropped)
  }

  /** list.remove: the first occurrence goes. */
  function RemoveFirst(vs: seq<Var>, v: Var): seq<Var> {
    if vs == [] then [] else if vs[0] == v then vs[1..] else [vs[0]] + RemoveFirst(vs[1..], v)
  }

  lemma {:induction false} RemoveFromKept(vs: seq<Var>, dropped: set<Var>, v: Var)
    requires Distinct(vs)
    ensures RemoveFirst(Keep(vs, dropped), v) == Keep(vs, dropped + {v})
  {
    if vs != [] {
      RemoveFromKept(vs[1..], dropped, v);
      assert ([vs[0]] + Keep(vs[1..], dropped))[1..] == Keep(vs[1..], dropped);
      if vs[0] == v && v !in dropped {
        assert v !in vs[1..];
        KeepAbsent(vs[1..], dropped, v);
      }
    }
  }

  lemma {:induction false} KeepAbsent(vs: seq<Var>, dropped: set<Var>, v: Var)
    requires v !in vs
    ensures Keep(vs, dropped + {v}) == Keep(vs, dropped)
  {
    if vs != [] {
      KeepAbsent(vs[1..], dropped, v);
    }
  }

  function ParentsSeen(m: Mechanisms, vs: seq<Var>): set<Var>
    requires forall v :: v in vs ==> v in m
  {
    set v, p | v in vs && p in m[v].parents :: p
  }

  /** Every variable that is nobody's parent, in declaration order. */
  method ComputeOutputs(m: Mechanisms, variables: seq<Var>) returns (outputs: seq<Var>)
    requires Distinct(variables) && forall v :: v in variables <==> v in m
    ensures outputs == Keep(variables, ParentsSeen(m, variables))
  {
    outputs := variables;
    KeepAll(variables);
    ghost var dropped: set<Var> := {};
    for i := 0 to |variables|
      invariant forall v :: v in variables[..i] ==> v in m
      invariant dropped == ParentsSeen(m, variables[..i]) && outputs == Keep(variables, dropped)
    {
      var ps := m[variables[i]].parents;
      outputs := DropParents(variables, ps, outputs, dropped);
      dropped := dropped + Members(ps);
      SeenParents(m, variables, i);
    }
    TakeAll(variables);
  }

  /** The inner loop: each parent leaves the list if it is still there. */
  method DropParents(variables: seq<Var>, ps: seq<Var>, before: seq<Var>, ghost dropped: set<Var>)
    returns (outputs: seq<Var>)
    requires Distinct(variables) && before == Keep(variables, dropped)
    ensures outputs == Keep(variables, dropped + Members(ps))
  {
    outputs := before;
    assert dropped + Members(ps[..0]) == dropped;
    for j := 0 to |ps|
      invariant outputs == Keep(variables, dropped + Members(ps[..j]))
    {
      RemoveFromKept(variables, dropped + Members(ps[..j]), ps[j]);
      if ps[j] in outputs {
        outputs := RemoveFirst(outputs, ps[j]);
      } else {
        RemoveAbsent(outputs, ps[j]);
      }
      TakeOneMore(ps, j);
      assert dropped + Members(ps[..j + 1]) == dropped + Members(ps[..j]) + {ps[j]};
    }
    TakeAll(ps);
  }

  lemma SeenParents(m: Mechanisms, variables: seq<Var>, i: nat)
    requires i < |variables| && forall v :: v in variables ==> v in m
    ensures forall v :: v in variables[..i + 1] ==> v in m
    ensures ParentsSeen(m, variables[..i + 1]) == ParentsSeen(m, variables[..i]) + Members(m[variables[i]].parents)
  {
    TakeOneMore(variables, i);
    assert forall v :: v in variables[..i + 1] <==> v in variables[..i] || v == variables[i];
  }

  lemma {:induction false} KeepAll(vs: seq<Var>)
    ensures Keep(vs, {}) == vs
  {
    if vs != [] {
      KeepAll(vs[1..]);
    }
  }

  lemma {:induction false} RemoveAbsent(vs: seq<Var>, v: Var)
    requires v !in vs
    ensures RemoveFirst(vs, v) == vs
  {
    if vs != [] {
      RemoveAbsent(vs[1..], v);
    }
  }

  /** Outputs are moved to the last level. */
  method RaiseOutputs(timesteps: map<Var, nat>, outputs: seq<Var>, endTime: nat) returns (raised: map<Var, nat>)
    ensures forall v :: Lookup(raised, v) == if v in outputs then Some(endTime) else Lookup(timesteps, v)
  {
    raised := timesteps;
    for i := 0 to |outputs|
      invariant forall v :: Lookup(raised, v) == if v in outputs[..i] then Some(endTime) else Lookup(timesteps, v)
    {
      raised := raised[outputs[i] := endTime];
      TakeOneMore(outputs, i);
    }
    TakeAll(outputs);
  }

  /** Where everything is reached, raising the childless variables keeps every parent strictly below its child. */
  lemma RaisedIsRanking(m: Mechanisms, timesteps: map<Var, nat>, variables: seq<Var>, endTime: nat)
    requires ParentsDeclared(m) && AllReached(m) && forall v :: v in variables <==> v in m
    requires Levelled(m, Keep(variables, ParentsSeen(m, variables)), timesteps, endTime)
    ensures timesteps.Keys == m.Keys && Ranked(m, timesteps, endTime)
  {
    var outputs := Keep(variables, ParentsSeen(m, variables));
    forall v | v in m ensures v in timesteps && timesteps[v] <= endTime {
      var k: nat :| Walk(m, v, k);
      assert SomeWalk(m, timesteps[v]) || timesteps[v] == endTime;
    }
    forall v | v in timesteps ensures v in m {
      if v !in outputs {
        var k: nat :| Walk(m, v, k);
      }
    }
    forall v, p | v in m && p in m[v].parents ensures p in m && timesteps[p] < timesteps[v] {
      ParentBelow(m, timesteps, variables, endTime, v, p);
    }
  }

  lemma ParentBelow(m: Mechanisms, timesteps: map<Var, nat>, variables: seq<Var>, endTime: nat, v: Var, p: Var)
    requires ParentsDeclared(m) && forall u :: u in variables <==> u in m
    requires Levelled(m, Keep(variables, ParentsSeen(m, variables)), timesteps, endTime)
    requires v in m && p in m[v].parents && Reached(m, p)
    ensures p in timesteps && v in timesteps && timesteps[p] < timesteps[v]
  {
    assert p in ParentsSeen(m, variables);
    assert Walk(m, v, timesteps[p] + 1);
    assert SomeWalk(m, timesteps[p] + 1);
  }

  // ---------------------------------------------------------------- the sorted variable list

  /** Insertion of v behind every element that does not come later: equal keys keep their order. */
  function InsertByKey(vs: seq<Var>, v: Var, key: map<Var, nat>): (r: seq<Var>)
    requires v in key && forall u :: u in vs ==> u in key
    ensures multiset(r) == multiset(vs) + multiset{v}
    ensures forall u :: u in r <==> u in vs || u == v
  {
    if vs == [] || key[vs[|vs| - 1]] <= key[v] then vs + [v]
    else
      var init, last := vs[..|vs| - 1], vs[|vs| - 1];
      assert vs == init + [last];
      InsertByKey(init, v, key) + [last]
  }

  predicate SortedByKey(vs: seq<Var>, key: map<Var, nat>) {
    forall i, j :: 0 <= i < j < |vs| && vs[i] in key && vs[j] in key ==> key[vs[i]] <= key[vs[j]]
  }

  lemma {:induction false} InsertKeepsSorted(vs: seq<Var>, v: Var, key: map<Var, nat>)
    requires v in key && (forall u :: u in vs ==> u in key) && SortedByKey(vs, key)
    ensures SortedByKey(InsertByKey(vs, v, key), key)
  {
    if vs != [] && key[vs[|vs| - 1]] > key[v] {
      var init, last := vs[..|vs| - 1], vs[|vs| - 1];
      InsertKeepsSorted(init, v, key);
      LastIsGreatest(vs, key);
      SortedSnoc(InsertByKey(init, v, key), last, key);
    }
  }

  lemma LastIsGreatest(vs: seq<Var>, key: map<Var, nat>)
    requires vs != [] && (forall u :: u in vs ==> u in key) && SortedByKey(vs, key)
    ensures forall u :: u in vs ==> key[u] <= key[vs[|vs| - 1]]
  {
  }

  lemma SortedSnoc(vs: seq<Var>, v: Var, key: map<Var, nat>)
    requires v in key && SortedByKey(vs, key) && forall u :: u in vs ==> u in key && key[u] <= key[v]
    ensures SortedByKey(vs + [v], key)
  {
  }

  /** The elements with one key, in order. */
  function WithKey(vs: seq<Var>, key: map<Var, nat>, k: nat): seq<Var> {
    if vs == [] then []
    else WithKey(vs[..|vs| - 1], key, k)
         + (if vs[|vs| - 1] in key && key[vs[|vs| - 1]] == k then [vs[|vs| - 1]] else [])
  }

  lemma WithKeySnoc(vs: seq<Var>, v: Var, key: map<Var, nat>, k: nat)
    requires v in key
    ensures WithKey(vs + [v], key, k) == WithKey(vs, key, k) + (if key[v] == k then [v] else [])
  {
    assert (vs + [v])[..|vs|] == vs;
  }

  lemma {:induction false} InsertIsStable(vs: seq<Var>, v: Var, key: map<Var, nat>, k: nat)
    requires v in key && (forall u :: u in vs ==> u in key)
    ensures WithKey(InsertByKey(vs, v, key), key, k) == WithKey(vs, key, k) + (if key[v] == k then [v] else [])
  {
    if vs == [] || key[vs[|vs| - 1]] <= key[v] {
      WithKeySnoc(vs, v, key, k);
    } else {
      var init, last := vs[..|vs| - 1], vs[|vs| - 1];
      FrontAndLast(vs);
      InsertIsStable(init, v, key, k);
      WithKeySnoc(init, last, key, k);
      WithKeySnoc(InsertByKey(init, v, key), last, key, k);
    }
  }

  /** A stable sort of these variables by their keys. */
  ghost predicate StablySorted(sorted: seq<Var>, variables: seq<Var>, key: map<Var, nat>) {
    && multiset(sorted) == multiset(variables) && (forall v :: v in sorted ==> v in key)
    && SortedByKey(sorted, key)
    && forall k {:trigger WithKey(sorted, key, k)} :: WithKey(sorted, key, k) == WithKey(variables, key, k)
  }

  lemma SortOneMore(sorted: seq<Var>, front: seq<Var>, v: Var, key: map<Var, nat>, more: seq<Var>)
    requires StablySorted(sorted, front, key) && v in key && more == front + [v]
    ensures StablySorted(InsertByKey(sorted, v, key), more, key)
  {
    InsertKeepsSorted(sorted, v, key);
    assert more[..|front|] == front;
    forall k ensures WithKey(InsertByKey(sorted, v, key), key, k) == WithKey(more, key, k) {
      InsertIsStable(sorted, v, key, k);
    }
  }

  /** Stable sort by timestep. */
  method SortByTimestep(variables: seq<Var>, key: map<Var, nat>) returns (sorted: seq<Var>)
    requires forall v :: v in variables ==> v in key
    ensures multiset(sorted) == multiset(variables)
    ensures SortedByKey(sorted, key)
    ensures forall k :: WithKey(sorted, key, k) == WithKey(variables, key, k)
  {
    sorted := [];
    for i := 0 to |variables|
      invariant StablySorted(sorted, variables[..i], key)
    {
      TakeOneMore(variables, i);
      SortOneMore(sorted, variables[..i], variables[i], key, variables[..i + 1]);
      sorted := InsertByKey(sorted, variables[i], key);
    }
    TakeAll(variables);
  }

  /** Every parent stands before its children. */
  ghost predicate Topological(m: Mechanisms, vs: seq<Var>) {
    forall i, j :: 0 <= i <= j < |vs| && vs[i] in m ==> vs[j] !in m[vs[i]].parents
  }

  lemma SortedByRankingIsTopological(m: Mechanisms, vs: seq<Var>, rank: map<Var, nat>, bound: nat)
    requires Ranked(m, rank, bound) && SortedByKey(vs, rank)
    ensures Topological(m, vs)
  {
    forall i, j | 0 <= i <= j < |vs| && vs[i] in m
      ensures vs[j] !in m[vs[i]].parents
    {
      if vs[j] in rank {
        assert rank[vs[i]] <= rank[vs[j]];
      }
    }
  }

  // ---------------------------------------------------------------- the model

  datatype Problem =
    | NoRawVariables
    | NotInValues(v: Var)
    | NotInChildren(v: Var)
    | NotInMechanisms(v: Var)
    | NotInTimesteps(v: Var)
    | NoTimestep(v: Var)
    | MissingChild(v: Var, parent: Var)
    | LaterTimestep(v: Var, parent: Var)
    | MissingParent(v: Var, child: Var)
    | EarlierTimestep(v: Var, child: Var)

  /** The graph a model derives from its mechanisms. */
  datatype Graph = Graph(children: map<Var, seq<Var>>, inputs: seq<Var>, outputs: seq<Var>,
                         timesteps: map<Var, nat>, endTime: nat)

  ghost predicate DerivedFrom(g: Graph, m: Mechanisms, declared: seq<Var>) {
    && ChildrenOf(m, g.children)
    && (forall v :: v in g.inputs <==> v in m && m[v].parents == [])
    && (forall v :: v in declared <==> v in m) && g.outputs == Keep(declared, ParentsSeen(m, declared))
    && Levelled(m, g.outputs, g.timesteps, g.endTime)
  }

  /**
   Outputs sit at the last level, the length of the longest walk, reached or not; any other variable that is reached at
   its longest-path level; and nothing else has a timestep.
   */
  ghost predicate Levelled(m: Mechanisms, outputs: seq<Var>, timesteps: map<Var, nat>, endTime: nat) {
    && LastLevel(m, endTime)
    && (forall v :: v in timesteps <==> v in outputs || Reached(m, v))
    && forall v :: v in timesteps ==>
         if v in outputs then timesteps[v] == endTime else LongestWalk(m, v, timesteps[v])
  }

  lemma RaisedLevels(m: Mechanisms, levels: map<Var, nat>, raised: map<Var, nat>, outputs: seq<Var>, endTime: nat)
    requires LongestWalks(m, levels) && LastLevel(m, endTime)
    requires forall v :: Lookup(raised, v) == if v in outputs then Some(endTime) else Lookup(levels, v)
    ensures Levelled(m, outputs, raised, endTime)
  {
    forall v
      ensures v in raised <==> v in outputs || Reached(m, v)
      ensures v in raised ==> if v in outputs then raised[v] == endTime else LongestWalk(m, v, raised[v])
    {
      assert Lookup(raised, v) == if v in outputs then Some(endTime) else Lookup(levels, v);
    }
  }

  method AssignTimesteps(m: Mechanisms, children: map<Var, seq<Var>>, inputs: seq<Var>, outputs: seq<Var>)
    returns (timesteps: map<Var, nat>, endTime: nat)
    requires WalksEnd(m) && ChildrenOf(m, children)
    requires forall v :: v in inputs <==> v in m && m[v].parents == []
    ensures Levelled(m, outputs, timesteps, endTime)
  {
    var levels, last := ComputeTimesteps(m, children, inputs);
    endTime := last;
    timesteps := RaiseOutputs(levels, outputs, last);
    RaisedLevels(m, levels, timesteps, outputs, last);
  }

  /** Everything the constructor derives; `declared` is the order the dictionary lists the mechanisms in. */
  method DeriveGraph(m: Mechanisms, declared: seq<Var>) returns (g: Graph)
    requires ParentsDeclared(m) && WalksEnd(m)
    requires Distinct(declared) && forall v :: v in declared <==> v in m
    ensures DerivedFrom(g, m, declared)
  {
    var children := BuildChildren(m);
    var inputs := Keep(declared, set v | v in m && m[v].parents != []);
    var outputs := ComputeOutputs(m, declared);
    var timesteps, endTime := AssignTimesteps(m, children, inputs, outputs);
    g := Graph(children, inputs, outputs, timesteps, endTime);
  }

  /** The checks on one variable alone. */
  function CheckVariable(m: Mechanisms, values: set<Var>, g: Graph, v: Var): Option<Problem> {
    if v !in values then Some(NotInValues(v))
    else if v !in g.children then Some(NotInChildren(v))
    else if v !in m then Some(NotInMechanisms(v))
    else if v !in g.timesteps then Some(NotInTimesteps(v))
    else None
  }

  /**
   The checks on a variable against another: the two edge lists and the timesteps agree. Looking up the other's
   timestep is an error of its own when there is none.
   */
  function CheckPair(m: Mechanisms, g: Graph, v: Var, u: Var): Option<Problem>
    requires {v, u} <= m.Keys && {v, u} <= g.children.Keys && v in g.timesteps
  {
    if u in m[v].parents && v !in g.children[u] then Some(MissingChild(v, u))
    else if u in m[v].parents && u !in g.timesteps then Some(NoTimestep(u))
    else if u in m[v].parents && !(g.timesteps[u] < g.timesteps[v]) then Some(LaterTimestep(v, u))
    else if u in g.children[v] && v !in m[u].parents then Some(MissingParent(v, u))
    else if u in g.children[v] && u !in g.timesteps then Some(NoTimestep(u))
    else if u in g.children[v] && !(g.timesteps[u] > g.timesteps[v]) then Some(EarlierTimestep(v, u))
    else None
  }

  /** What the checks ask of any graph: a variable is known everywhere, and edge lists and timesteps agree. */
  lemma ChecksMean(m: Mechanisms, values: set<Var>, g: Graph, v: Var, u: Var)
    requires {v, u} <= m.Keys && {v, u} <= g.children.Keys && v in g.timesteps
    ensures CheckVariable(m, values, g, v) == None <==> v in values
    ensures CheckPair(m, g, v, u) == None <==>
              && (u in m[v].parents || u in g.children[v] ==> u in g.timesteps)
              && (u in m[v].parents ==> v in g.children[u] && g.timesteps[u] < g.timesteps[v])
              && (u in g.children[v] ==> v in m[u].parents && g.timesteps[v] < g.timesteps[u])
  {
  }

  /** A variable missing from any of the four is refused. */
  lemma KnownEverywhere(m: Mechanisms, values: set<Var>, g: Graph, v: Var)
    ensures CheckVariable(m, values, g, v) == None <==> v in values * g.children.Keys * m.Keys * g.timesteps.Keys
  {
  }

  /** On a derived graph a variable alone can lack only its value list, or a timestep when it is not reached. */
  lemma DerivedVariable(m: Mechanisms, declared: seq<Var>, values: set<Var>, g: Graph, v: Var)
    requires DerivedFrom(g, m, declared) && v in m
    ensures var problem := CheckVariable(m, values, g, v);
            && (v !in values ==> problem == Some(NotInValues(v)))
            && (v in values && v !in g.timesteps ==> problem == Some(NotInTimesteps(v)) && !Reached(m, v))
            && (v in values && v in g.timesteps ==> problem == None)
  {
  }

  /** Two variables of a derived graph pass every check, unless the second has no timestep. */
  lemma DerivedGraphPasses(m: Mechanisms, declared: seq<Var>, g: Graph, v: Var, u: Var)
    requires DerivedFrom(g, m, declared) && ParentsDeclared(m) && v in m && u in m && v in g.timesteps
    ensures CheckPair(m, g, v, u) == None || (CheckPair(m, g, v, u) == Some(NoTimestep(u)) && !Reached(m, u))
  {
    assert u in g.children[v] <==> v in m[u].parents;
    assert v in g.children[u] <==> u in m[v].parents;
    if u in m[v].parents && u in g.timesteps {
      ParentOfStamped(m, g.timesteps, declared, g.endTime, v, u);
    }
    if v in m[u].parents {
      ParentOfStamped(m, g.timesteps, declared, g.endTime, u, v);
    }
  }

  /** A parent with a timestep is reached, as it is no output, and sits below its child. */
  lemma ParentOfStamped(m: Mechanisms, timesteps: map<Var, nat>, variables: seq<Var>, endTime: nat, v: Var, p: Var)
    requires ParentsDeclared(m) && forall u :: u in variables <==> u in m
    requires Levelled(m, Keep(variables, ParentsSeen(m, variables)), timesteps, endTime)
    requires v in m && p in m[v].parents && p in timesteps
    ensures v in timesteps && timesteps[p] < timesteps[v]
  {
    assert p in ParentsSeen(m, variables);
    ParentBelow(m, timesteps, variables, endTime, v, p);
  }

  /** A variable that is not reached has a parent that is not either, and which therefore has no timestep. */
  lemma UnreachedParent(m: Mechanisms, declared: seq<Var>, v: Var) returns (u: Var)
    requires ParentsDeclared(m) && (forall w :: w in declared <==> w in m) && v in m && !Reached(m, v)
    ensures u in m && u !in Keep(declared, ParentsSeen(m, declared)) && !Reached(m, u)
  {
    assert !Walk(m, v, 0);
    u := m[v].parents[0];
    assert u in m[v].parents && u in ParentsSeen(m, declared);
    if Reached(m, u) {
      ParentIsReached(m, v, u);
    }
  }

  lemma AllStampedIsReached(m: Mechanisms, declared: seq<Var>, g: Graph)
    requires DerivedFrom(g, m, declared) && ParentsDeclared(m) && m.Keys <= g.timesteps.Keys
    ensures AllReached(m)
  {
    forall v | v in m ensures Reached(m, v) {
      if !Reached(m, v) {
        var u := UnreachedParent(m, declared, v);
        assert false;
      }
    }
  }

  /** What a check found: a variable without values, or one that is not reached from the inputs. */
  ghost predicate Founded(m: Mechanisms, values: set<Var>, problem: Problem) {
    || (problem.NotInValues? && problem.v in m && problem.v !in values)
    || ((problem.NotInTimesteps? || problem.NoTimestep?) && problem.v in m && !Reached(m, problem.v))
  }

  lemma FoundedIsFault(m: Mechanisms, values: set<Var>, problem: Problem)
    requires Founded(m, values, problem)
    ensures !(m.Keys <= values && AllReached(m))
  {
  }

  /** The validity checks, in order; the first that fails is the error. */
  method Validate(m: Mechanisms, variables: seq<Var>, values: set<Var>, g: Graph) returns (problem: Option<Problem>)
    requires DerivedFrom(g, m, variables) && ParentsDeclared(m)
    ensures problem == None <==> m.Keys <= values && AllReached(m)
    ensures problem.Some? ==> Founded(m, values, problem.value)
  {
    problem := None;
    for i := 0 to |variables|
      invariant problem == None && Passed(variables, values, g.timesteps, i)
    {
      assert variables[i] in variables;
      problem := ValidateOne(m, variables, values, g, variables[i]);
      if problem.Some? {
        FoundedIsFault(m, values, problem.value);
        return;
      }
      PassedOneMore(variables, values, g.timesteps, i);
    }
    AllPassed(m, variables, values, g);
  }

  /** The first n variables have values and a timestep. */
  predicate Passed(variables: seq<Var>, values: set<Var>, timesteps: map<Var, nat>, n: nat)
    requires n <= |variables|
  {
    forall i {:trigger variables[i]} :: 0 <= i < n ==> variables[i] in values && variables[i] in timesteps
  }

  lemma PassedOneMore(variables: seq<Var>, values: set<Var>, timesteps: map<Var, nat>, n: nat)
    requires n < |variables| && Passed(variables, values, timesteps, n)
    requires variables[n] in values && variables[n] in timesteps
    ensures Passed(variables, values, timesteps, n + 1)
  {
  }

  lemma AllPassed(m: Mechanisms, variables: seq<Var>, values: set<Var>, g: Graph)
    requires DerivedFrom(g, m, variables) && ParentsDeclared(m) && Passed(variables, values, g.timesteps, |variables|)
    ensures m.Keys <= values && AllReached(m)
  {
    forall v | v in m ensures v in values && v in g.timesteps {
      var i :| 0 <= i < |variables| && variables[i] == v;
    }
    AllStampedIsReached(m, variables, g);
  }

  /** One variable's checks, alone and against every other one. */
  method ValidateOne(m: Mechanisms, variables: seq<Var>, values: set<Var>, g: Graph, v: Var)
    returns (problem: Option<Problem>)
    requires DerivedFrom(g, m, variables) && ParentsDeclared(m) && v in m
    ensures problem == None ==> v in values && v in g.timesteps
    ensures problem.Some? ==> Founded(m, values, problem.value)
  {
    DerivedVariable(m, variables, values, g, v);
    problem := CheckVariable(m, values, g, v);
    if problem.Some? {
      return;
    }
    for j := 0 to |variables|
      invariant problem == None
    {
      problem := ValidatePair(m, variables, values, g, v, variables[j]);
      if problem.Some? {
        return;
      }
    }
  }

  method ValidatePair(m: Mechanisms, variables: seq<Var>, values: set<Var>, g: Graph, v: Var, u: Var)
    returns (problem: Option<Problem>)
    requires DerivedFrom(g, m, variables) && ParentsDeclared(m) && v in m && v in g.timesteps && u in variables
    ensures problem.Some? ==> Founded(m, values, problem.value)
  {
    DerivedGraphPasses(m, variables, g, v, u);
    problem := CheckPair(m, g, v, u);
  }

  datatype CausalModel = CausalModel(mechanisms: Mechanisms, graph: Graph, variables: seq<Var>)

  /** The list is the declared one reordered so that parents come first, variables of one timestep in declared order. */
  ghost predicate SortedFrom(sorted: seq<Var>, m: Mechanisms, declared: seq<Var>, timesteps: map<Var, nat>) {
    && multiset(sorted) == multiset(declared)
    && Topological(m, sorted)
    && forall k :: WithKey(sorted, timesteps, k) == WithKey(declared, timesteps, k)
  }

  /**
   Build, validate, sort. Where no walk from an input goes on for ever (WalksEndIff) the constructor ends; it succeeds
   exactly with both raw variables, all value lists, and every variable reached from an input. What it reports otherwise
   is a variable without values, or one that is not reached.
   */
  method CreateModel(m: Mechanisms, declared: seq<Var>, values: set<Var>) returns (r: Result<CausalModel, Problem>)
    requires ParentsDeclared(m) && WalksEnd(m) && Distinct(declared) && forall v :: v in declared <==> v in m
    ensures r.Ok? <==> "raw_input" in m && "raw_output" in m && m.Keys <= values && AllReached(m)
    ensures r.Err? ==> r.error.NoRawVariables? || Founded(m, values, r.error)
    ensures r.Ok? ==>
              r.value.mechanisms == m && DerivedFrom(r.value.graph, m, declared)
              && r.value.graph.timesteps.Keys == m.Keys && Ranked(m, r.value.graph.timesteps, r.value.graph.endTime)
              && SortedFrom(r.value.variables, m, declared, r.value.graph.timesteps)
  {
    if "raw_input" !in declared || "raw_output" !in declared {
      return Err(NoRawVariables);
    }
    var g := DeriveGraph(m, declared);
    var problem := Validate(m, declared, values, g);
    if problem.Some? {
      return Err(problem.value);
    }
    RaisedIsRanking(m, g.timesteps, declared, g.endTime);
    var sorted := SortByTimestep(declared, g.timesteps);
    SortedByRankingIsTopological(m, sorted, g.timesteps, g.endTime);
    r := Ok(CausalModel(m, g, sorted));
  }
}
