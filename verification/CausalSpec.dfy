/**
 Mechanisms, their recursive evaluation, and surgery on them.

 A mechanism is a pure function of its declared parents' values. `Eval` is the reference meaning that
 the propagation engine (CausalTrace) is proved against.
 */
module CausalSpec {
  import opened Wrappers

  type Value(==, !new)
  type Var = string

  datatype Mechanism = Mechanism(parents: seq<Var>, compute: seq<Value> -> Value, lazy: bool)

  type Mechanisms = map<Var, Mechanism>

  /** The mechanism an intervention installs: no parents, always the given value. */
  function Constant(value: Value): Mechanism {
    Mechanism([], (_: seq<Value>) => value, false)
  }

  // ---------------------------------------------------------------- graph shape

  /** A ranking that certifies acyclicity: every parent is declared and ranked strictly below its child. */
  ghost predicate Ranked(m: Mechanisms, rank: map<Var, nat>, bound: nat) {
    forall v :: v in m ==>
                  && v in rank && rank[v] <= bound
                  && forall p {:trigger p in m[v].parents} :: p in m[v].parents ==>
                    p in m && p in rank && rank[p] < rank[v]
  }

  ghost predicate Acyclic(m: Mechanisms) {
    exists rank: map<Var, nat>, bound: nat :: Ranked(m, rank, bound)
  }

  // ---------------------------------------------------------------- evaluation

  predicate Ready(values: map<Var, Value>, parents: seq<Var>) {
    forall p :: p in parents ==> p in values
  }

  function Args(values: map<Var, Value>, parents: seq<Var>): seq<Value>
    requires Ready(values, parents)
  {
    seq(|parents|, i requires 0 <= i < |parents| => values[parents[i]])
  }

  /** One application of v's mechanism to the values at hand. */
  function Step(m: Mechanisms, values: map<Var, Value>, v: Var): Option<Value>
    requires v in m
  {
    if Ready(values, m[v].parents) then Some(m[v].compute(Args(values, m[v].parents))) else None
  }

  /**
   Recursive evaluation of the mechanisms on the values held by parentless variables. With `force`,
   lazy variables are evaluated like any other; without it a lazy variable that was not supplied
   counts as absent, which is how the eager propagation sees it.
   */
  ghost function Eval(m: Mechanisms, sources: map<Var, Value>, force: bool,
                      rank: map<Var, nat>, bound: nat, v: Var): Option<Value>
    requires Ranked(m, rank, bound) && v in m
    decreases rank[v]
  {
    var ps := m[v].parents;
    if ps == [] && v in sources then Some(sources[v])
    else if ps == [] then
      if m[v].lazy && force then Some(m[v].compute([])) else None
    else if m[v].lazy && !force then None
    else if forall p :: p in ps ==> Eval(m, sources, force, rank, bound, p).Some? then
      Some(m[v].compute(
             seq(|ps|, i requires 0 <= i < |ps| =>
                         assert ps[i] in m[v].parents; Eval(m, sources, force, rank, bound, ps[i]).value)))
    else None
  }

  /** What the value of v has to be, given the values of its parents. */
  function Rule(model: Model, force: bool, values: map<Var, Value>, v: Var): Option<Value>
    requires v in model.m
  {
    var mech := model.m[v];
    if mech.parents == [] && v in model.sources then Some(model.sources[v])
    else if mech.lazy && !force then None
    else if mech.parents == [] && !mech.lazy then None
    else Step(model.m, values, v)
  }

  /** The mechanisms in force together with the values their parentless variables hold. */
  datatype Model = Model(m: Mechanisms, sources: map<Var, Value>)

  /** A fixpoint: every variable holds exactly what its mechanism asks for, or nothing if it cannot be computed. */
  ghost predicate Fixpoint(model: Model, force: bool, values: map<Var, Value>) {
    && values.Keys <= model.m.Keys
    && forall v {:trigger Lookup(values, v)} :: v in model.m ==> Lookup(values, v) == Rule(model, force, values, v)
  }

  ghost function EvalMap(model: Model, force: bool, rank: map<Var, nat>, bound: nat): map<Var, Value>
    requires Ranked(model.m, rank, bound)
  {
    map v | v in model.m && Eval(model.m, model.sources, force, rank, bound, v).Some?
      :: Eval(model.m, model.sources, force, rank, bound, v).value
  }

  /** Recursive evaluation is a fixpoint. */
  lemma EvalIsFixpoint(model: Model, force: bool, rank: map<Var, nat>, bound: nat)
    requires Ranked(model.m, rank, bound)
    ensures Fixpoint(model, force, EvalMap(model, force, rank, bound))
  {
    var m, s, values := model.m, model.sources, EvalMap(model, force, rank, bound);
    forall v | v in m
      ensures Lookup(values, v) == Rule(model, force, values, v)
    {
      var ps := m[v].parents;
      if forall p :: p in ps ==> Eval(m, s, force, rank, bound, p).Some? {
        assert Args(values, ps)
            == seq(|ps|, i requires 0 <= i < |ps| =>
                           assert ps[i] in m[v].parents; Eval(m, s, force, rank, bound, ps[i]).value);
        assert ps == [] ==> Args(values, ps) == [];
      } else {
        assert !Ready(values, ps);
      }
    }
  }

  /** On an acyclic graph there is only one fixpoint. */
  lemma {:induction false} FixpointUnique(model: Model, force: bool, a: map<Var, Value>, b: map<Var, Value>,
                                          rank: map<Var, nat>, bound: nat, v: Var)
    requires Ranked(model.m, rank, bound) && v in model.m
    requires Fixpoint(model, force, a) && Fixpoint(model, force, b)
    ensures Lookup(a, v) == Lookup(b, v)
    decreases rank[v]
  {
    var ps := model.m[v].parents;
    forall p | p in ps
      ensures Lookup(a, p) == Lookup(b, p)
    {
      FixpointUnique(model, force, a, b, rank, bound, p);
    }
    assert Ready(a, ps) == Ready(b, ps);
    if Ready(a, ps) {
      forall i | 0 <= i < |ps|
        ensures a[ps[i]] == b[ps[i]]
      {
        assert Lookup(a, ps[i]) == Lookup(b, ps[i]);
      }
      assert Args(a, ps) == Args(b, ps);
    }
  }

  lemma SomeFixpoint(model: Model, force: bool)
    requires Acyclic(model.m)
    ensures exists values :: Fixpoint(model, force, values)
  {
    var rank: map<Var, nat>, bound: nat :| Ranked(model.m, rank, bound);
    EvalIsFixpoint(model, force, rank, bound);
  }

  /** The fixpoint of an acyclic model: the recursive evaluation of every variable (SolutionIsEval). */
  ghost function Solution(model: Model, force: bool): (values: map<Var, Value>)
    requires Acyclic(model.m)
    ensures Fixpoint(model, force, values)
  {
    SomeFixpoint(model, force);
    var values :| Fixpoint(model, force, values);
    values
  }

  /** Any fixpoint of an acyclic model is its recursive evaluation, whatever ranking justified the recursion. */
  lemma FixpointIsSolution(model: Model, force: bool, values: map<Var, Value>)
    requires Acyclic(model.m) && Fixpoint(model, force, values)
    ensures values == Solution(model, force)
  {
    var rank: map<Var, nat>, bound: nat :| Ranked(model.m, rank, bound);
    var sol := Solution(model, force);
    forall v | v in model.m
      ensures Lookup(values, v) == Lookup(sol, v)
    {
      FixpointUnique(model, force, values, sol, rank, bound, v);
    }
    assert values.Keys == sol.Keys by {
      forall v ensures v in values <==> v in sol {
        if v in model.m { assert Lookup(values, v) == Lookup(sol, v); }
      }
    }
    forall v | v in values
      ensures values[v] == sol[v]
    {
      assert Lookup(values, v) == Lookup(sol, v);
    }
  }

  /** `Solution` is `Eval`, for every ranking. */
  lemma SolutionIsEval(model: Model, force: bool, rank: map<Var, nat>, bound: nat, v: Var)
    requires Ranked(model.m, rank, bound) && v in model.m
    ensures Lookup(Solution(model, force), v) == Eval(model.m, model.sources, force, rank, bound, v)
  {
    EvalIsFixpoint(model, force, rank, bound);
    FixpointIsSolution(model, force, EvalMap(model, force, rank, bound));
  }

  /** The value of v, every mechanism evaluated: the meaning a read of v is meant to have. */
  ghost function Evaluate(model: Model, v: Var): Option<Value>
    requires Acyclic(model.m)
  {
    Lookup(Solution(model, true), v)
  }

  /** What the first read of a new run returns: lazy variables are computed only on demand, from stored parents. */
  ghost function Observe(model: Model, v: Var): Option<Value>
    requires Acyclic(model.m)
  {
    var stored := Solution(model, false);
    if v in model.m && v !in stored && model.m[v].lazy then Step(model.m, stored, v)
    else Lookup(stored, v)
  }

  /** Whatever the eager propagation stores agrees with full evaluation. */
  lemma {:induction false} StoredIsEvaluated(model: Model, rank: map<Var, nat>, bound: nat, v: Var)
    requires Ranked(model.m, rank, bound) && v in model.m
    ensures v in Solution(model, false) ==> Lookup(Solution(model, false), v) == Lookup(Solution(model, true), v)
    decreases rank[v]
  {
    var ps, stored, full := model.m[v].parents, Solution(model, false), Solution(model, true);
    forall p | p in ps
      ensures p in stored ==> Lookup(stored, p) == Lookup(full, p)
    {
      StoredIsEvaluated(model, rank, bound, p);
    }
    assert Lookup(stored, v) == Rule(model, false, stored, v);
    assert Lookup(full, v) == Rule(model, true, full, v);
    if Ready(stored, ps) {
      assert Args(stored, ps) == Args(full, ps) by {
        forall i | 0 <= i < |ps| ensures stored[ps[i]] == full[ps[i]] {
          assert Lookup(stored, ps[i]) == Lookup(full, ps[i]);
        }
      }
    }
  }

  /** p is only computed on demand and was not supplied. */
  predicate Deferred(model: Model, p: Var) {
    p in model.m && model.m[p].lazy && !(model.m[p].parents == [] && p in model.sources)
  }

  /** No variable that has a value depends on a deferred one. */
  ghost predicate NoDeferredParents(model: Model)
    requires Acyclic(model.m)
  {
    forall v, p {:trigger p in model.m[v].parents} ::
      v in model.m && p in model.m[v].parents && Evaluate(model, v).Some? ==> !Deferred(model, p)
  }

  lemma {:induction false} ReadIsEvaluation(model: Model, rank: map<Var, nat>, bound: nat, v: Var)
    requires Ranked(model.m, rank, bound) && v in model.m
    requires NoDeferredParents(model)
    ensures Observe(model, v) == Evaluate(model, v)
    decreases rank[v]
  {
    var ps, stored, full := model.m[v].parents, Solution(model, false), Solution(model, true);
    assert Lookup(stored, v) == Rule(model, false, stored, v);
    assert Lookup(full, v) == Rule(model, true, full, v);
    StoredIsEvaluated(model, rank, bound, v);
    if v in full && ps != [] {
      assert Evaluate(model, v).Some?;
      assert Ready(full, ps);
      forall p | p in ps
        ensures p in stored && stored[p] == full[p]
      {
        ReadIsEvaluation(model, rank, bound, p);
        assert !Deferred(model, p);
        assert Lookup(stored, p) == Rule(model, false, stored, p);
      }
      assert Args(stored, ps) == Args(full, ps);
    } else if ps != [] {
      assert !Ready(full, ps);
      var p :| p in ps && p !in full;
      StoredIsEvaluated(model, rank, bound, p);
    } else {
      assert Args(stored, ps) == Args(full, ps);
    }
  }

  /** On the first read of a new run, a variable with a deferred parent cannot be read. */
  lemma DeferredParentBlocksRead(model: Model, v: Var, p: Var)
    requires Acyclic(model.m)
    requires v in model.m && p in model.m[v].parents && Deferred(model, p)
    ensures Observe(model, v) == None
  {
    var stored := Solution(model, false);
    assert Lookup(stored, p) == Rule(model, false, stored, p);
    assert p !in stored;
    assert Lookup(stored, v) == Rule(model, false, stored, v);
    assert !Ready(stored, model.m[v].parents);
  }

  /**
   The first read of a new run is the recursive evaluation, whichever variable it reads, exactly when no variable that
   has a value depends on a deferred one.
   */
  lemma ReadsAreEvaluationIff(model: Model)
    requires Acyclic(model.m)
    ensures (forall v :: v in model.m ==> Observe(model, v) == Evaluate(model, v)) <==> NoDeferredParents(model)
  {
    if NoDeferredParents(model) {
      var rank: map<Var, nat>, bound: nat :| Ranked(model.m, rank, bound);
      forall v | v in model.m ensures Observe(model, v) == Evaluate(model, v) {
        ReadIsEvaluation(model, rank, bound, v);
      }
    } else {
      var v, p :| v in model.m && p in model.m[v].parents && Evaluate(model, v).Some? && Deferred(model, p);
      DeferredParentBlocksRead(model, v, p);
    }
  }

  /** No deferred variable feeds another one: what every read of every run needs (Runs.EveryReadIsEvaluation). */
  ghost predicate NoDeferredFeeders(model: Model) {
    forall v, p {:trigger p in model.m[v].parents} :: v in model.m && p in model.m[v].parents ==> !Deferred(model, p)
  }

  /** Where no deferred variable feeds another one, the condition of the first read always holds. */
  lemma FedByStoredReadsEvaluation(model: Model, v: Var)
    requires Acyclic(model.m) && NoDeferredFeeders(model)
    ensures Observe(model, v) == Evaluate(model, v)
  {
    assert NoDeferredParents(model);
    ReadsAreEvaluationIff(model);
    if v !in model.m {
      assert v !in Solution(model, false) && v !in Solution(model, true);
    }
  }

  // ---------------------------------------------------------------- surgery

  /** Breaking v's causal link: its mechanism becomes the constant x. */
  function Intervened(model: Model, v: Var, x: Value): Model {
    Model(model.m[v := Constant(x)], model.sources[v := x])
  }

  datatype Edit = Edit(variable: Var, value: Value)

  function InterveneAll(model: Model, edits: seq<Edit>): Model {
    if edits == [] then model
    else var last := edits[|edits| - 1];
         Intervened(InterveneAll(model, edits[..|edits| - 1]), last.variable, last.value)
  }

  lemma InterveneOneMore(model: Model, edits: seq<Edit>, e: Edit)
    ensures InterveneAll(model, edits + [e]) == Intervened(InterveneAll(model, edits), e.variable, e.value)
  {
    assert (edits + [e])[..|edits|] == edits;
  }

  /** The dictionary a list of assignments leaves behind: the last write to a variable wins. */
  function LastWrites(edits: seq<Edit>): map<Var, Value> {
    if edits == [] then map[]
    else var last := edits[|edits| - 1];
         LastWrites(edits[..|edits| - 1])[last.variable := last.value]
  }

  /** All edits made at once. */
  function Surgery(model: Model, edits: map<Var, Value>): Model {
    Model(map v | v in model.m.Keys + edits.Keys :: if v in edits then Constant(edits[v]) else model.m[v],
          model.sources + edits)
  }

  lemma SurgeryStep(model: Model, edits: map<Var, Value>, v: Var, x: Value)
    ensures Surgery(model, edits[v := x]).m == Surgery(model, edits).m[v := Constant(x)]
  {
    var a, b := Surgery(model, edits[v := x]).m, Surgery(model, edits).m[v := Constant(x)];
    assert a.Keys == b.Keys;
    forall w | w in a
      ensures a[w] == b[w]
    {
      if w != v && w !in edits {
        assert a[w] == model.m[w] == b[w];
      }
    }
  }

  lemma SurgerySources(model: Model, edits: map<Var, Value>, v: Var, x: Value)
    ensures Surgery(model, edits[v := x]).sources == Surgery(model, edits).sources[v := x]
  {
  }

  lemma NoSurgery(model: Model)
    ensures Surgery(model, map[]) == model
  {
    assert Surgery(model, map[]).m == model.m;
    assert Surgery(model, map[]).sources == model.sources;
  }

  /** Sequential interventions are simultaneous surgery with the last write per variable. */
  lemma {:induction false} SequentialIsSimultaneous(model: Model, edits: seq<Edit>)
    ensures InterveneAll(model, edits) == Surgery(model, LastWrites(edits))
  {
    if edits == [] {
      NoSurgery(model);
    } else {
      var init, last := edits[..|edits| - 1], edits[|edits| - 1];
      SequentialIsSimultaneous(model, init);
      SurgeryStep(model, LastWrites(init), last.variable, last.value);
      SurgerySources(model, LastWrites(init), last.variable, last.value);
    }
  }

  ghost predicate DistinctTargets(edits: seq<Edit>) {
    forall i, j :: 0 <= i < j < |edits| ==> edits[i].variable != edits[j].variable
  }

  lemma {:induction false} LastWritesOfDistinct(edits: seq<Edit>)
    requires DistinctTargets(edits)
    ensures forall v :: v in LastWrites(edits) <==> exists i :: 0 <= i < |edits| && edits[i].variable == v
    ensures forall i :: 0 <= i < |edits| ==>
                          edits[i].variable in LastWrites(edits)
                            && LastWrites(edits)[edits[i].variable] == edits[i].value
  {
    if edits != [] {
      LastWritesOfDistinct(edits[..|edits| - 1]);
    }
  }

  /** With distinct targets the writes that survive do not depend on the order. */
  lemma LastWritesOfPermutation(edits: seq<Edit>, permuted: seq<Edit>, v: Var)
    requires DistinctTargets(edits) && DistinctTargets(permuted)
    requires multiset(edits) == multiset(permuted)
    ensures v in LastWrites(edits) ==> v in LastWrites(permuted) && LastWrites(edits)[v] == LastWrites(permuted)[v]
  {
    LastWritesOfDistinct(edits);
    if v in LastWrites(edits) {
      var i :| 0 <= i < |edits| && edits[i].variable == v;
      assert edits[i] in multiset(permuted);
      var j :| 0 <= j < |permuted| && permuted[j] == edits[i];
      LastWritesOfDistinct(permuted);
      assert permuted[j].variable in LastWrites(permuted);
    }
  }

  /** With distinct targets the order of the interventions does not matter. */
  lemma InterventionsCommute(model: Model, edits: seq<Edit>, permuted: seq<Edit>)
    requires DistinctTargets(edits) && DistinctTargets(permuted)
    requires multiset(edits) == multiset(permuted)
    ensures InterveneAll(model, edits) == InterveneAll(model, permuted)
  {
    SequentialIsSimultaneous(model, edits);
    SequentialIsSimultaneous(model, permuted);
    var a, b := LastWrites(edits), LastWrites(permuted);
    forall v
      ensures v in a <==> v in b
      ensures v in a && v in b ==> a[v] == b[v]
    {
      LastWritesOfPermutation(edits, permuted, v);
      LastWritesOfPermutation(permuted, edits, v);
    }
    assert LastWrites(edits) == LastWrites(permuted);
  }

  /** Surgery only removes edges. */
  lemma SurgeryKeepsRanking(model: Model, edits: map<Var, Value>, rank: map<Var, nat>, bound: nat)
    requires Ranked(model.m, rank, bound) && edits.Keys <= model.m.Keys
    ensures Ranked(Surgery(model, edits).m, rank, bound)
  {
  }

  /**
   The meaning of surgery: an edited variable has its new value and every other variable still obeys its
   own mechanism on its parents' new values.
   */
  lemma SurgeryMeaning(model: Model, edits: map<Var, Value>, v: Var)
    requires Acyclic(model.m) && edits.Keys <= model.m.Keys && v in model.m
    ensures Acyclic(Surgery(model, edits).m)
    ensures Evaluate(Surgery(model, edits), v)
         == if v in edits then Some(edits[v])
            else Rule(model, true, Solution(Surgery(model, edits), true), v)
  {
    var rank: map<Var, nat>, bound: nat :| Ranked(model.m, rank, bound);
    SurgeryKeepsRanking(model, edits, rank, bound);
    var after := Surgery(model, edits);
    var sol := Solution(after, true);
    assert Lookup(sol, v) == Rule(after, true, sol, v);
  }

  lemma OwnValueKeepsFixpoint(model: Model, v: Var, x: Value, sol: map<Var, Value>)
    requires v in model.m && Fixpoint(model, true, sol) && v in sol && sol[v] == x
    ensures Fixpoint(Intervened(model, v, x), true, sol)
  {
    var after := Intervened(model, v, x);
    assert after.m.Keys == model.m.Keys;
    forall w | w in after.m
      ensures Lookup(sol, w) == Rule(after, true, sol, w)
    {
      if w != v {
        assert after.m[w] == model.m[w];
        assert Step(after.m, sol, w) == Step(model.m, sol, w);
        assert Lookup(sol, w) == Rule(model, true, sol, w);
      }
    }
  }

  /** The sources of `model`, and possibly values that parentless lazy variables gave when they were read. */
  ghost predicate SuppliedOrRead(model: Model, sources: map<Var, Value>) {
    && model.sources.Keys <= sources.Keys
    && forall v :: v in sources ==>
         if v in model.sources then sources[v] == model.sources[v]
         else v in model.m && model.m[v].lazy && model.m[v].parents == [] && sources[v] == model.m[v].compute([])
  }

  /** Recording what a parentless lazy variable gave when it was read changes no variable's meaning. */
  lemma ReadsKeepMeaning(model: Model, sources: map<Var, Value>)
    requires Acyclic(model.m) && SuppliedOrRead(model, sources)
    ensures Solution(Model(model.m, sources), true) == Solution(model, true)
  {
    var after, sol := Model(model.m, sources), Solution(model, true);
    assert Args(sol, []) == [];
    forall v | v in model.m
      ensures Lookup(sol, v) == Rule(after, true, sol, v)
    {
      assert Lookup(sol, v) == Rule(model, true, sol, v);
    }
    FixpointIsSolution(after, true, sol);
  }

  /** Fixing a variable at the value it already has changes no value. */
  lemma InterveningWithOwnValue(model: Model, v: Var, x: Value, u: Var)
    requires Acyclic(model.m) && Evaluate(model, v) == Some(x)
    ensures Acyclic(Intervened(model, v, x).m)
    ensures Evaluate(Intervened(model, v, x), u) == Evaluate(model, u)
  {
    var sol := Solution(model, true);
    var after := Intervened(model, v, x);
    assert Acyclic(after.m) by {
      var rank: map<Var, nat>, bound: nat :| Ranked(model.m, rank, bound);
      assert Ranked(after.m, rank, bound);
    }
    OwnValueKeepsFixpoint(model, v, x, sol);
    FixpointIsSolution(after, true, sol);
  }
}
