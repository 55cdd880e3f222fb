/**
 Whole runs of one trace: reads, which cache, and interventions, in any order. When every read of every run returns
 the recursive evaluation, and a model on which reads fail, then succeed, then go stale.
 */
module Runs {
  import opened Wrappers
  import opened CausalSpec
  import opened Trace

  datatype Op = Read(variable: Var) | Write(variable: Var, value: Value)

  ghost function After(children: map<Var, seq<Var>>, s: Store, op: Op): (after: Store)
    requires WiredSomehow(s.m, children)
    ensures WiredSomehow(after.m, children)
  {
    match op
    case Read(v) => Cached(s, v)
    case Write(v, x) => Written(children, s, v, x)
  }

  /** The store after a run. */
  ghost function Ran(children: map<Var, seq<Var>>, s: Store, ops: seq<Op>): (after: Store)
    requires WiredSomehow(s.m, children)
    ensures WiredSomehow(after.m, children)
  {
    if ops == [] then s else After(children, Ran(children, s, ops[..|ops| - 1]), ops[|ops| - 1])
  }

  /** The model a run has made: only interventions change it. */
  function Told(model: Model, ops: seq<Op>): Model {
    if ops == [] then model
    else
      var before, last := Told(model, ops[..|ops| - 1]), ops[|ops| - 1];
      if last.Write? then Intervened(before, last.variable, last.value) else before
  }

  lemma RanOneMore(children: map<Var, seq<Var>>, s: Store, ops: seq<Op>, op: Op)
    requires WiredSomehow(s.m, children)
    ensures Ran(children, s, ops + [op]) == After(children, Ran(children, s, ops), op)
  {
    assert (ops + [op])[..|ops|] == ops;
  }

  method PerformOne(t: CausalTrace, op: Op) returns (answer: Option<Value>)
    requires t.Linked()
    modifies t`values, t`mechanisms
    ensures t.Linked() && t.Now() == After(t.children, old(t.Now()), op)
    ensures op.Read? ==> answer == OnDemand(old(t.Now()).m, old(t.Now()).values, op.variable)
  {
    answer := None;
    match op {
      case Read(v) =>
        answer := t.Get(v);
      case Write(v, x) =>
        var _ := t.Intervene(v, x);
    }
  }

  /** A read in a run is answered from the store the run has left so far. */
  ghost predicate AnsweredAt(children: map<Var, seq<Var>>, start: Store, ops: seq<Op>, i: nat, answer: Option<Value>)
    requires WiredSomehow(start.m, children) && i < |ops|
  {
    ops[i].Read? ==> answer == Answer(children, start, ops[..i], ops[i].variable)
  }

  /** A trace goes through exactly these stores, and answers from them. */
  method Perform(t: CausalTrace, ops: seq<Op>) returns (answers: seq<Option<Value>>)
    requires t.Linked()
    modifies t`values, t`mechanisms
    ensures t.Linked() && t.Now() == Ran(t.children, old(t.Now()), ops)
    ensures |answers| == |ops|
    ensures forall i {:trigger answers[i]} :: 0 <= i < |ops| ==>
              AnsweredAt(t.children, old(t.Now()), ops, i, answers[i])
  {
    answers := [];
    ghost var start := t.Now();
    for i := 0 to |ops|
      invariant t.Linked() && t.Now() == Ran(t.children, start, ops[..i]) && |answers| == i
      invariant forall j {:trigger answers[j]} :: 0 <= j < i ==> AnsweredAt(t.children, start, ops, j, answers[j])
    {
      TakeOneMore(ops, i);
      RanOneMore(t.children, start, ops[..i], ops[i]);
      var answer := PerformOne(t, ops[i]);
      answers := answers + [answer];
    }
    TakeAll(ops);
  }

  /** What a read of v returns after a run. */
  ghost function Answer(children: map<Var, seq<Var>>, start: Store, ops: seq<Op>, v: Var): Option<Value>
    requires WiredSomehow(start.m, children)
  {
    var s := Ran(children, start, ops);
    OnDemand(s.m, s.values, v)
  }

  ghost predicate IsEvaluation(model: Model, v: Var, answer: Option<Value>) {
    Acyclic(model.m) && answer == Evaluate(model, v)
  }

  ghost predicate Meant(children: map<Var, seq<Var>>, start: Store, model: Model, ops: seq<Op>, v: Var)
    requires WiredSomehow(start.m, children)
  {
    IsEvaluation(Told(model, ops), v, Answer(children, start, ops, v))
  }

  ghost predicate EveryReadMeant(children: map<Var, seq<Var>>, start: Store, model: Model)
    requires WiredSomehow(start.m, children)
  {
    forall ops: seq<Op>, v: Var :: Meant(children, start, model, ops, v)
  }

  // ---------------------------------------------------------------- where nothing deferred feeds anything

  /** The store is current, and its model is the run's, cached reads of parentless lazy variables aside. */
  ghost predicate Tracks(children: map<Var, seq<Var>>, s: Store, model: Model) {
    Current(children, s) && s.m == model.m && SuppliedOrRead(model, ModelOf(s).sources)
  }

  lemma WriteTracks(children: map<Var, seq<Var>>, s: Store, model: Model, v: Var, x: Value)
    requires Tracks(children, s, model)
    ensures Tracks(children, Written(children, s, v, x), Intervened(model, v, x))
  {
    WriteKeepsCurrent(children, s, v, x);
    var sources, after := ModelOf(s).sources, Intervened(model, v, x);
    assert ModelOf(Written(children, s, v, x)).sources == sources[v := x];
    forall u | u in sources[v := x] && u !in after.sources
      ensures u in after.m && after.m[u].lazy && after.m[u].parents == []
                && sources[v := x][u] == after.m[u].compute([])
    {
      assert u != v && after.m[u] == model.m[u];
    }
  }

  lemma ReadTracks(children: map<Var, seq<Var>>, s: Store, model: Model, v: Var)
    requires Tracks(children, s, model)
    ensures Tracks(children, Cached(s, v), model)
    ensures Acyclic(model.m) && OnDemand(s.m, s.values, v) == Evaluate(model, v)
  {
    ReadIsMeaning(children, s, v);
    ReadsKeepMeaning(model, ModelOf(s).sources);
    var before, after := ModelOf(s).sources, ModelOf(Cached(s, v)).sources;
    forall u | u in after && u !in model.sources
      ensures u in model.m && model.m[u].lazy && model.m[u].parents == [] && after[u] == model.m[u].compute([])
    {
      assert u in before ==> after[u] == before[u];
    }
  }

  lemma {:induction false} RunTracks(children: map<Var, seq<Var>>, start: Store, model: Model, ops: seq<Op>)
    requires Tracks(children, start, model)
    ensures Tracks(children, Ran(children, start, ops), Told(model, ops))
  {
    if ops != [] {
      var front, last := ops[..|ops| - 1], ops[|ops| - 1];
      RunTracks(children, start, model, front);
      match last {
        case Read(v) => ReadTracks(children, Ran(children, start, front), Told(model, front), v);
        case Write(v, x) => WriteTracks(children, Ran(children, start, front), Told(model, front), v, x);
      }
    }
  }

  // ---------------------------------------------------------------- where something deferred feeds v

  /** Setting each variable of a list to x. */
  function WriteEach(vs: seq<Var>, x: Value): seq<Op> {
    seq(|vs|, i requires 0 <= i < |vs| => Write(vs[i], x))
  }

  /** p has no value, so v, which it feeds, has none either. */
  ghost predicate Blocked(children: map<Var, seq<Var>>, s: Store, p: Var, v: Var) {
    && CoherentStore(s.m, children, s.values, {})
    && v in s.m && p in s.m[v].parents && p in s.m && s.m[p].lazy && p !in s.values
  }

  lemma BlockedIsUnreadable(children: map<Var, seq<Var>>, s: Store, p: Var, v: Var)
    requires Blocked(children, s, p, v)
    ensures OnDemand(s.m, s.values, v) == None
  {
    assert !Ready(s.values, s.m[v].parents);
  }

  lemma StaysBlocked(children: map<Var, seq<Var>>, s: Store, p: Var, v: Var, u: Var, x: Value)
    requires Blocked(children, s, p, v) && u != p && u != v
    ensures Blocked(children, Written(children, s, u, x), p, v)
  {
    WriteIsSurgery(children, s, u, x);
    var after := Written(children, s, u, x);
    assert after.m[p] == s.m[p] && after.m[v] == s.m[v];
  }

  /** Setting every other variable leaves p's and v's mechanisms alone and supplies everything else. */
  ghost predicate OthersSet(model: Model, now: Model, vs: seq<Var>, x: Value) {
    && now.m.Keys == model.m.Keys
    && (forall u :: u in vs ==> u in now.m && now.m[u] == Constant(x) && u in now.sources && now.sources[u] == x)
    && (forall u :: u in model.m && u !in vs ==> now.m[u] == model.m[u])
    && (forall u :: u !in vs ==> Lookup(now.sources, u) == Lookup(model.sources, u))
  }

  lemma OthersSetOneMore(model: Model, now: Model, vs: seq<Var>, v: Var, x: Value)
    requires OthersSet(model, now, vs, x) && v in model.m
    ensures OthersSet(model, Intervened(now, v, x), vs + [v], x)
  {
    var after := Intervened(now, v, x);
    forall u | u !in vs + [v] ensures Lookup(after.sources, u) == Lookup(model.sources, u) {
      assert u !in vs && u != v;
      assert Lookup(now.sources, u) == Lookup(model.sources, u);
    }
  }

  lemma FrontWrites(vs: seq<Var>, x: Value)
    requires vs != []
    ensures WriteEach(vs, x) == WriteEach(vs[..|vs| - 1], x) + [Write(vs[|vs| - 1], x)]
  {
  }

  lemma {:induction false} WritesKeepBlocked(children: map<Var, seq<Var>>, start: Store, p: Var, v: Var,
                                             vs: seq<Var>, x: Value)
    requires Blocked(children, start, p, v) && p !in vs && v !in vs
    ensures Blocked(children, Ran(children, start, WriteEach(vs, x)), p, v)
  {
    if vs != [] {
      var front, last := vs[..|vs| - 1], vs[|vs| - 1];
      assert last in vs;
      WritesKeepBlocked(children, start, p, v, front, x);
      FrontWrites(vs, x);
      RanOneMore(children, start, WriteEach(front, x), Write(last, x));
      StaysBlocked(children, Ran(children, start, WriteEach(front, x)), p, v, last, x);
    }
  }

  lemma ToldOneMore(model: Model, ops: seq<Op>, v: Var, x: Value)
    ensures Told(model, ops + [Write(v, x)]) == Intervened(Told(model, ops), v, x)
  {
    assert (ops + [Write(v, x)])[..|ops|] == ops;
  }

  lemma {:induction false} WritesSetOthers(model: Model, vs: seq<Var>, x: Value)
    requires forall u :: u in vs ==> u in model.m
    ensures OthersSet(model, Told(model, WriteEach(vs, x)), vs, x)
  {
    if vs != [] {
      var front, last := vs[..|vs| - 1], vs[|vs| - 1];
      FrontAndLast(vs);
      assert last in vs;
      WritesSetOthers(model, front, x);
      FrontWrites(vs, x);
      ToldOneMore(model, WriteEach(front, x), last, x);
      OthersSetOneMore(model, Told(model, WriteEach(front, x)), front, last, x);
    }
  }

  lemma Enumerated(vs: set<Var>) returns (order: seq<Var>)
    ensures forall v :: v in order <==> v in vs
  {
    if vs == {} {
      order := [];
    } else {
      var v :| v in vs;
      var rest := Enumerated(vs - {v});
      order := rest + [v];
    }
  }

  /** With everything else set, p and v can be evaluated. */
  lemma OthersSetGiveValue(model: Model, now: Model, vs: seq<Var>, x: Value, p: Var, v: Var,
                           rank: map<Var, nat>, bound: nat)
    requires Ranked(model.m, rank, bound) && v in model.m && p in model.m[v].parents && Deferred(model, p)
    requires forall u :: u in vs <==> u in model.m.Keys - {p, v}
    requires OthersSet(model, now, vs, x)
    ensures Acyclic(now.m) && Evaluate(now, v).Some?
  {
    assert rank[p] < rank[v];
    OthersSetRanked(model, now, vs, x, rank, bound);
    var sol := Solution(now, true);
    assert now.m[p] == model.m[p] && now.m[v] == model.m[v];
    assert Lookup(now.sources, p) == Lookup(model.sources, p);
    forall u | u in model.m && u != p && u != v ensures u in sol {
      OtherIsSet(model, now, vs, x, u, sol);
    }
    LazyHasValue(now, p, sol);
    assert Ready(sol, now.m[v].parents);
    assert Lookup(sol, v) == Rule(now, true, sol, v);
  }

  lemma OthersSetRanked(model: Model, now: Model, vs: seq<Var>, x: Value, rank: map<Var, nat>, bound: nat)
    requires Ranked(model.m, rank, bound) && OthersSet(model, now, vs, x)
    ensures Ranked(now.m, rank, bound)
  {
    forall u | u in now.m ensures now.m[u] == Constant(x) || now.m[u] == model.m[u] {
    }
  }

  lemma OtherIsSet(model: Model, now: Model, vs: seq<Var>, x: Value, u: Var, sol: map<Var, Value>)
    requires OthersSet(model, now, vs, x) && u in vs && Fixpoint(now, true, sol)
    ensures u in sol
  {
    assert Lookup(sol, u) == Rule(now, true, sol, u);
  }

  lemma LazyHasValue(now: Model, p: Var, sol: map<Var, Value>)
    requires Fixpoint(now, true, sol) && p in now.m && now.m[p].lazy && Ready(sol, now.m[p].parents)
    ensures p in sol
  {
    assert Lookup(sol, p) == Rule(now, true, sol, p);
  }

  /** What is deferred is not stored by construction. */
  lemma DeferredIsAbsent(children: map<Var, seq<Var>>, start: Store, model: Model, p: Var, v: Var)
    requires CoherentStore(start.m, children, start.values, {}) && ModelOf(start) == model
    requires v in model.m && p in model.m[v].parents && Deferred(model, p)
    ensures Blocked(children, start, p, v)
  {
    assert p in start.values && !Computed(start.m, p) ==> p in ModelOf(start).sources;
  }

  /**
   Every read of every run returns the recursive evaluation exactly when no lazy variable that was not supplied
   feeds another variable.
   */
  lemma EveryReadIsEvaluation(children: map<Var, seq<Var>>, start: Store, model: Model)
    requires CoherentStore(start.m, children, start.values, {}) && ModelOf(start) == model
    ensures EveryReadMeant(children, start, model) <==> NoDeferredFeeders(model)
  {
    if NoDeferredFeeders(model) {
      SuppliedFeed(model.m, model.sources, start.values);
      assert Tracks(children, start, model);
      forall ops: seq<Op>, v: Var ensures Meant(children, start, model, ops, v) {
        RunTracks(children, start, model, ops);
        ReadTracks(children, Ran(children, start, ops), Told(model, ops), v);
      }
    } else {
      var v, p :| v in model.m && p in model.m[v].parents && Deferred(model, p);
      var x := model.m[v].compute([]);
      WiredIsAcyclic(start.m, children);
      var rank: map<Var, nat>, bound: nat :| Ranked(model.m, rank, bound);
      var vs := Enumerated(model.m.Keys - {p, v});
      DeferredIsAbsent(children, start, model, p, v);
      WritesKeepBlocked(children, start, p, v, vs, x);
      WritesSetOthers(model, vs, x);
      BlockedIsUnreadable(children, Ran(children, start, WriteEach(vs, x)), p, v);
      OthersSetGiveValue(model, Told(model, WriteEach(vs, x)), vs, x, p, v, rank, bound);
      assert !Meant(children, start, model, WriteEach(vs, x), v);
    }
  }

  /** A new run: what is read is the recursive evaluation of the model the interventions so far have made. */
  method NewRun(mechanisms: Mechanisms, inputs: map<Var, Value>, ops: seq<Op>) returns (answers: seq<Option<Value>>)
    requires Acyclic(mechanisms) && inputs.Keys <= mechanisms.Keys && RootsOnly(mechanisms, inputs)
    ensures |answers| == |ops|
    ensures NoDeferredFeeders(Model(mechanisms, inputs)) ==>
              forall i {:trigger answers[i]} :: 0 <= i < |ops| && ops[i].Read? ==>
                IsEvaluation(Told(Model(mechanisms, inputs), ops[..i]), ops[i].variable, answers[i])
  {
    var t := new CausalTrace(mechanisms, inputs);
    ghost var start, model := t.Now(), Model(mechanisms, inputs);
    EveryReadIsEvaluation(t.children, start, model);
    answers := Perform(t, ops);
    if NoDeferredFeeders(model) {
      forall i {:trigger answers[i]} | 0 <= i < |ops| && ops[i].Read?
        ensures IsEvaluation(Told(model, ops[..i]), ops[i].variable, answers[i])
      {
        assert Meant(t.children, start, model, ops[..i], ops[i].variable);
      }
    }
  }

  // ---------------------------------------------------------------- a lazy variable that feeds another

  /** The first argument, or x where there is none. */
  function First(x: Value): seq<Value> -> Value {
    (args: seq<Value>) => if args == [] then x else args[0]
  }

  /** Inputs A and B, L lazy with A's value, and C, which takes L's value and also has B as a parent. */
  function LazyFeeder(a: Value, b: Value): Mechanisms {
    map["A" := Constant(a), "B" := Constant(b), "L" := Mechanism(["A"], First(a), true),
        "C" := Mechanism(["L", "B"], First(a), false)]
  }

  const FED: map<Var, seq<Var>> := map["A" := ["L"], "B" := ["C"], "L" := ["C"], "C" := []]

  /** Such mechanisms, also when A or B was set. */
  ghost predicate Fed(m: Mechanisms, x: Value) {
    && m.Keys == {"A", "B", "L", "C"}
    && m["A"].parents == [] && m["B"].parents == [] && !m["A"].lazy && !m["B"].lazy
    && m["L"] == Mechanism(["A"], First(x), true) && m["C"] == Mechanism(["L", "B"], First(x), false)
  }

  predicate FedBy(children: map<Var, seq<Var>>) {
    && children.Keys == {"A", "B", "L", "C"}
    && children["A"] == ["L"] && children["B"] == ["C"] && children["L"] == ["C"] && children["C"] == []
  }

  lemma FedIsWired(m: Mechanisms, children: map<Var, seq<Var>>, x: Value) returns (rank: map<Var, nat>)
    requires Fed(m, x) && FedBy(children)
    ensures Wired(m, children, rank, 2) && WiredSomehow(m, children)
  {
    rank := map["A" := 0, "B" := 0, "L" := 1, "C" := 2];
    assert Wired(m, children, rank, 2);
  }

  lemma FedIsInverse(m: Mechanisms, children: map<Var, seq<Var>>, x: Value)
    requires Fed(m, x) && FedBy(children)
    ensures ChildrenOf(m, children)
  {
  }

  /** The push of A drops L and goes no further. */
  lemma PushA(m: Mechanisms, children: map<Var, seq<Var>>, x: Value, pinned: set<Var>, values: map<Var, Value>)
    requires Fed(m, x) && FedBy(children)
    ensures WiredSomehow(m, children) && Pushed(m, children, pinned, values, "A") == values - {"L"}
  {
    var rank := FedIsWired(m, children, x);
    PushedIsWalk(m, children, pinned, values, "A", rank, 2);
  }

  /** The push of B computes C where L is stored, and nothing where it is not. */
  lemma PushB(m: Mechanisms, children: map<Var, seq<Var>>, x: Value, pinned: set<Var>, values: map<Var, Value>)
    requires Fed(m, x) && FedBy(children) && "B" in values && "C" !in pinned
    ensures WiredSomehow(m, children)
    ensures Pushed(m, children, pinned, values, "B") == if "L" in values then values["C" := values["L"]] else values
  {
    var rank := FedIsWired(m, children, x);
    PushedIsWalk(m, children, pinned, values, "B", rank, 2);
    if "L" in values {
      assert Args(values, m["C"].parents) == [values["L"], values["B"]];
    } else {
      assert !Ready(values, m["C"].parents);
    }
  }

  lemma PushTwo(m: Mechanisms, children: map<Var, seq<Var>>, inputs: map<Var, Value>, v: Var, u: Var,
                between: map<Var, Value>)
    requires WiredSomehow(m, children) && v in children && u in children && v != u
    requires between == Pushed(m, children, inputs.Keys, inputs, v)
    ensures Members([v, u]) <= children.Keys
    ensures PushedInTurn(m, children, inputs, [v, u]) == Pushed(m, children, inputs.Keys, between, u)
  {
    PushOneMore(m, children, inputs, [], v);
    assert [] + [v] == [v];
    PushOneMore(m, children, inputs, [v], u);
    assert [v] + [u] == [v, u];
  }

  /** Construction finds nothing to compute: L is lazy, and C is not ready. */
  lemma FedStart(m: Mechanisms, children: map<Var, seq<Var>>, x: Value, inputs: map<Var, Value>)
    requires Fed(m, x) && FedBy(children) && inputs.Keys == {"A", "B"}
    ensures WiredSomehow(m, children) && inputs.Keys <= children.Keys && PushedSomehow(m, children, inputs, inputs)
  {
    PushA(m, children, x, inputs.Keys, inputs);
    assert inputs - {"L"} == inputs;
    PushB(m, children, x, inputs.Keys, inputs);
    PushTwo(m, children, inputs, "A", "B", inputs);
    var order := ["A", "B"];
    assert Members(order) == inputs.Keys && order[0] != order[1];
  }

  lemma FedEvaluates(model: Model, children: map<Var, seq<Var>>, x: Value, y: Value)
    requires Fed(model.m, x) && FedBy(children)
    requires "A" in model.sources && model.sources["A"] == y && "B" in model.sources
    ensures IsEvaluation(model, "C", Some(y))
  {
    var _ := FedIsWired(model.m, children, x);
    WiredIsAcyclic(model.m, children);
    var sol := Solution(model, true);
    assert Lookup(sol, "A") == Rule(model, true, sol, "A");
    assert Lookup(sol, "B") == Rule(model, true, sol, "B");
    assert Lookup(sol, "L") == Rule(model, true, sol, "L");
    assert Args(sol, ["A"]) == [y];
    assert Lookup(sol, "C") == Rule(model, true, sol, "C");
    assert Args(sol, ["L", "B"]) == [y, sol["B"]];
  }

  /** Reading L stores A's value for it. */
  lemma ReadL(s: Store, x: Value, a: Value)
    requires Fed(s.m, x) && "A" in s.values && s.values["A"] == a && "L" !in s.values
    ensures Cached(s, "L") == Store(s.m, s.values["L" := a])
  {
    assert Args(s.values, s.m["L"].parents) == [a];
  }

  /** Reading L and setting B computes C, which could not be read. */
  lemma FedTwo(s: Store, children: map<Var, seq<Var>>, x: Value, b: Value)
    requires Fed(s.m, x) && FedBy(children) && s.m["B"] == Constant(b)
    requires s.values.Keys == {"A", "B"} && s.values["A"] == x && s.values["B"] == b
    ensures WiredSomehow(s.m, children) && OnDemand(s.m, s.values, "C") == None && Cached(s, "L").m == s.m
    ensures Written(children, Cached(s, "L"), "B", b) == Store(s.m, s.values["L" := x]["C" := x])
  {
    var _ := FedIsWired(s.m, children, x);
    assert s.m["C"].parents[0] == "L";
    ReadL(s, x, x);
    var one := s.values["L" := x];
    assert s.m["B" := Constant(b)] == s.m && one["B" := b] == one;
    PushB(s.m, children, x, {}, one);
  }

  /** Setting A to another value leaves C as it is. */
  lemma FedThree(s: Store, children: map<Var, seq<Var>>, x: Value, y: Value)
    requires Fed(s.m, x) && FedBy(children) && "C" in s.values
    ensures WiredSomehow(s.m, children)
    ensures var after := Written(children, s, "A", y); OnDemand(after.m, after.values, "C") == Some(s.values["C"])
  {
    var _ := FedIsWired(s.m, children, x);
    PushA(s.m["A" := Constant(y)], children, x, {}, s.values["A" := y]);
  }

  lemma RunOfTwo(s: Store, children: map<Var, seq<Var>>, op0: Op, op1: Op)
    requires WiredSomehow(s.m, children)
    ensures Ran(children, s, [op0, op1]) == After(children, After(children, s, op0), op1)
  {
    RanOneMore(children, s, [], op0);
    RanOneMore(children, s, [op0], op1);
    assert [] + [op0] == [op0] && [op0] + [op1] == [op0, op1];
  }

  lemma RunOfThree(s: Store, children: map<Var, seq<Var>>, op0: Op, op1: Op, op2: Op)
    requires WiredSomehow(s.m, children)
    ensures Ran(children, s, [op0, op1, op2]) == After(children, Ran(children, s, [op0, op1]), op2)
  {
    ThreeInARow(op0, op1, op2);
    RanOneMore(children, s, [op0, op1], op2);
  }

  lemma ThreeInARow(op0: Op, op1: Op, op2: Op)
    ensures [op0, op1] + [op2] == [op0, op1, op2]
  {
  }

  lemma ToldThree(model: Model, v: Var, u: Var, b: Value, w: Var, y: Value)
    ensures Told(model, [Read(v), Write(u, b), Write(w, y)]) == Intervened(Intervened(model, u, b), w, y)
  {
    var ops := [Read(v), Write(u, b), Write(w, y)];
    assert ops[..2] == [Read(v), Write(u, b)] && ops[..2][..1] == [Read(v)] && ops[..1][..0] == [];
    assert Told(model, [Read(v)]) == model;
    assert Told(model, ops[..2]) == Intervened(model, u, b);
  }

  lemma FedAnswers(start: Store, children: map<Var, seq<Var>>, x: Value, y: Value, b: Value)
    requires Fed(start.m, x) && FedBy(children) && start.m["B"] == Constant(b)
    requires start.values.Keys == {"A", "B"} && start.values["A"] == x && start.values["B"] == b
    ensures WiredSomehow(start.m, children)
    ensures Answer(children, start, [], "C") == None
    ensures Answer(children, start, [Read("L"), Write("B", b)], "C") == Some(x)
    ensures Answer(children, start, [Read("L"), Write("B", b), Write("A", y)], "C") == Some(x)
  {
    FedTwo(start, children, x, b);
    RunOfTwo(start, children, Read("L"), Write("B", b));
    FedThree(Store(start.m, start.values["L" := x]["C" := x]), children, x, y);
    RunOfThree(start, children, Read("L"), Write("B", b), Write("A", y));
  }

  lemma FedMeans(model: Model, x: Value, y: Value, b: Value)
    requires Fed(model.m, x) && model.sources.Keys == {"A", "B"} && model.sources["A"] == x
    ensures IsEvaluation(model, "C", Some(x))
    ensures IsEvaluation(Told(model, [Read("L"), Write("B", b), Write("A", y)]), "C", Some(y))
  {
    FedEvaluates(model, FED, x, x);
    ToldThree(model, "L", "B", b, "A", y);
    FedEvaluates(Intervened(Intervened(model, "B", b), "A", y), FED, x, y);
  }

  /**
   On this model C, whose value is A's, cannot be read from a new trace; it can once L was read and B set to the value
   it had; and when A is set to y after that, C still reads as x.
   */
  lemma LazyFeederGoesStale(x: Value, y: Value, b: Value)
    requires x != y
    ensures var m, inputs := LazyFeeder(x, b), map["A" := x, "B" := b];
            var start, model := Store(m, inputs), Model(m, inputs);
            var two, three := [Read("L"), Write("B", b)], [Read("L"), Write("B", b), Write("A", y)];
            && ChildrenOf(m, FED) && WiredSomehow(m, FED) && inputs.Keys <= FED.Keys
            && PushedSomehow(m, FED, inputs, inputs)
            && Answer(FED, start, [], "C") == None && IsEvaluation(model, "C", Some(x))
            && Answer(FED, start, two, "C") == Some(x)
            && Answer(FED, start, three, "C") == Some(x) && IsEvaluation(Told(model, three), "C", Some(y))
  {
    var m, inputs := LazyFeeder(x, b), map["A" := x, "B" := b];
    FedIsInverse(m, FED, x);
    FedStart(m, FED, x, inputs);
    FedMeans(Model(m, inputs), x, y, b);
    FedAnswers(Store(m, inputs), FED, x, y, b);
  }

  // ---------------------------------------------------------------- a copy that falls behind

  /**
   Inputs A and B, V with B's value, L lazy with A's value, and C, which takes L's value and also has V as a parent.
   */
  function ViaLazy(a: Value, b: Value): Mechanisms {
    map["A" := Constant(a), "B" := Constant(b), "V" := Mechanism(["B"], First(b), false),
        "L" := Mechanism(["A"], First(a), true), "C" := Mechanism(["L", "V"], First(a), false)]
  }

  /** Such mechanisms. */
  ghost predicate VFollows(m: Mechanisms, a: Value, b: Value) {
    && m.Keys == {"A", "B", "V", "L", "C"}
    && m["A"].parents == [] && m["B"].parents == [] && !m["A"].lazy && !m["B"].lazy
    && m["V"] == Mechanism(["B"], First(b), false)
    && m["L"] == Mechanism(["A"], First(a), true) && m["C"] == Mechanism(["L", "V"], First(a), false)
  }

  /** The same once V was set. */
  ghost predicate VSet(m: Mechanisms, a: Value, x: Value) {
    && m.Keys == {"A", "B", "V", "L", "C"}
    && m["A"].parents == [] && m["B"].parents == [] && !m["A"].lazy && !m["B"].lazy && m["V"] == Constant(x)
    && m["L"] == Mechanism(["A"], First(a), true) && m["C"] == Mechanism(["L", "V"], First(a), false)
  }

  /** The children lists of the original: B's still holds V. */
  predicate StillListed(children: map<Var, seq<Var>>) {
    && children.Keys == {"A", "B", "V", "L", "C"}
    && children["A"] == ["L"] && children["B"] == ["V"] && children["V"] == ["C"] && children["L"] == ["C"]
    && children["C"] == []
  }

  const LISTED: map<Var, seq<Var>> := map["A" := ["L"], "B" := ["V"], "V" := ["C"], "L" := ["C"], "C" := []]

  lemma ListedIsWired(m: Mechanisms, children: map<Var, seq<Var>>, a: Value, x: Value) returns (rank: map<Var, nat>)
    requires VSet(m, a, x) && StillListed(children)
    ensures Wired(m, children, rank, 2) && WiredSomehow(m, children)
    ensures ChildrenOf(m, children["B" := []]) && Wired(m, children["B" := []], rank, 2)
    ensures WiredSomehow(m, children["B" := []])
  {
    rank := map["A" := 0, "B" := 0, "V" := 1, "L" := 1, "C" := 2];
    assert Wired(m, children, rank, 2);
    assert Wired(m, children["B" := []], rank, 2);
  }

  /** The push of B in the original passes through V, which nothing feeds any more, and computes C. */
  lemma PushThroughV(m: Mechanisms, children: map<Var, seq<Var>>, a: Value, x: Value, values: map<Var, Value>)
    requires VSet(m, a, x) && StillListed(children)
    requires "L" in values && "V" in values && values["V"] == x
    ensures WiredSomehow(m, children) && Pushed(m, children, {}, values, "B") == values["C" := values["L"]]
  {
    var rank := ListedIsWired(m, children, a, x);
    PushedIsWalk(m, children, {}, values, "B", rank, 2);
    assert Args(values, m["V"].parents) == [] && values["V" := x] == values;
    assert Args(values, m["C"].parents) == [values["L"], values["V"]];
    assert Walk(m, children, {}, values, "V", 0, rank, 2) == values["C" := values["L"]];
  }

  /** The push of V finds C not ready. */
  lemma PushOfV(m: Mechanisms, children: map<Var, seq<Var>>, a: Value, x: Value, values: map<Var, Value>)
    requires VSet(m, a, x) && StillListed(children) && "L" !in values
    ensures WiredSomehow(m, children) && Pushed(m, children, {}, values, "V") == values
  {
    var rank := ListedIsWired(m, children, a, x);
    PushedIsWalk(m, children, {}, values, "V", rank, 2);
    assert m["C"].parents[0] == "L";
  }

  /** The push of B in the copy has nowhere to go. */
  lemma PushNowhere(m: Mechanisms, children: map<Var, seq<Var>>, a: Value, x: Value, values: map<Var, Value>)
    requires VSet(m, a, x) && StillListed(children)
    ensures WiredSomehow(m, children["B" := []]) && Pushed(m, children["B" := []], {}, values, "B") == values
  {
    var rank := ListedIsWired(m, children, a, x);
    PushedIsWalk(m, children["B" := []], {}, values, "B", rank, 2);
  }

  /** Original and copy after B is set on both. */
  lemma CopyPart(s: Store, children: map<Var, seq<Var>>, a: Value, x: Value, y: Value)
    requires VSet(s.m, a, x) && StillListed(children)
    requires s.values.Keys == {"A", "B", "V", "L"} && s.values["L"] == a && s.values["V"] == x
    ensures WiredSomehow(s.m, children) && WiredSomehow(s.m, children["B" := []])
    ensures var original := Written(children, s, "B", y); OnDemand(original.m, original.values, "C") == Some(a)
    ensures var copy := Written(children["B" := []], s, "B", y); OnDemand(copy.m, copy.values, "C") == None
  {
    var _ := ListedIsWired(s.m, children, a, x);
    PushThroughV(s.m["B" := Constant(y)], children, a, x, s.values["B" := y]);
    PushNowhere(s.m["B" := Constant(y)], children, a, x, s.values["B" := y]);
  }

  lemma SetVReadL(s: Store, children: map<Var, seq<Var>>, a: Value, b: Value, x: Value)
    requires VFollows(s.m, a, b) && StillListed(children) && WiredSomehow(s.m, children)
    requires s.values.Keys == {"A", "B", "V"} && s.values["A"] == a
    ensures VSet(s.m["V" := Constant(x)], a, x)
    ensures Cached(Written(children, s, "V", x), "L")
         == Store(s.m["V" := Constant(x)], s.values["V" := x]["L" := a])
  {
    var m, values := s.m["V" := Constant(x)], s.values["V" := x];
    PushOfV(m, children, a, x, values);
    ReadLOf(Store(m, values), a, x);
  }

  lemma ReadLOf(s: Store, a: Value, x: Value)
    requires VSet(s.m, a, x) && "A" in s.values && s.values["A"] == a && "L" !in s.values
    ensures Cached(s, "L") == Store(s.m, s.values["L" := a])
  {
    assert Args(s.values, s.m["L"].parents) == [a];
  }

  lemma FollowsIsWired(m: Mechanisms, children: map<Var, seq<Var>>, a: Value, b: Value) returns (rank: map<Var, nat>)
    requires VFollows(m, a, b) && StillListed(children)
    ensures Wired(m, children, rank, 2) && WiredSomehow(m, children)
  {
    rank := map["A" := 0, "B" := 0, "V" := 1, "L" := 1, "C" := 2];
    assert Wired(m, children, rank, 2);
  }

  lemma FollowsIsInverse(m: Mechanisms, children: map<Var, seq<Var>>, a: Value, b: Value)
    requires VFollows(m, a, b) && StillListed(children)
    ensures ChildrenOf(m, children)
  {
  }

  /** Pushing A finds a lazy child, pushing B computes V and finds C not ready. */
  lemma PushInputsOfV(m: Mechanisms, children: map<Var, seq<Var>>, a: Value, b: Value, inputs: map<Var, Value>)
    requires VFollows(m, a, b) && StillListed(children) && inputs.Keys == {"A", "B"} && inputs["B"] == b
    ensures WiredSomehow(m, children)
    ensures Pushed(m, children, inputs.Keys, inputs, "A") == inputs
    ensures Pushed(m, children, inputs.Keys, inputs, "B") == inputs["V" := b]
  {
    var rank := FollowsIsWired(m, children, a, b);
    PushedIsWalk(m, children, inputs.Keys, inputs, "A", rank, 2);
    assert inputs - {"L"} == inputs;
    PushedIsWalk(m, children, inputs.Keys, inputs, "B", rank, 2);
    assert Args(inputs, m["V"].parents) == [b];
    assert m["C"].parents[0] == "L";
    assert Walk(m, children, inputs.Keys, inputs["V" := b], "V", 0, rank, 2) == inputs["V" := b];
  }

  /** Construction computes V and, as L is lazy, nothing else. */
  lemma FollowsStart(m: Mechanisms, children: map<Var, seq<Var>>, a: Value, b: Value, inputs: map<Var, Value>)
    requires VFollows(m, a, b) && StillListed(children) && inputs.Keys == {"A", "B"} && inputs["B"] == b
    ensures WiredSomehow(m, children) && inputs.Keys <= children.Keys
    ensures PushedSomehow(m, children, inputs, inputs["V" := b])
  {
    PushInputsOfV(m, children, a, b, inputs);
    PushTwo(m, children, inputs, "A", "B", inputs);
    var order := ["A", "B"];
    assert Members(order) == inputs.Keys && order[0] != order[1];
  }

  lemma RunOfOne(s: Store, children: map<Var, seq<Var>>, op: Op)
    requires WiredSomehow(s.m, children)
    ensures Ran(children, s, [op]) == After(children, s, op)
  {
    RanOneMore(children, s, [], op);
    assert [] + [op] == [op];
  }

  lemma BothAnswer(s: Store, children: map<Var, seq<Var>>, a: Value, x: Value, y: Value)
    requires VSet(s.m, a, x) && StillListed(children)
    requires s.values.Keys == {"A", "B", "V", "L"} && s.values["L"] == a && s.values["V"] == x
    ensures ChildrenOf(s.m, children["B" := []])
    ensures WiredSomehow(s.m, children) && WiredSomehow(s.m, children["B" := []])
    ensures Answer(children, s, [Write("B", y)], "C") == Some(a)
    ensures Answer(children["B" := []], s, [Write("B", y)], "C") == None
  {
    var _ := ListedIsWired(s.m, children, a, x);
    CopyPart(s, children, a, x, y);
    RunOfOne(s, children, Write("B", y));
    RunOfOne(s, children["B" := []], Write("B", y));
  }

  /** After the run, a copy made there answers None where the original answers with a's value. */
  ghost predicate CopyMisses(children: map<Var, seq<Var>>, rebuilt: map<Var, seq<Var>>, start: Store, ops: seq<Op>,
                             more: seq<Op>, v: Var, answer: Value)
    requires WiredSomehow(start.m, children)
  {
    var s := Ran(children, start, ops);
    && ChildrenOf(s.m, rebuilt) && WiredSomehow(s.m, rebuilt)
    && Answer(children, s, more, v) == Some(answer) && Answer(rebuilt, s, more, v) == None
  }

  lemma CopyBehind(start: Store, children: map<Var, seq<Var>>, a: Value, b: Value, x: Value, y: Value)
    requires VFollows(start.m, a, b) && StillListed(children)
    requires start.values.Keys == {"A", "B", "V"} && start.values["A"] == a
    ensures WiredSomehow(start.m, children)
    ensures CopyMisses(children, children["B" := []], start, [Write("V", x), Read("L")], [Write("B", y)], "C", a)
  {
    var _ := FollowsIsWired(start.m, children, a, b);
    RunOfTwo(start, children, Write("V", x), Read("L"));
    SetVReadL(start, children, a, b, x);
    BothAnswer(Ran(children, start, [Write("V", x), Read("L")]), children, a, x, y);
  }

  /**
   Set V, read L, copy: the copy's children lists are rebuilt without the edge from B to V. When B is set on both, C can
   be read from the original and not from the copy.
   */
  lemma CopyFallsBehind(a: Value, b: Value, x: Value, y: Value)
    ensures var m, inputs := ViaLazy(a, b), map["A" := a, "B" := b];
            && ChildrenOf(m, LISTED) && WiredSomehow(m, LISTED) && inputs.Keys <= LISTED.Keys
            && PushedSomehow(m, LISTED, inputs, inputs["V" := b])
            && CopyMisses(LISTED, LISTED["B" := []], Store(m, inputs["V" := b]), [Write("V", x), Read("L")],
                          [Write("B", y)], "C", a)
  {
    var m, inputs := ViaLazy(a, b), map["A" := a, "B" := b];
    FollowsIsInverse(m, LISTED, a, b);
    FollowsStart(m, LISTED, a, b, inputs);
    CopyBehind(Store(m, inputs["V" := b]), LISTED, a, b, x, y);
  }
}
