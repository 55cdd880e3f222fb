/**
 The causal trace: a mutable value store over a graph of mechanisms. Every change is pushed to the
 children depth first, so a child is recomputed at once, even while its other parents are still stale.
 What is proved: after construction and after every intervention the store is the fixpoint of the
 current mechanisms (CausalSpec.Solution), whatever order the dictionaries are walked in.
 */
module Trace {
  import opened Wrappers
  import opened CausalSpec

  // ---------------------------------------------------------------- what the store keeps

  /**
   The children lists cover every edge in force, may keep edges into intervened variables, and follow the ranking.
   A variable that was intervened on without being declared has no list and no parents.
   */
  ghost predicate Wired(m: Mechanisms, children: map<Var, seq<Var>>, rank: map<Var, nat>, bound: nat) {
    && children.Keys <= m.Keys
    && (forall v :: v in children ==> v in rank && rank[v] <= bound)
    && (forall v, p {:trigger p in m[v].parents} ::
          v in m && p in m[v].parents ==> p in children && v in children[p])
    && (forall p, c {:trigger c in children[p]} ::
          p in children && c in children[p] ==> c in children && rank[p] < rank[c])
  }

  predicate Listed(children: map<Var, seq<Var>>, c: Var) {
    exists p :: p in children && c in children[p]
  }

  /** A parentless variable that is somebody's listed child is an intervened constant, and holds its value. */
  ghost predicate ConstantsHeld(m: Mechanisms, children: map<Var, seq<Var>>, values: map<Var, Value>) {
    && values.Keys <= m.Keys
    && forall c {:trigger Listed(children, c)} :: c in m && m[c].parents == [] && Listed(children, c) ==>
                     !m[c].lazy && c in values && m[c].compute([]) == values[c]
  }

  predicate Computed(m: Mechanisms, v: Var)
    requires v in m
  {
    m[v].parents != []
  }

  /** v's stored value is what its mechanism gives on the stored values; a lazy variable may also hold nothing. */
  predicate Settled(m: Mechanisms, values: map<Var, Value>, v: Var)
    requires v in m
  {
    !Computed(m, v) || (m[v].lazy && v !in values) || Lookup(values, v) == Step(m, values, v)
  }

  /** A cached lazy variable feeds nobody. */
  ghost predicate CachesAreLeaves(m: Mechanisms, values: map<Var, Value>) {
    forall v, p {:trigger p in m[v].parents} ::
      v in m && p in m[v].parents && p in m && p in values ==> !(m[p].lazy && Computed(m, p))
  }

  /** A lazy variable that feeds another one has no parents, and a value. */
  ghost predicate FeedersStored(m: Mechanisms, values: map<Var, Value>) {
    forall v, p {:trigger p in m[v].parents} ::
      v in m && p in m[v].parents && p in m && m[p].lazy ==> !Computed(m, p) && p in values
  }

  /** Outside `exempt`, a stored value has its parents stored. */
  ghost predicate Grounded(m: Mechanisms, values: map<Var, Value>, exempt: set<Var>) {
    forall v {:trigger Ready(values, m[v].parents)} :: v in m && v in values && v !in exempt ==>
      Ready(values, m[v].parents)
  }

  /** Every unsettled variable is in `stale`. */
  ghost predicate SettledBut(m: Mechanisms, values: map<Var, Value>, stale: set<Var>) {
    forall v {:trigger Settled(m, values, v)} :: v in m && v !in stale ==> Settled(m, values, v)
  }

  /** The store in the middle of a walk: outside `stale` it is settled. */
  ghost predicate InFlight(m: Mechanisms, children: map<Var, seq<Var>>, values: map<Var, Value>,
                           exempt: set<Var>, stale: set<Var>) {
    && ConstantsHeld(m, children, values)
    && CachesAreLeaves(m, values)
    && Grounded(m, values, exempt)
    && SettledBut(m, values, stale)
  }

  ghost predicate WiredSomehow(m: Mechanisms, children: map<Var, seq<Var>>) {
    exists rank: map<Var, nat>, bound: nat :: Wired(m, children, rank, bound)
  }

  /** The store is wired and, outside `exempt`, settled. */
  ghost predicate CoherentStore(m: Mechanisms, children: map<Var, seq<Var>>, values: map<Var, Value>,
                                exempt: set<Var>) {
    WiredSomehow(m, children) && InFlight(m, children, values, exempt, exempt)
  }

  /** The values held by parentless variables. */
  function SourcesOf(m: Mechanisms, values: map<Var, Value>): map<Var, Value> {
    map v | v in values && v in m && !Computed(m, v) :: values[v]
  }

  function Members(vs: seq<Var>): (s: set<Var>)
    ensures forall v :: v in s <==> v in vs
  {
    set v | v in vs
  }

  /** Parentless variables keep their values and no eager value is lost. */
  ghost predicate Advances(m: Mechanisms, before: map<Var, Value>, after: map<Var, Value>) {
    && after.Keys <= m.Keys
    && (forall v {:trigger Lookup(after, v)} :: v in m && !Computed(m, v) ==> Lookup(after, v) == Lookup(before, v))
    && (forall v :: v in m && v in before && v !in after ==> m[v].lazy && Computed(m, v))
    && (forall v :: v in m && v in after && v !in before ==> !m[v].lazy)
  }

  // ---------------------------------------------------------------- one step of the walk

  /** Dropping a lazy child's cache settles it and disturbs nobody. */
  lemma DropCache(m: Mechanisms, children: map<Var, seq<Var>>, values: map<Var, Value>, c: Var,
                  exempt: set<Var>, stale: set<Var>)
    requires c in m && m[c].lazy && Computed(m, c)
    requires InFlight(m, children, values, exempt, stale + {c})
    ensures InFlight(m, children, values - {c}, exempt, stale) && Advances(m, values, values - {c})
  {
    var after := values - {c};
    forall v | v in m && v !in stale
      ensures Settled(m, after, v)
    {
      assert v != c ==> Settled(m, values, v);
      if v != c && c !in m[v].parents {
        assert Ready(after, m[v].parents) == Ready(values, m[v].parents);
        if Ready(after, m[v].parents) {
          assert Args(after, m[v].parents) == Args(values, m[v].parents);
        }
      } else if v != c {
        assert c !in values;
        assert after == values;
      }
    }
    forall v | v in m && v in after && v !in exempt
      ensures Ready(after, m[v].parents)
    {
      assert Ready(values, m[v].parents);
    }
  }

  /** Recomputing a ready child settles it; only its own children can become unsettled. */
  lemma StoreChild(m: Mechanisms, children: map<Var, seq<Var>>, rank: map<Var, nat>, bound: nat,
                   values: map<Var, Value>, c: Var, exempt: set<Var>, stale: set<Var>)
    requires Wired(m, children, rank, bound)
    requires c in m && !m[c].lazy && Ready(values, m[c].parents) && Listed(children, c)
    requires InFlight(m, children, values, exempt, stale + {c})
    ensures var after := values[c := m[c].compute(Args(values, m[c].parents))];
            InFlight(m, children, after, exempt, Members(children[c]) + stale) && Advances(m, values, after)
  {
    var after := values[c := m[c].compute(Args(values, m[c].parents))];
    if !Computed(m, c) {
      assert Args(values, m[c].parents) == [];
      assert after == values;
    }
    forall v | v in m && v !in Members(children[c]) + stale
      ensures Settled(m, after, v)
    {
      assert c !in m[v].parents;
      assert Ready(after, m[v].parents) == Ready(values, m[v].parents);
      if Ready(after, m[v].parents) {
        assert Args(after, m[v].parents) == Args(values, m[v].parents);
      }
      assert v != c ==> Settled(m, values, v);
    }
    forall v | v in m && v in after && v !in exempt
      ensures Ready(after, m[v].parents)
    {
      assert v != c ==> Ready(values, m[v].parents);
    }
  }

  /** A child that is not ready holds nothing, so it is settled as it is. */
  lemma UnreadyIsSettled(m: Mechanisms, children: map<Var, seq<Var>>, values: map<Var, Value>, c: Var,
                         exempt: set<Var>, stale: set<Var>)
    requires c in m && !m[c].lazy && !Ready(values, m[c].parents)
    requires exempt <= stale && InFlight(m, children, values, exempt, stale + {c})
    ensures InFlight(m, children, values, exempt, stale)
  {
  }

  /** Pinned eager variables are not overwritten. */
  ghost predicate KeepsPins(m: Mechanisms, pinned: set<Var>, before: map<Var, Value>, after: map<Var, Value>) {
    forall u {:trigger Lookup(after, u)} :: u in pinned && u in m && !m[u].lazy ==>
      Lookup(after, u) == Lookup(before, u)
  }

  lemma KeepsPinsTransitive(m: Mechanisms, pinned: set<Var>, a: map<Var, Value>, b: map<Var, Value>, c: map<Var, Value>)
    requires KeepsPins(m, pinned, a, b) && KeepsPins(m, pinned, b, c)
    ensures KeepsPins(m, pinned, a, c)
  {
    forall u | u in pinned && u in m && !m[u].lazy
      ensures Lookup(c, u) == Lookup(a, u)
    {
      assert Lookup(c, u) == Lookup(b, u) == Lookup(a, u);
    }
  }

  lemma AdvancesTransitive(m: Mechanisms, a: map<Var, Value>, b: map<Var, Value>, c: map<Var, Value>)
    requires Advances(m, a, b) && Advances(m, b, c)
    ensures Advances(m, a, c)
  {
    forall v | v in m && !Computed(m, v)
      ensures Lookup(c, v) == Lookup(a, v)
    {
      assert Lookup(c, v) == Lookup(b, v) == Lookup(a, v);
    }
  }

  lemma AdvancesKeepsConstants(m: Mechanisms, children: map<Var, seq<Var>>, a: map<Var, Value>, b: map<Var, Value>)
    requires ConstantsHeld(m, children, a) && Advances(m, a, b)
    ensures ConstantsHeld(m, children, b)
    ensures SourcesOf(m, a) == SourcesOf(m, b)
  {
    forall v | v in m && !Computed(m, v)
      ensures v in a <==> v in b
      ensures v in a ==> a[v] == b[v]
    {
      assert Lookup(b, v) == Lookup(a, v);
    }
  }

  /** What a read of v returns: what is stored, or what a lazy mechanism makes of the stored parents. */
  function OnDemand(m: Mechanisms, values: map<Var, Value>, v: Var): Option<Value> {
    if v in values then Some(values[v]) else if v in m && m[v].lazy then Step(m, values, v) else None
  }

  /** What the code's read returns on a settled store is the model's reading of v. */
  lemma StoreReads(m: Mechanisms, values: map<Var, Value>, v: Var)
    requires Acyclic(m) && values.Keys <= m.Keys
    requires SettledBut(m, values, {}) && CachesAreLeaves(m, values)
    ensures Observe(Model(m, SourcesOf(m, values)), v) == OnDemand(m, values, v)
  {
    SettledIsSolution(m, values);
    if v in m {
      var stored := Solution(Model(m, SourcesOf(m, values)), false);
      assert Settled(m, values, v);
      assert Ready(values, m[v].parents) == Ready(stored, m[v].parents);
      if Ready(values, m[v].parents) {
        assert Args(values, m[v].parents) == Args(stored, m[v].parents);
      }
    }
  }

  lemma CacheLeafSettles(m: Mechanisms, values: map<Var, Value>, v: Var, x: Value)
    requires v in m && v !in values && FeedersStored(m, values) && m[v].lazy && Step(m, values, v) == Some(x)
    requires SettledBut(m, values, {})
    ensures SettledBut(m, values[v := x], {})
  {
    var after := values[v := x];
    forall u | u in m
      ensures Settled(m, after, u)
    {
      assert v !in m[u].parents;
      assert Settled(m, values, u);
      assert Ready(after, m[u].parents) == Ready(values, m[u].parents);
      if Ready(after, m[u].parents) {
        assert Args(after, m[u].parents) == Args(values, m[u].parents);
      }
    }
  }

  /** Caching a lazy variable that was not stored keeps the store coherent: it feeds nobody. */
  lemma CacheLeaf(m: Mechanisms, children: map<Var, seq<Var>>, values: map<Var, Value>, v: Var, x: Value)
    requires v in m && v !in values && m[v].lazy && FeedersStored(m, values) && Step(m, values, v) == Some(x)
    requires CoherentStore(m, children, values, {})
    ensures CoherentStore(m, children, values[v := x], {}) && FeedersStored(m, values[v := x])
  {
    var after := values[v := x];
    CacheLeafSettles(m, values, v, x);
    assert ConstantsHeld(m, children, after);
    assert CachesAreLeaves(m, after);
    forall u | u in after
      ensures Ready(after, m[u].parents)
    {
      assert u != v ==> Ready(values, m[u].parents);
    }
    assert Grounded(m, after, {});
  }

  /** ... and what a parentless lazy variable gave is a source from then on. */
  lemma CacheIsRead(m: Mechanisms, values: map<Var, Value>, v: Var, x: Value)
    requires v in m && v !in values && m[v].lazy && Step(m, values, v) == Some(x)
    ensures SuppliedOrRead(Model(m, SourcesOf(m, values)), SourcesOf(m, values[v := x]))
  {
    if Computed(m, v) {
      assert SourcesOf(m, values[v := x]) == SourcesOf(m, values);
    } else {
      assert Args(values, []) == [];
      assert SourcesOf(m, values[v := x]) == SourcesOf(m, values)[v := x];
    }
  }

  /** The children lists a change of v is pushed to. */
  function Kids(children: map<Var, seq<Var>>, v: Var): seq<Var> {
    if v in children then children[v] else []
  }

  lemma InstallConstantSettles(m: Mechanisms, children: map<Var, seq<Var>>, rank: map<Var, nat>, bound: nat,
                               values: map<Var, Value>, v: Var, x: Value)
    requires Wired(m, children, rank, bound) && SettledBut(m, values, {})
    ensures SettledBut(m[v := Constant(x)], values[v := x], Members(Kids(children, v)))
  {
    var m', values' := m[v := Constant(x)], values[v := x];
    forall u | u in m' && u !in Members(Kids(children, v))
      ensures Settled(m', values', u)
    {
      if u != v {
        assert m'[u] == m[u] && v !in m[u].parents;
        assert Settled(m, values, u);
        assert Ready(values', m[u].parents) == Ready(values, m[u].parents);
        if Ready(values, m[u].parents) {
          assert Args(values', m[u].parents) == Args(values, m[u].parents);
        }
      }
    }
  }

  lemma InstallConstantShape(m: Mechanisms, children: map<Var, seq<Var>>, rank: map<Var, nat>, bound: nat,
                             v: Var, x: Value)
    requires Wired(m, children, rank, bound)
    ensures Wired(m[v := Constant(x)], children, rank, bound)
  {
    var m' := m[v := Constant(x)];
    assert m'[v].parents == [];
    assert forall u :: u in m' && u != v ==> m'[u] == m[u];
  }

  lemma InstallConstantFeeds(m: Mechanisms, values: map<Var, Value>, v: Var, x: Value)
    requires FeedersStored(m, values)
    ensures FeedersStored(m[v := Constant(x)], values[v := x])
  {
    var m' := m[v := Constant(x)];
    assert m'[v].parents == [] && !m'[v].lazy;
    assert forall u :: u in m' && u != v ==> m'[u] == m[u];
  }

  lemma InstallConstantGrounds(m: Mechanisms, children: map<Var, seq<Var>>, values: map<Var, Value>, v: Var, x: Value)
    requires ConstantsHeld(m, children, values) && CachesAreLeaves(m, values) && Grounded(m, values, {})
    ensures var m', values' := m[v := Constant(x)], values[v := x];
            ConstantsHeld(m', children, values') && CachesAreLeaves(m', values') && Grounded(m', values', {})
  {
    var m', values' := m[v := Constant(x)], values[v := x];
    assert m'[v].parents == [] && !m'[v].lazy && m'[v].compute([]) == x;
    assert forall u :: u in m && u != v ==> m'[u] == m[u];
    forall u | u in m' && u in values'
      ensures Ready(values', m'[u].parents)
    {
      assert u != v ==> Ready(values, m[u].parents);
    }
  }

  lemma InstallConstantSources(m: Mechanisms, values: map<Var, Value>, v: Var, x: Value)
    ensures SourcesOf(m[v := Constant(x)], values[v := x]) == SourcesOf(m, values)[v := x]
  {
    assert Constant(x).parents == [];
  }

  /** Right after the constant is installed only v's listed children can be out of date. */
  lemma InstallConstantValues(m: Mechanisms, children: map<Var, seq<Var>>, rank: map<Var, nat>, bound: nat,
                              values: map<Var, Value>, v: Var, x: Value)
    requires Wired(m, children, rank, bound) && InFlight(m, children, values, {}, {})
    ensures InFlight(m[v := Constant(x)], children, values[v := x], {}, Members(Kids(children, v)))
    ensures SourcesOf(m[v := Constant(x)], values[v := x]) == SourcesOf(m, values)[v := x]
  {
    InstallConstantGrounds(m, children, values, v, x);
    InstallConstantSettles(m, children, rank, bound, values, v, x);
    InstallConstantSources(m, values, v, x);
  }

  /** A settled store is the fixpoint of its mechanisms, lazy variables without a cache counting as absent. */
  lemma SettledIsSolution(m: Mechanisms, values: map<Var, Value>)
    requires Acyclic(m) && values.Keys <= m.Keys
    requires SettledBut(m, values, {}) && CachesAreLeaves(m, values)
    ensures Solution(Model(m, SourcesOf(m, values)), false)
         == map v | v in values && !(m[v].lazy && Computed(m, v)) :: values[v]
  {
    var model := Model(m, SourcesOf(m, values));
    var eager := map v | v in values && !(m[v].lazy && Computed(m, v)) :: values[v];
    forall v | v in m
      ensures Lookup(eager, v) == Rule(model, false, eager, v)
    {
      assert Settled(m, values, v);
      if Computed(m, v) && !m[v].lazy {
        assert Ready(values, m[v].parents) == Ready(eager, m[v].parents);
        if Ready(values, m[v].parents) {
          assert Args(values, m[v].parents) == Args(eager, m[v].parents);
        }
      }
    }
    FixpointIsSolution(model, false, eager);
  }

  /** The inverse of the parents relation. */
  ghost predicate ChildrenOf(m: Mechanisms, children: map<Var, seq<Var>>) {
    && children.Keys == m.Keys
    && forall p, c {:trigger c in children[p]} {:trigger p in m[c].parents} ::
         p in children ==> (c in children[p] <==> c in m && p in m[c].parents)
  }

  method BuildChildren(m: Mechanisms) returns (children: map<Var, seq<Var>>)
    requires forall v, p {:trigger p in m[v].parents} :: v in m && p in m[v].parents ==> p in m
    ensures ChildrenOf(m, children)
  {
    children := map v | v in m :: [];
    var todo := m.Keys;
    while todo != {}
      invariant todo <= m.Keys && children.Keys == m.Keys
      invariant forall p, c {:trigger c in children[p]} {:trigger p in m[c].parents} ::
                  p in children ==> (c in children[p] <==> c in m.Keys - todo && p in m[c].parents)
      decreases todo
    {
      var v :| v in todo;
      var ps := m[v].parents;
      for i := 0 to |ps|
        invariant children.Keys == m.Keys
        invariant forall p, c {:trigger c in children[p]} {:trigger p in m[c].parents} :: p in children ==>
                                   (c in children[p] <==>
                                    (c in m.Keys - todo && p in m[c].parents) || (c == v && p in ps[..i]))
      {
        assert ps[i] in m[v].parents;
        children := children[ps[i] := children[ps[i]] + [v]];
        assert ps[..i + 1] == ps[..i] + [ps[i]];
      }
      assert ps[..|ps|] == ps;
      todo := todo - {v};
    }
  }

  /** The variables with a parent in vs. */
  function Dependents(m: Mechanisms, vs: set<Var>): set<Var> {
    set v | v in m && exists p :: p in m[v].parents && p in vs
  }

  /** Taking one variable off the list leaves its children to be settled by its own push. */
  lemma DependentsSplit(m: Mechanisms, children: map<Var, seq<Var>>, vs: set<Var>, v: Var, more: set<Var>)
    requires ChildrenOf(m, children) && v in vs && v in children
    ensures Members(children[v]) + (Dependents(m, vs - {v}) + more) == Dependents(m, vs) + more
  {
    forall c
      ensures c in Dependents(m, vs) <==> c in Members(children[v]) || c in Dependents(m, vs - {v})
    {
      if c in Dependents(m, vs) {
        var p :| p in m[c].parents && p in vs;
        assert p != v ==> p in vs - {v};
      }
      if c in Members(children[v]) {
        assert v in m[c].parents;
      }
    }
  }

  // ---------------------------------------------------------------- the whole walk

  /**
   The store after v's children, from the i-th on, have been visited in turn: a lazy child's cache is dropped, a pinned
   or unready one is left, and any other is recomputed and its own children are visited before the next one.
   */
  ghost function Walk(m: Mechanisms, children: map<Var, seq<Var>>, pinned: set<Var>, values: map<Var, Value>,
                      v: Var, i: nat, rank: map<Var, nat>, bound: nat): map<Var, Value>
    requires Wired(m, children, rank, bound) && v in children && i <= |children[v]|
    decreases bound - rank[v], |children[v]| - i
  {
    if i == |children[v]| then values
    else
      var c := children[v][i];
      assert c in children[v];
      var next :=
        if m[c].lazy then values - {c}
        else if c in pinned || !Ready(values, m[c].parents) then values
        else Walk(m, children, pinned, values[c := m[c].compute(Args(values, m[c].parents))], c, 0, rank, bound);
      Walk(m, children, pinned, next, v, i + 1, rank, bound)
  }

  /** The walk does not depend on the ranking that shows it to end. */
  lemma {:induction false} WalkAnyRanking(m: Mechanisms, children: map<Var, seq<Var>>, pinned: set<Var>,
                                          values: map<Var, Value>, v: Var, i: nat, rank: map<Var, nat>, bound: nat,
                                          other: map<Var, nat>, otherBound: nat)
    requires Wired(m, children, rank, bound) && Wired(m, children, other, otherBound)
    requires v in children && i <= |children[v]|
    ensures Walk(m, children, pinned, values, v, i, rank, bound)
         == Walk(m, children, pinned, values, v, i, other, otherBound)
    decreases bound - rank[v], |children[v]| - i
  {
    if i < |children[v]| {
      var c := children[v][i];
      assert c in children[v];
      var next := values;
      if m[c].lazy {
        next := values - {c};
      } else if c !in pinned && Ready(values, m[c].parents) {
        var stored := values[c := m[c].compute(Args(values, m[c].parents))];
        WalkAnyRanking(m, children, pinned, stored, c, 0, rank, bound, other, otherBound);
        next := Walk(m, children, pinned, stored, c, 0, rank, bound);
      }
      WalkAnyRanking(m, children, pinned, next, v, i + 1, rank, bound, other, otherBound);
    }
  }

  /** The store after v's new value has been pushed to its descendants. */
  ghost function Pushed(m: Mechanisms, children: map<Var, seq<Var>>, pinned: set<Var>, values: map<Var, Value>,
                        v: Var): map<Var, Value>
    requires WiredSomehow(m, children) && v in children
  {
    var rank: map<Var, nat>, bound: nat :| Wired(m, children, rank, bound);
    Walk(m, children, pinned, values, v, 0, rank, bound)
  }

  lemma PushedIsWalk(m: Mechanisms, children: map<Var, seq<Var>>, pinned: set<Var>, values: map<Var, Value>,
                     v: Var, rank: map<Var, nat>, bound: nat)
    requires Wired(m, children, rank, bound) && v in children
    ensures Pushed(m, children, pinned, values, v) == Walk(m, children, pinned, values, v, 0, rank, bound)
  {
    var other: map<Var, nat>, otherBound: nat :|
      Wired(m, children, other, otherBound)
      && Pushed(m, children, pinned, values, v) == Walk(m, children, pinned, values, v, 0, other, otherBound);
    WalkAnyRanking(m, children, pinned, values, v, 0, rank, bound, other, otherBound);
  }

  /** What a walk leaves: everything outside `stale` settled, no root touched, no pin overwritten. */
  ghost predicate Landed(m: Mechanisms, children: map<Var, seq<Var>>, pinned: set<Var>,
                         before: map<Var, Value>, after: map<Var, Value>, exempt: set<Var>, stale: set<Var>) {
    && InFlight(m, children, after, exempt, stale)
    && Advances(m, before, after)
    && KeepsPins(m, pinned, before, after)
  }

  lemma LandedTransitive(m: Mechanisms, children: map<Var, seq<Var>>, pinned: set<Var>, a: map<Var, Value>,
                         b: map<Var, Value>, c: map<Var, Value>, exempt: set<Var>, between: set<Var>, stale: set<Var>)
    requires Landed(m, children, pinned, a, b, exempt, between) && Landed(m, children, pinned, b, c, exempt, stale)
    ensures Landed(m, children, pinned, a, c, exempt, stale)
  {
    AdvancesTransitive(m, a, b, c);
    KeepsPinsTransitive(m, pinned, a, b, c);
  }

  /** The first half of a visit: a child is dropped, left or recomputed. */
  lemma VisitLands(m: Mechanisms, children: map<Var, seq<Var>>, pinned: set<Var>, values: map<Var, Value>, c: Var,
                   rank: map<Var, nat>, bound: nat, exempt: set<Var>, rest: set<Var>)
    requires Wired(m, children, rank, bound) && c in children && Listed(children, c)
    requires pinned <= exempt <= rest && InFlight(m, children, values, exempt, rest + {c})
    ensures m[c].lazy ==> Landed(m, children, pinned, values, values - {c}, exempt, rest)
    ensures !m[c].lazy && (c in pinned || !Ready(values, m[c].parents)) ==>
              Landed(m, children, pinned, values, values, exempt, rest)
    ensures !m[c].lazy && c !in pinned && Ready(values, m[c].parents) ==>
              Landed(m, children, pinned, values, values[c := m[c].compute(Args(values, m[c].parents))], exempt,
                     Members(children[c]) + rest)
  {
    if m[c].lazy {
      DropCache(m, children, values, c, exempt, rest);
    } else if c in pinned {
      assert rest + {c} == rest;
    } else if Ready(values, m[c].parents) {
      StoreChild(m, children, rank, bound, values, c, exempt, rest);
    } else {
      UnreadyIsSettled(m, children, values, c, exempt, rest);
    }
  }

  /**
   If before the walk everything outside the children still to be visited and `stale` is settled, then afterwards
   everything outside `stale` is, although a child is recomputed at once, while its other parents may be stale.
   */
  lemma {:induction false} WalkSettles(m: Mechanisms, children: map<Var, seq<Var>>, pinned: set<Var>,
                                       values: map<Var, Value>, v: Var, i: nat, rank: map<Var, nat>, bound: nat,
                                       exempt: set<Var>, stale: set<Var>)
    requires Wired(m, children, rank, bound) && v in children && i <= |children[v]|
    requires pinned <= exempt <= stale
    requires InFlight(m, children, values, exempt, Members(children[v][i..]) + stale)
    ensures Landed(m, children, pinned, values, Walk(m, children, pinned, values, v, i, rank, bound), exempt, stale)
    decreases bound - rank[v], |children[v]| - i
  {
    if i == |children[v]| {
      assert Members(children[v][i..]) + stale == stale;
    } else {
      var c := children[v][i];
      assert c in children[v];
      var rest := Members(children[v][i + 1..]) + stale;
      assert Members(children[v][i..]) + stale == rest + {c};
      assert Listed(children, c);
      VisitLands(m, children, pinned, values, c, rank, bound, exempt, rest);
      var next := values;
      if m[c].lazy {
        next := values - {c};
      } else if c !in pinned && Ready(values, m[c].parents) {
        var stored := values[c := m[c].compute(Args(values, m[c].parents))];
        assert children[c][0..] == children[c];
        WalkSettles(m, children, pinned, stored, c, 0, rank, bound, exempt, rest);
        next := Walk(m, children, pinned, stored, c, 0, rank, bound);
        LandedTransitive(m, children, pinned, values, stored, next, exempt, Members(children[c]) + rest, rest);
      }
      WalkSettles(m, children, pinned, next, v, i + 1, rank, bound, exempt, stale);
      LandedTransitive(m, children, pinned, values, next,
                       Walk(m, children, pinned, next, v, i + 1, rank, bound), exempt, rest, stale);
    }
  }

  // ---------------------------------------------------------------- construction

  /** A lazy variable is supplied only if it has no parents (a lazy child is dropped, pinned or not). */
  ghost predicate RootsIfLazy(m: Mechanisms, inputs: map<Var, Value>)
    requires inputs.Keys <= m.Keys
  {
    forall v :: v in inputs && m[v].lazy ==> m[v].parents == []
  }

  /** Only input variables are supplied, as the constructor's documentation asks. */
  ghost predicate RootsOnly(m: Mechanisms, inputs: map<Var, Value>)
    requires inputs.Keys <= m.Keys
  {
    forall v :: v in inputs ==> !Computed(m, v)
  }

  /** The construction loop's state while the variables in `todo` still have to be pushed. */
  ghost predicate Pending(m: Mechanisms, children: map<Var, seq<Var>>, values: map<Var, Value>,
                          inputs: map<Var, Value>, todo: set<Var>) {
    && InFlight(m, children, values, inputs.Keys, Dependents(m, todo) + inputs.Keys)
    && Advances(m, inputs, values)
    && forall u :: u in inputs ==> u in values && values[u] == inputs[u]
  }

  lemma PendingStep(m: Mechanisms, children: map<Var, seq<Var>>, before: map<Var, Value>, after: map<Var, Value>,
                    inputs: map<Var, Value>, todo: set<Var>, v: Var)
    requires Pending(m, children, before, inputs, todo) && inputs.Keys <= m.Keys
    requires RootsIfLazy(m, inputs)
    requires InFlight(m, children, after, inputs.Keys, Dependents(m, todo - {v}) + inputs.Keys)
    requires Advances(m, before, after) && KeepsPins(m, inputs.Keys, before, after)
    ensures Pending(m, children, after, inputs, todo - {v})
  {
    AdvancesTransitive(m, inputs, before, after);
    forall u | u in inputs ensures u in after && after[u] == inputs[u] {
      assert Lookup(after, u) == Lookup(before, u);
    }
  }

  /** When only the inputs are stored, only their dependents can be out of date. */
  lemma OnlyInputsStored(m: Mechanisms, children: map<Var, seq<Var>>, inputs: map<Var, Value>)
    requires inputs.Keys <= m.Keys && ChildrenOf(m, children)
    requires RootsIfLazy(m, inputs)
    ensures Pending(m, children, inputs, inputs, inputs.Keys)
  {
    forall v | v in m && v !in Dependents(m, inputs.Keys) + inputs.Keys
      ensures Settled(m, inputs, v)
    {
      if Computed(m, v) {
        assert m[v].parents[0] in m[v].parents;
      }
    }
  }

  /** Supplied root variables need no exemption. */
  lemma UnpinComputed(m: Mechanisms, children: map<Var, seq<Var>>, values: map<Var, Value>, inputs: map<Var, Value>)
    requires inputs.Keys <= m.Keys && Pending(m, children, values, inputs, {}) && WiredSomehow(m, children)
    ensures CoherentStore(m, children, values, set v | v in inputs && Computed(m, v))
  {
    assert Dependents(m, {}) + inputs.Keys == inputs.Keys;
  }

  /** Pinning makes construction a simultaneous surgery: supplied variables hold, the rest obey their mechanisms. */
  lemma PinsAreSurgery(m: Mechanisms, children: map<Var, seq<Var>>, values: map<Var, Value>, inputs: map<Var, Value>)
    requires Acyclic(m) && inputs.Keys <= m.Keys && RootsIfLazy(m, inputs)
    requires Pending(m, children, values, inputs, {})
    ensures Acyclic(Surgery(Model(m, map[]), inputs).m)
    ensures values == Solution(Surgery(Model(m, map[]), inputs), false)
  {
    var after := Surgery(Model(m, map[]), inputs);
    assert Acyclic(after.m) by {
      var rank: map<Var, nat>, bound: nat :| Ranked(m, rank, bound);
      SurgeryKeepsRanking(Model(m, map[]), inputs, rank, bound);
    }
    forall v | v in after.m
      ensures Lookup(values, v) == Rule(after, false, values, v)
    {
      if v !in inputs {
        assert after.m[v] == m[v] && v !in after.sources;
        assert Dependents(m, {}) + inputs.Keys == inputs.Keys;
        assert Settled(m, values, v);
        assert Lookup(inputs, v) == None;
        assert !Computed(m, v) ==> Lookup(values, v) == None;
        assert m[v].lazy ==> v !in values;
      }
    }
    FixpointIsSolution(after, false, values);
  }

  lemma RootPinsAreSources(m: Mechanisms, children: map<Var, seq<Var>>, values: map<Var, Value>,
                           inputs: map<Var, Value>)
    requires inputs.Keys <= m.Keys && Pending(m, children, values, inputs, {})
    requires RootsOnly(m, inputs)
    ensures SourcesOf(m, values) == inputs
  {
    forall v | v in m && !Computed(m, v)
      ensures Lookup(values, v) == Lookup(inputs, v)
    {
    }
    assert forall v :: v in SourcesOf(m, values) ==> Lookup(values, v) == Lookup(inputs, v);
  }

  /**
   What construction leaves: the store is the solution of the model in which every supplied variable has been
   set by surgery, and only supplied computed variables may disagree with their own mechanisms.
   */
  ghost predicate Built(m: Mechanisms, children: map<Var, seq<Var>>, values: map<Var, Value>, inputs: map<Var, Value>) {
    && ChildrenOf(m, children)
    && inputs.Keys <= m.Keys
    && CoherentStore(m, children, values, set v | v in inputs && Computed(m, v))
    && Acyclic(Surgery(Model(m, map[]), inputs).m)
    && values == Solution(Surgery(Model(m, map[]), inputs), false)
  }

  lemma BuiltMeans(m: Mechanisms, children: map<Var, seq<Var>>, values: map<Var, Value>, inputs: map<Var, Value>)
    requires Acyclic(m) && ChildrenOf(m, children)
    requires inputs.Keys <= m.Keys && RootsIfLazy(m, inputs)
    requires Pending(m, children, values, inputs, {})
    ensures Built(m, children, values, inputs)
    ensures RootsOnly(m, inputs) ==>
              SourcesOf(m, values) == inputs && CoherentStore(m, children, values, {})
  {
    var rank, bound := Rewired(m, children);
    UnpinComputed(m, children, values, inputs);
    PinsAreSurgery(m, children, values, inputs);
    if RootsOnly(m, inputs) {
      RootPinsAreSources(m, children, values, inputs);
      assert (set v | v in inputs && Computed(m, v)) == {};
    }
  }

  lemma WiredIsAcyclic(m: Mechanisms, children: map<Var, seq<Var>>)
    requires WiredSomehow(m, children)
    ensures Acyclic(m)
  {
    var rank: map<Var, nat>, bound: nat :| Wired(m, children, rank, bound);
    var wider: map<Var, nat> := map v | v in m :: if v in children then rank[v] else 0;
    assert Ranked(m, wider, bound);
  }

  lemma Rewired(m: Mechanisms, children: map<Var, seq<Var>>) returns (rank: map<Var, nat>, bound: nat)
    requires Acyclic(m) && ChildrenOf(m, children)
    ensures Wired(m, children, rank, bound)
  {
    rank, bound :| Ranked(m, rank, bound);
  }

  /** `order` is one way to go through a set. */
  ghost predicate Enumerates(order: seq<Var>, vs: set<Var>) {
    Members(order) == vs && forall i, j :: 0 <= i < j < |order| ==> order[i] != order[j]
  }

  /** The store after the variables of `order`, all supplied and pinned, have been pushed in turn. */
  ghost function PushedInTurn(m: Mechanisms, children: map<Var, seq<Var>>, inputs: map<Var, Value>, order: seq<Var>)
    : map<Var, Value>
    requires WiredSomehow(m, children) && Members(order) <= children.Keys
  {
    if order == [] then inputs
    else
      var front, last := order[..|order| - 1], order[|order| - 1];
      assert Members(front) <= Members(order) && last in Members(order);
      Pushed(m, children, inputs.Keys, PushedInTurn(m, children, inputs, front), last)
  }

  /** What construction leaves, for any supplied variables: they are pushed one after the other, in some order. */
  ghost predicate PushedSomehow(m: Mechanisms, children: map<Var, seq<Var>>, inputs: map<Var, Value>,
                                values: map<Var, Value>)
    requires WiredSomehow(m, children) && inputs.Keys <= children.Keys
  {
    exists order :: Enumerates(order, inputs.Keys) && values == PushedInTurn(m, children, inputs, order)
  }

  /** One turn of the construction loop. */
  lemma PushInput(m: Mechanisms, children: map<Var, seq<Var>>, before: map<Var, Value>, inputs: map<Var, Value>,
                  todo: set<Var>, v: Var)
    requires Acyclic(m) && ChildrenOf(m, children) && WiredSomehow(m, children)
    requires inputs.Keys <= m.Keys && RootsIfLazy(m, inputs)
    requires v in todo && todo <= inputs.Keys && Pending(m, children, before, inputs, todo)
    ensures Pending(m, children, Pushed(m, children, inputs.Keys, before, v), inputs, todo - {v})
  {
    var rank, bound := Rewired(m, children);
    var stale := Dependents(m, todo - {v}) + inputs.Keys;
    DependentsSplit(m, children, todo, v, inputs.Keys);
    assert children[v][0..] == children[v];
    WalkSettles(m, children, inputs.Keys, before, v, 0, rank, bound, inputs.Keys, stale);
    PushedIsWalk(m, children, inputs.Keys, before, v, rank, bound);
    PendingStep(m, children, before, Walk(m, children, inputs.Keys, before, v, 0, rank, bound), inputs, todo, v);
  }

  lemma PushOneMore(m: Mechanisms, children: map<Var, seq<Var>>, inputs: map<Var, Value>, front: seq<Var>, v: Var)
    requires WiredSomehow(m, children) && Members(front) <= children.Keys && v in children
    ensures Members(front + [v]) <= children.Keys
    ensures PushedInTurn(m, children, inputs, front + [v])
         == Pushed(m, children, inputs.Keys, PushedInTurn(m, children, inputs, front), v)
  {
    assert (front + [v])[..|front|] == front;
  }

  lemma EnumeratesFront(order: seq<Var>, front: seq<Var>, v: Var)
    requires order == front + [v] && Enumerates(order, Members(order))
    ensures Enumerates(front, Members(front)) && v !in Members(front) && Members(order) == Members(front) + {v}
  {
    forall i, j | 0 <= i < j < |front| ensures front[i] != front[j] {
      assert order[i] != order[j];
    }
    forall i | 0 <= i < |front| ensures front[i] != v {
      assert order[i] != order[|front|];
    }
  }

  lemma {:induction false} PushInputs(m: Mechanisms, children: map<Var, seq<Var>>, inputs: map<Var, Value>,
                                      order: seq<Var>)
    requires Acyclic(m) && ChildrenOf(m, children) && WiredSomehow(m, children)
    requires inputs.Keys <= m.Keys && RootsIfLazy(m, inputs)
    requires Members(order) <= inputs.Keys && Enumerates(order, Members(order))
    ensures Pending(m, children, PushedInTurn(m, children, inputs, order), inputs, inputs.Keys - Members(order))
  {
    if order == [] {
      OnlyInputsStored(m, children, inputs);
      assert inputs.Keys - Members(order) == inputs.Keys;
    } else {
      var front, last := order[..|order| - 1], order[|order| - 1];
      FrontAndLast(order);
      EnumeratesFront(order, front, last);
      PushInputs(m, children, inputs, front);
      PushLast(m, children, inputs, front, last);
      assert (inputs.Keys - Members(front)) - {last} == inputs.Keys - Members(order);
    }
  }

  lemma PushLast(m: Mechanisms, children: map<Var, seq<Var>>, inputs: map<Var, Value>, front: seq<Var>, v: Var)
    requires Acyclic(m) && ChildrenOf(m, children) && WiredSomehow(m, children)
    requires inputs.Keys <= m.Keys && RootsIfLazy(m, inputs)
    requires Members(front) <= inputs.Keys && v in inputs && v !in Members(front)
    requires Pending(m, children, PushedInTurn(m, children, inputs, front), inputs, inputs.Keys - Members(front))
    ensures Members(front + [v]) <= children.Keys
    ensures Pending(m, children, PushedInTurn(m, children, inputs, front + [v]), inputs,
                    (inputs.Keys - Members(front)) - {v})
  {
    PushInput(m, children, PushedInTurn(m, children, inputs, front), inputs, inputs.Keys - Members(front), v);
    PushOneMore(m, children, inputs, front, v);
  }

  lemma PushedIsBuilt(m: Mechanisms, children: map<Var, seq<Var>>, inputs: map<Var, Value>, values: map<Var, Value>)
    requires Acyclic(m) && ChildrenOf(m, children) && WiredSomehow(m, children)
    requires inputs.Keys <= m.Keys && RootsIfLazy(m, inputs)
    requires PushedSomehow(m, children, inputs, values)
    ensures Built(m, children, values, inputs)
    ensures RootsOnly(m, inputs) ==>
              SourcesOf(m, values) == inputs && CoherentStore(m, children, values, {})
  {
    var order :| Enumerates(order, inputs.Keys) && values == PushedInTurn(m, children, inputs, order);
    PushInputs(m, children, inputs, order);
    assert inputs.Keys - Members(order) == {};
    BuiltMeans(m, children, values, inputs);
  }

  /** Children lists rebuilt from the mechanisms in force are as good as the original ones. */
  lemma RewiredChildren(m: Mechanisms, original: map<Var, seq<Var>>, children: map<Var, seq<Var>>,
                        values: map<Var, Value>)
    requires CoherentStore(m, original, values, {}) && ChildrenOf(m, children)
    ensures CoherentStore(m, children, values, {})
  {
    WiredIsAcyclic(m, original);
    var rank, bound := Rewired(m, children);
    assert forall c :: c in m && Listed(children, c) ==> m[c].parents != [];
  }

  // ---------------------------------------------------------------- reads and writes of a store

  /** What a trace holds: the mechanisms in force and the stored values. */
  datatype Store = Store(m: Mechanisms, values: map<Var, Value>)

  function ModelOf(s: Store): Model {
    Model(s.m, SourcesOf(s.m, s.values))
  }

  /** The store after v was read: a lazy variable is cached. */
  function Cached(s: Store, v: Var): Store {
    var r := OnDemand(s.m, s.values, v);
    if r.Some? then Store(s.m, s.values[v := r.value]) else s
  }

  lemma StillWired(m: Mechanisms, children: map<Var, seq<Var>>, v: Var, x: Value)
    requires WiredSomehow(m, children)
    ensures WiredSomehow(m[v := Constant(x)], children)
  {
    var rank: map<Var, nat>, bound: nat :| Wired(m, children, rank, bound);
    InstallConstantShape(m, children, rank, bound, v, x);
  }

  /** The store after v was set to x; the change of an undeclared variable is pushed to nobody. */
  ghost function Written(children: map<Var, seq<Var>>, s: Store, v: Var, x: Value): (after: Store)
    requires WiredSomehow(s.m, children)
    ensures after.m == s.m[v := Constant(x)] && WiredSomehow(after.m, children)
  {
    StillWired(s.m, children, v, x);
    var m, values := s.m[v := Constant(x)], s.values[v := x];
    Store(m, if v in children then Pushed(m, children, {}, values, v) else values)
  }

  /** The store is settled, and so is everything a lazy variable feeds. */
  ghost predicate Current(children: map<Var, seq<Var>>, s: Store) {
    CoherentStore(s.m, children, s.values, {}) && FeedersStored(s.m, s.values)
  }

  /** Setting v in a settled store leaves a settled store, the fixpoint of the model with v intervened on. */
  lemma WriteIsSurgery(children: map<Var, seq<Var>>, s: Store, v: Var, x: Value)
    requires CoherentStore(s.m, children, s.values, {})
    ensures var after := Written(children, s, v, x);
            && CoherentStore(after.m, children, after.values, {})
            && ModelOf(after) == Intervened(ModelOf(s), v, x)
            && Advances(after.m, s.values[v := x], after.values)
  {
    var rank: map<Var, nat>, bound: nat :| Wired(s.m, children, rank, bound);
    InstallConstantShape(s.m, children, rank, bound, v, x);
    InstallConstantValues(s.m, children, rank, bound, s.values, v, x);
    var m, values := s.m[v := Constant(x)], s.values[v := x];
    if v in children {
      assert Members(children[v][0..]) + {} == Members(Kids(children, v)) by {
        assert children[v][0..] == children[v];
      }
      WalkSettles(m, children, {}, values, v, 0, rank, bound, {}, {});
      PushedIsWalk(m, children, {}, values, v, rank, bound);
    }
    AdvancesKeepsConstants(m, children, values, Written(children, s, v, x).values);
  }

  lemma FeedersAdvance(m: Mechanisms, before: map<Var, Value>, after: map<Var, Value>)
    requires FeedersStored(m, before) && Advances(m, before, after)
    ensures FeedersStored(m, after)
  {
    forall v, p {:trigger p in m[v].parents} | v in m && p in m[v].parents && p in m && m[p].lazy
      ensures !Computed(m, p) && p in after
    {
      assert Lookup(after, p) == Lookup(before, p);
    }
  }

  lemma WriteKeepsCurrent(children: map<Var, seq<Var>>, s: Store, v: Var, x: Value)
    requires Current(children, s)
    ensures Current(children, Written(children, s, v, x))
    ensures ModelOf(Written(children, s, v, x)) == Intervened(ModelOf(s), v, x)
  {
    WriteIsSurgery(children, s, v, x);
    InstallConstantFeeds(s.m, s.values, v, x);
    FeedersAdvance(s.m[v := Constant(x)], s.values[v := x], Written(children, s, v, x).values);
  }

  /** A read of a current store returns the variable's meaning, and changes no variable's meaning. */
  lemma ReadIsMeaning(children: map<Var, seq<Var>>, s: Store, v: Var)
    requires Current(children, s)
    ensures Acyclic(s.m) && OnDemand(s.m, s.values, v) == Evaluate(ModelOf(s), v)
    ensures Current(children, Cached(s, v)) && SuppliedOrRead(ModelOf(s), ModelOf(Cached(s, v)).sources)
  {
    WiredIsAcyclic(s.m, children);
    StoreReads(s.m, s.values, v);
    assert NoDeferredFeeders(ModelOf(s));
    FedByStoredReadsEvaluation(ModelOf(s), v);
    var r := OnDemand(s.m, s.values, v);
    if r.Some? && v !in s.values {
      CacheLeaf(s.m, children, s.values, v, r.value);
      CacheIsRead(s.m, s.values, v, r.value);
    } else if r.Some? {
      assert Cached(s, v) == s;
    }
  }

  lemma RewiredStore(m: Mechanisms, original: map<Var, seq<Var>>, children: map<Var, seq<Var>>, values: map<Var, Value>)
    requires Current(original, Store(m, values)) && ChildrenOf(m, children)
    ensures Current(children, Store(m, values))
  {
    RewiredChildren(m, original, children, values);
  }

  /** One turn of the construction loop pushes one variable more. */
  lemma PushStep(m: Mechanisms, children: map<Var, seq<Var>>, inputs: map<Var, Value>, order: seq<Var>,
                 todo: set<Var>, v: Var, rank: map<Var, nat>, bound: nat)
    requires Wired(m, children, rank, bound) && inputs.Keys <= children.Keys
    requires v in todo && todo <= inputs.Keys && Enumerates(order, inputs.Keys - todo)
    ensures Members(order) <= children.Keys && Members(order + [v]) <= children.Keys
    ensures Enumerates(order + [v], inputs.Keys - (todo - {v}))
    ensures PushedInTurn(m, children, inputs, order + [v])
         == Walk(m, children, inputs.Keys, PushedInTurn(m, children, inputs, order), v, 0, rank, bound)
  {
    PushOneMore(m, children, inputs, order, v);
    PushedIsWalk(m, children, inputs.Keys, PushedInTurn(m, children, inputs, order), v, rank, bound);
    EnumeratesOneMore(order, inputs.Keys - todo, v);
    assert inputs.Keys - (todo - {v}) == (inputs.Keys - todo) + {v};
  }

  lemma EnumeratesOneMore(order: seq<Var>, vs: set<Var>, v: Var)
    requires Enumerates(order, vs) && v !in vs
    ensures Enumerates(order + [v], vs + {v})
  {
    assert Members(order + [v]) == Members(order) + {v};
    forall i | 0 <= i < |order| ensures order[i] != v {
      assert order[i] in Members(order);
    }
  }

  /**
   What construction leaves, by what was supplied: unless a lazy variable with parents is among it, the solution of the
   surgery that sets it; with input variables alone, a settled store of the model on them, and a current one where
   nothing deferred feeds anything.
   */
  ghost predicate Constructed(m: Mechanisms, children: map<Var, seq<Var>>, inputs: map<Var, Value>,
                              values: map<Var, Value>)
    requires inputs.Keys <= m.Keys
  {
    && (RootsIfLazy(m, inputs) ==> Built(m, children, values, inputs))
    && (RootsOnly(m, inputs) ==>
          ModelOf(Store(m, values)) == Model(m, inputs) && CoherentStore(m, children, values, {}))
    && (RootsOnly(m, inputs) && NoDeferredFeeders(Model(m, inputs)) ==> Current(children, Store(m, values)))
  }

  /** What construction leaves, in whatever order the supplied variables are pushed. */
  lemma ConstructionMeans(m: Mechanisms, children: map<Var, seq<Var>>, inputs: map<Var, Value>, values: map<Var, Value>)
    requires Acyclic(m) && ChildrenOf(m, children) && WiredSomehow(m, children) && inputs.Keys <= m.Keys
    requires PushedSomehow(m, children, inputs, values)
    ensures Constructed(m, children, inputs, values)
  {
    if RootsIfLazy(m, inputs) {
      PushedIsBuilt(m, children, inputs, values);
      if RootsOnly(m, inputs) && NoDeferredFeeders(Model(m, inputs)) {
        SuppliedFeed(m, inputs, values);
      }
    }
  }

  lemma SuppliedFeed(m: Mechanisms, inputs: map<Var, Value>, values: map<Var, Value>)
    requires NoDeferredFeeders(Model(m, inputs)) && SourcesOf(m, values) == inputs
    ensures FeedersStored(m, values)
  {
    forall v, p {:trigger p in m[v].parents} | v in m && p in m[v].parents && p in m && m[p].lazy
      ensures !Computed(m, p) && p in values
    {
      assert !Deferred(Model(m, inputs), p);
      assert p in SourcesOf(m, values);
    }
  }

  class CausalTrace {
    var mechanisms: Mechanisms
    var children: map<Var, seq<Var>>
    var values: map<Var, Value>
    var pinned: set<Var>

    /** The children lists fit the mechanisms in force, and no variable is pinned any more. */
    ghost predicate Linked()
      reads this
    {
      WiredSomehow(mechanisms, children) && pinned == {}
    }

    /** Every stored value is current, and no lazy variable that has no value feeds another one. */
    ghost predicate Valid()
      reads this
    {
      Linked() && Current(children, Now())
    }

    function Now(): Store
      reads this
    {
      Store(mechanisms, values)
    }

    /** What every variable means: its mechanism, evaluated recursively on the current root values. */
    ghost function Meaning(): map<Var, Value>
      requires Valid()
      reads this
    {
      WiredIsAcyclic(mechanisms, children);
      Solution(Abstract(), true)
    }

    /** The mechanisms in force and the values their parentless variables hold. */
    ghost function Abstract(): Model
      reads this
    {
      ModelOf(Now())
    }

    /**
     The supplied variables are pushed in turn. Unless a lazy variable with parents is among them the store is the
     solution of the surgery that sets them.
     */
    constructor (mechanisms: Mechanisms, inputs: map<Var, Value>)
      requires Acyclic(mechanisms) && inputs.Keys <= mechanisms.Keys
      ensures this.mechanisms == mechanisms && Linked() && ChildrenOf(mechanisms, children)
      ensures PushedSomehow(mechanisms, children, inputs, values)
      ensures Constructed(mechanisms, children, inputs, values)
    {
      this.mechanisms := mechanisms;
      new;
      Initialize(inputs);
      ConstructionMeans(mechanisms, children, inputs, values);
    }

    /** Everything construction does once the mechanisms are in place. */
    method Initialize(inputs: map<Var, Value>)
      requires Acyclic(mechanisms) && inputs.Keys <= mechanisms.Keys
      modifies this`children, this`values, this`pinned
      ensures Linked() && ChildrenOf(mechanisms, children)
      ensures PushedSomehow(mechanisms, children, inputs, values)
    {
      children := BuildChildren(mechanisms);
      ghost var rank, bound := Rewired(mechanisms, children);
      values := inputs;
      pinned := inputs.Keys;
      PropagateInputs(inputs);
      pinned := {};
    }

    /** The construction loop: push every supplied variable in turn; pinned variables are not overwritten. */
    method PropagateInputs(inputs: map<Var, Value>)
      requires WiredSomehow(mechanisms, children) && inputs.Keys <= children.Keys
      requires values == inputs && pinned == inputs.Keys
      modifies this`values
      ensures PushedSomehow(mechanisms, children, inputs, values)
    {
      var todo := inputs.Keys;
      ghost var order: seq<Var> := [];
      while todo != {}
        invariant todo <= inputs.Keys && Enumerates(order, inputs.Keys - todo)
        invariant values == PushedInTurn(mechanisms, children, inputs, order)
        decreases todo
      {
        var v :| v in todo;
        ghost var rank: map<Var, nat>, bound: nat :| Wired(mechanisms, children, rank, bound);
        PushStep(mechanisms, children, inputs, order, todo, v, rank, bound);
        RecomputeDescendants(v, rank, bound);
        todo, order := todo - {v}, order + [v];
      }
    }

    /** Push v's new value to its descendants, depth first. */
    method RecomputeDescendants(v: Var, ghost rank: map<Var, nat>, ghost bound: nat)
      requires Wired(mechanisms, children, rank, bound) && v in children
      modifies this`values
      ensures values == Walk(mechanisms, children, pinned, old(values), v, 0, rank, bound)
      decreases bound - rank[v]
    {
      var cs := children[v];
      for i := 0 to |cs|
        invariant Walk(mechanisms, children, pinned, values, v, i, rank, bound)
               == Walk(mechanisms, children, pinned, old(values), v, 0, rank, bound)
      {
        var child := cs[i];
        assert child in children[v];
        var mechanism := mechanisms[child];
        if mechanism.lazy {
          values := values - {child};
        } else if child !in pinned && Ready(values, mechanism.parents) {
          values := values[child := mechanism.compute(Args(values, mechanism.parents))];
          RecomputeDescendants(child, rank, bound);
        }
      }
    }

    /**
     Read v; a lazy variable is computed from stored parents and cached on first access. None is the KeyError.
     In a valid trace the answer is the variable's meaning and no variable's meaning changes.
     */
    method Get(v: Var) returns (r: Option<Value>)
      modifies this`values
      ensures r == OnDemand(mechanisms, old(values), v) && Now() == Cached(old(Now()), v)
      ensures old(Valid()) ==> Valid() && r == Lookup(old(Meaning()), v) && Meaning() == old(Meaning())
    {
      if Valid() {
        ReadIsMeaning(children, Now(), v);
        ReadsKeepMeaning(Abstract(), ModelOf(Cached(Now(), v)).sources);
      }
      if v !in values {
        if v in mechanisms && mechanisms[v].lazy {
          var mechanism := mechanisms[v];
          if Ready(values, mechanism.parents) {
            var x := mechanism.compute(Args(values, mechanism.parents));
            values := values[v := x];
            return Some(x);
          }
        }
        return None;
      }
      return Some(values[v]);
    }

    /**
     Set v, break its causal link, and push the change to its descendants; an undeclared variable is stored all the
     same and then an error. In a valid trace this is surgery on v.
     */
    method Intervene(v: Var, x: Value) returns (declared: bool)
      requires Linked()
      modifies this`values, this`mechanisms
      ensures declared == (v in children)
      ensures Linked() && Now() == Written(children, old(Now()), v, x)
      ensures old(Valid()) ==> Valid() && Abstract() == Intervened(old(Abstract()), v, x)
    {
      StillWired(mechanisms, children, v, x);
      if Valid() {
        WriteKeepsCurrent(children, Now(), v, x);
      }
      values := values[v := x];
      mechanisms := mechanisms[v := Constant(x)];
      if v !in children {
        return false;
      }
      ghost var rank: map<Var, nat>, bound: nat :| Wired(mechanisms, children, rank, bound);
      PushedIsWalk(mechanisms, children, {}, values, v, rank, bound);
      RecomputeDescendants(v, rank, bound);
      return true;
    }

    /** A trace with the same state and its own storage; its children lists are rebuilt from the mechanisms in force. */
    method Copy() returns (c: CausalTrace)
      requires Linked()
      ensures fresh(c) && c.Linked() && ChildrenOf(c.mechanisms, c.children)
      ensures c.Now() == Now()
      ensures Valid() ==> c.Valid()
    {
      ghost var m, original, stored := mechanisms, children, values;
      WiredIsAcyclic(m, original);
      c := EmptyTrace(mechanisms);
      c.values := values;
      if Current(original, Store(m, stored)) {
        RewiredStore(m, original, c.children, stored);
      }
    }
  }

  /** A trace with no inputs: its children lists are read off the mechanisms. */
  method EmptyTrace(mechanisms: Mechanisms) returns (c: CausalTrace)
    requires Acyclic(mechanisms)
    ensures fresh(c) && c.mechanisms == mechanisms && c.Linked() && ChildrenOf(mechanisms, c.children)
  {
    c := new CausalTrace(mechanisms, map[]);
  }

  /** A new run of a model on given input variables. */
  method NewTrace(mechanisms: Mechanisms, inputs: map<Var, Value>) returns (t: CausalTrace)
    requires Acyclic(mechanisms) && NoDeferredFeeders(Model(mechanisms, inputs))
    requires inputs.Keys <= mechanisms.Keys && RootsOnly(mechanisms, inputs)
    ensures fresh(t) && t.Valid() && t.Abstract() == Model(mechanisms, inputs)
    ensures t.children.Keys == mechanisms.Keys
  {
    t := new CausalTrace(mechanisms, inputs);
  }

  /**
   The first read of a new run, lazy variables anywhere in the graph: what the eager propagation stored, or a lazy
   mechanism on stored parents. By ReadsAreEvaluationIff this is the recursive evaluation for every variable exactly
   when no variable with a value depends on a lazy one that was not supplied.
   */
  method FirstRead(mechanisms: Mechanisms, inputs: map<Var, Value>, v: Var) returns (r: Option<Value>)
    requires Acyclic(mechanisms) && inputs.Keys <= mechanisms.Keys && RootsOnly(mechanisms, inputs)
    ensures r == Observe(Model(mechanisms, inputs), v)
  {
    var t := new CausalTrace(mechanisms, inputs);
    StoreReads(mechanisms, t.values, v);
    r := t.Get(v);
  }
}
