/**
 Which hypotheses a run of pairs cannot tell apart: grouping by intervened outputs, and the rate at which two
 hypotheses disagree.
 */
module Confounding {
  import opened Wrappers

  type Output(==, !new)

  type Name = string

  /** The outputs each hypothesis gives on the sampled pairs, one for each pair. */
  type Outputs = map<Name, seq<Output>>

  predicate Covers(outputs: Outputs, names: seq<Name>) {
    forall i {:trigger names[i]} :: 0 <= i < |names| ==> names[i] in outputs
  }

  /** The first n hypotheses with these outputs, in order. */
  function WithOutputs(names: seq<Name>, outputs: Outputs, n: nat, vector: seq<Output>): seq<Name>
    requires n <= |names| && Covers(outputs, names)
  {
    if n == 0 then []
    else WithOutputs(names, outputs, n - 1, vector) + if outputs[names[n - 1]] == vector then [names[n - 1]] else []
  }

  // ---------------------------------------------------------------- grouping

  /** A group's outputs, read off its first member. */
  predicate Led(group: seq<Name>, outputs: Outputs) {
    group != [] && group[0] in outputs
  }

  predicate AllLed(groups: seq<seq<Name>>, outputs: Outputs) {
    forall g {:trigger groups[g]} :: 0 <= g < |groups| ==> Led(groups[g], outputs)
  }

  predicate LeadersDifferAt(groups: seq<seq<Name>>, outputs: Outputs, g: nat, h: nat)
    requires g < |groups| && h < |groups| && AllLed(groups, outputs)
  {
    outputs[groups[g][0]] != outputs[groups[h][0]]
  }

  /** Group g holds exactly the hypotheses with its leader's outputs, in order. */
  predicate CompleteAt(groups: seq<seq<Name>>, names: seq<Name>, outputs: Outputs, n: nat, g: nat)
    requires n <= |names| && Covers(outputs, names) && g < |groups| && AllLed(groups, outputs)
  {
    groups[g] == WithOutputs(names, outputs, n, outputs[groups[g][0]])
  }

  predicate PlacedAt(groups: seq<seq<Name>>, names: seq<Name>, outputs: Outputs, i: nat)
    requires i < |names| && Covers(outputs, names) && AllLed(groups, outputs)
  {
    exists g {:trigger groups[g]} :: 0 <= g < |groups| && outputs[groups[g][0]] == outputs[names[i]]
  }

  /** The groups of the first n hypotheses: one for each vector of outputs that occurs, complete. */
  ghost predicate Grouped(groups: seq<seq<Name>>, names: seq<Name>, outputs: Outputs, n: nat)
    requires n <= |names| && Covers(outputs, names)
  {
    && AllLed(groups, outputs)
    && (forall g {:trigger CompleteAt(groups, names, outputs, n, g)} :: 0 <= g < |groups| ==>
          CompleteAt(groups, names, outputs, n, g))
    && (forall g, h {:trigger LeadersDifferAt(groups, outputs, g, h)} :: 0 <= g < h < |groups| ==>
          LeadersDifferAt(groups, outputs, g, h))
    && (forall i {:trigger PlacedAt(groups, names, outputs, i)} :: 0 <= i < n ==> PlacedAt(groups, names, outputs, i))
  }

  /** The first group led by these outputs, or the number of groups. */
  method FindGroup(groups: seq<seq<Name>>, outputs: Outputs, vector: seq<Output>) returns (at: nat)
    requires AllLed(groups, outputs)
    ensures at <= |groups| && (at < |groups| ==> outputs[groups[at][0]] == vector)
    ensures forall g {:trigger groups[g]} :: 0 <= g < at ==> outputs[groups[g][0]] != vector
  {
    at := 0;
    while at < |groups| && outputs[groups[at][0]] != vector
      invariant at <= |groups| && forall g {:trigger groups[g]} :: 0 <= g < at ==> outputs[groups[g][0]] != vector
    {
      at := at + 1;
    }
  }

  /** Compare with each group's first member; join the first that matches, or open a new group. */
  method GroupConfounded(names: seq<Name>, outputs: Outputs) returns (groups: seq<seq<Name>>)
    requires Covers(outputs, names)
    ensures Grouped(groups, names, outputs, |names|)
  {
    groups := [];
    for n := 0 to |names|
      invariant Grouped(groups, names, outputs, n)
    {
      var at := FindGroup(groups, outputs, outputs[names[n]]);
      if at < |groups| {
        Joined(groups, names, outputs, n, at);
        groups := groups[at := groups[at] + [names[n]]];
      } else {
        Opened(groups, names, outputs, n);
        groups := groups + [[names[n]]];
      }
    }
  }

  lemma Joined(groups: seq<seq<Name>>, names: seq<Name>, outputs: Outputs, n: nat, at: nat)
    requires n < |names| && Covers(outputs, names) && Grouped(groups, names, outputs, n)
    requires at < |groups| && outputs[groups[at][0]] == outputs[names[n]]
    ensures Grouped(groups[at := groups[at] + [names[n]]], names, outputs, n + 1)
  {
    var after := groups[at := groups[at] + [names[n]]];
    forall g | 0 <= g < |after| ensures Led(after[g], outputs) && after[g][0] == groups[g][0] {
      assert Led(groups[g], outputs);
    }
    var m := n + 1;
    forall g | 0 <= g < |after| ensures CompleteAt(after, names, outputs, m, g) {
      assert CompleteAt(groups, names, outputs, n, g);
      if g < at {
        assert LeadersDifferAt(groups, outputs, g, at);
      } else if g > at {
        assert LeadersDifferAt(groups, outputs, at, g);
      }
    }
    forall g, h | 0 <= g < h < |after| ensures LeadersDifferAt(after, outputs, g, h) {
      assert LeadersDifferAt(groups, outputs, g, h);
    }
    forall i | 0 <= i < n + 1 ensures PlacedAt(after, names, outputs, i) {
      if i < n {
        assert PlacedAt(groups, names, outputs, i);
        var g :| 0 <= g < |groups| && outputs[groups[g][0]] == outputs[names[i]];
        assert after[g][0] == groups[g][0];
      } else {
        assert after[at][0] == groups[at][0];
      }
    }
  }

  lemma {:induction false} NobodyYet(names: seq<Name>, outputs: Outputs, n: nat, vector: seq<Output>)
    requires n <= |names| && Covers(outputs, names)
    requires forall i {:trigger names[i]} :: 0 <= i < n ==> outputs[names[i]] != vector
    ensures WithOutputs(names, outputs, n, vector) == []
    decreases n
  {
    if n > 0 {
      NobodyYet(names, outputs, n - 1, vector);
    }
  }

  lemma Opened(groups: seq<seq<Name>>, names: seq<Name>, outputs: Outputs, n: nat)
    requires n < |names| && Covers(outputs, names) && Grouped(groups, names, outputs, n)
    requires forall g {:trigger groups[g]} :: 0 <= g < |groups| ==> outputs[groups[g][0]] != outputs[names[n]]
    ensures Grouped(groups + [[names[n]]], names, outputs, n + 1)
  {
    var after := groups + [[names[n]]];
    forall i | 0 <= i < n ensures outputs[names[i]] != outputs[names[n]] {
      assert PlacedAt(groups, names, outputs, i);
    }
    NobodyYet(names, outputs, n, outputs[names[n]]);
    forall g | 0 <= g < |after| ensures Led(after[g], outputs) {
      assert g < |groups| ==> Led(groups[g], outputs);
    }
    var m := n + 1;
    forall g | 0 <= g < |after| ensures CompleteAt(after, names, outputs, m, g) {
      assert g < |groups| ==> CompleteAt(groups, names, outputs, n, g);
    }
    forall g, h | 0 <= g < h < |after| ensures LeadersDifferAt(after, outputs, g, h) {
      assert h < |groups| ==> LeadersDifferAt(groups, outputs, g, h);
    }
    forall i | 0 <= i < m ensures PlacedAt(after, names, outputs, i) {
      assert i < n ==> PlacedAt(groups, names, outputs, i);
      OpenedPlaces(groups, after, names, outputs, n, i);
    }
  }

  lemma OpenedPlaces(groups: seq<seq<Name>>, after: seq<seq<Name>>, names: seq<Name>, outputs: Outputs, n: nat, i: nat)
    requires i <= n < |names| && Covers(outputs, names) && AllLed(groups, outputs) && AllLed(after, outputs)
    requires after == groups + [[names[n]]] && (i < n ==> PlacedAt(groups, names, outputs, i))
    ensures PlacedAt(after, names, outputs, i)
  {
    if i < n {
      var g :| 0 <= g < |groups| && outputs[groups[g][0]] == outputs[names[i]];
      assert after[g] == groups[g];
    } else {
      assert after[|groups|] == [names[n]];
    }
  }

  /** The groups of more than one hypothesis, and the hypotheses that are alone in theirs. */
  function Shared(groups: seq<seq<Name>>, n: nat): seq<seq<Name>>
    requires n <= |groups|
  {
    if n == 0 then [] else Shared(groups, n - 1) + if |groups[n - 1]| > 1 then [groups[n - 1]] else []
  }

  function Alone(groups: seq<seq<Name>>, n: nat): seq<Name>
    requires n <= |groups|
  {
    if n == 0 then [] else Alone(groups, n - 1) + if |groups[n - 1]| == 1 then [groups[n - 1][0]] else []
  }

  /** What the audit reports; without any sampled pair it reports neither groups nor singletons. */
  method Audit(names: seq<Name>, outputs: Outputs, pairs: nat)
    returns (confounded: seq<seq<Name>>, singletons: seq<Name>)
    requires Covers(outputs, names)
    ensures pairs == 0 ==> confounded == [] && singletons == []
    ensures pairs > 0 ==> exists groups :: Grouped(groups, names, outputs, |names|)
                            && confounded == Shared(groups, |groups|) && singletons == Alone(groups, |groups|)
  {
    confounded, singletons := [], [];
    if pairs == 0 {
      return;
    }
    var groups := GroupConfounded(names, outputs);
    for g := 0 to |groups|
      invariant confounded == Shared(groups, g) && singletons == Alone(groups, g)
    {
      if |groups[g]| > 1 {
        confounded := confounded + [groups[g]];
      } else if |groups[g]| == 1 {
        singletons := singletons + [groups[g][0]];
      }
    }
  }

  lemma {:induction false} SharedHas(groups: seq<seq<Name>>, n: nat, group: seq<Name>)
    requires n <= |groups|
    ensures group in Shared(groups, n) <==> |group| > 1 && group in groups[..n]
    decreases n
  {
    if n > 0 {
      SharedHas(groups, n - 1, group);
      TakeOneMore(groups, n - 1);
    }
  }

  lemma {:induction false} AloneHas(groups: seq<seq<Name>>, n: nat, name: Name)
    requires n <= |groups|
    ensures name in Alone(groups, n) <==> [name] in groups[..n]
    decreases n
  {
    if n > 0 {
      AloneHas(groups, n - 1, name);
      TakeOneMore(groups, n - 1);
      assert |groups[n - 1]| == 1 ==> groups[n - 1] == [groups[n - 1][0]];
    }
  }

  // ---------------------------------------------------------------- disagreement

  /** On how many of the first n pairs two hypotheses differ. */
  function Disagreements(a: seq<Output>, b: seq<Output>, n: nat): nat
    requires n <= |a| && n <= |b|
  {
    if n == 0 then 0 else Disagreements(a, b, n - 1) + if a[n - 1] != b[n - 1] then 1 else 0
  }

  method DisagreementRate(a: seq<Output>, b: seq<Output>) returns (rate: Option<real>)
    requires |a| == |b|
    ensures rate == if a == [] then None else Some(Disagreements(a, b, |a|) as real / |a| as real)
  {
    var count := 0;
    for i := 0 to |a|
      invariant count == Disagreements(a, b, i)
    {
      if a[i] != b[i] {
        count := count + 1;
      }
    }
    rate := if |a| == 0 then None else Some(count as real / |a| as real);
  }

  /** No disagreement at all means the same outputs, the other way about too, and never more than the pairs. */
  lemma {:induction false} NoDisagreement(a: seq<Output>, b: seq<Output>, n: nat)
    requires n <= |a| && n <= |b|
    ensures Disagreements(a, b, n) <= n && (Disagreements(a, b, n) == 0 <==> a[..n] == b[..n])
    ensures Disagreements(a, b, n) == Disagreements(b, a, n)
    decreases n
  {
    if n > 0 {
      NoDisagreement(a, b, n - 1);
      TakeOneMore(a, n - 1);
      TakeOneMore(b, n - 1);
      assert a[..n] == b[..n] ==> a[..n][..n - 1] == b[..n][..n - 1] && a[..n][n - 1] == b[..n][n - 1];
      assert a[..n][..n - 1] == a[..n - 1] && b[..n][..n - 1] == b[..n - 1];
    }
  }

  /** Where a third hypothesis lies between two, their disagreement is no more than both of its own. */
  lemma {:induction false} DisagreementTriangle(a: seq<Output>, b: seq<Output>, c: seq<Output>, n: nat)
    requires n <= |a| && n <= |b| && n <= |c|
    ensures Disagreements(a, c, n) <= Disagreements(a, b, n) + Disagreements(b, c, n)
    decreases n
  {
    if n > 0 {
      DisagreementTriangle(a, b, c, n - 1);
    }
  }

  lemma {:induction false} WithOutputsHas(names: seq<Name>, outputs: Outputs, n: nat, vector: seq<Output>, name: Name)
    requires n <= |names| && Covers(outputs, names)
    ensures name in WithOutputs(names, outputs, n, vector) <==> name in names[..n] && outputs[name] == vector
    decreases n
  {
    if n > 0 {
      WithOutputsHas(names, outputs, n - 1, vector, name);
      TakeOneMore(names, n - 1);
    }
  }

  /**
   Two hypotheses are put in one group exactly when they disagree on no pair; every group is met, and no hypothesis
   is in two.
   */
  lemma GroupedIffNeverApart(groups: seq<seq<Name>>, names: seq<Name>, outputs: Outputs, i: nat, j: nat, pairs: nat)
    requires Covers(outputs, names) && Grouped(groups, names, outputs, |names|) && i < |names| && j < |names|
    requires forall name {:trigger outputs[name]} :: name in outputs ==> |outputs[name]| == pairs
    ensures (exists g {:trigger groups[g]} :: 0 <= g < |groups| && names[i] in groups[g] && names[j] in groups[g])
       <==> Disagreements(outputs[names[i]], outputs[names[j]], pairs) == 0
    ensures exists g {:trigger groups[g]} :: 0 <= g < |groups| && names[i] in groups[g]
    ensures forall g, h :: 0 <= g < |groups| && 0 <= h < |groups| && names[i] in groups[g] && names[i] in groups[h] ==>
              g == h
  {
    var a, b := outputs[names[i]], outputs[names[j]];
    NoDisagreement(a, b, pairs);
    TakeAll(a);
    TakeAll(b);
    TakeAll(names);
    forall g | 0 <= g < |groups|
      ensures names[i] in groups[g] <==> outputs[groups[g][0]] == a
      ensures names[j] in groups[g] <==> outputs[groups[g][0]] == b
    {
      assert CompleteAt(groups, names, outputs, |names|, g);
      WithOutputsHas(names, outputs, |names|, outputs[groups[g][0]], names[i]);
      WithOutputsHas(names, outputs, |names|, outputs[groups[g][0]], names[j]);
    }
    assert PlacedAt(groups, names, outputs, i);
    forall g, h | 0 <= g < h < |groups| ensures !(names[i] in groups[g] && names[i] in groups[h]) {
      assert LeadersDifferAt(groups, outputs, g, h);
    }
  }

  /** Another hypothesis than the i-th gives these outputs. */
  predicate SomeOther(names: seq<Name>, outputs: Outputs, n: nat, vector: seq<Output>, i: nat)
    requires n <= |names| && Covers(outputs, names)
  {
    exists j {:trigger names[j]} :: 0 <= j < n && j != i && outputs[names[j]] == vector
  }

  lemma OneMoreOther(names: seq<Name>, outputs: Outputs, before: nat, n: nat, vector: seq<Output>, i: nat)
    requires before < n == before + 1 <= |names| && Covers(outputs, names)
    ensures SomeOther(names, outputs, n, vector, i) <==>
              SomeOther(names, outputs, before, vector, i) || (before != i && outputs[names[before]] == vector)
  {
  }

  /** With hypothesis i there are several hypotheses with these outputs exactly when there is another one. */
  lemma {:induction false} SeveralWhenAnother(names: seq<Name>, outputs: Outputs, n: nat, vector: seq<Output>, i: nat)
    requires n <= |names| && Covers(outputs, names) && i < |names| && outputs[names[i]] == vector
    ensures |WithOutputs(names, outputs, n, vector)| > (if i < n then 1 else 0)
       <==> SomeOther(names, outputs, n, vector, i)
    ensures i < n ==> names[i] in WithOutputs(names, outputs, n, vector)
    decreases n
  {
    if n > 0 {
      SeveralWhenAnother(names, outputs, n - 1, vector, i);
      OneMoreOther(names, outputs, n - 1, n, vector, i);
    }
  }

  /** Some other hypothesis gives the i-th one's outputs on every pair. */
  predicate NeverApartFromAnother(names: seq<Name>, outputs: Outputs, i: nat, pairs: nat)
    requires Covers(outputs, names) && i < |names|
    requires forall name {:trigger outputs[name]} :: name in outputs ==> |outputs[name]| == pairs
  {
    exists j {:trigger names[j]} :: 0 <= j < |names| && j != i
      && Disagreements(outputs[names[i]], outputs[names[j]], pairs) == 0
  }

  lemma NeverApartIsOther(names: seq<Name>, outputs: Outputs, i: nat, pairs: nat)
    requires Covers(outputs, names) && i < |names|
    requires forall name {:trigger outputs[name]} :: name in outputs ==> |outputs[name]| == pairs
    ensures NeverApartFromAnother(names, outputs, i, pairs) <==>
              SomeOther(names, outputs, |names|, outputs[names[i]], i)
  {
    forall j | 0 <= j < |names|
      ensures Disagreements(outputs[names[i]], outputs[names[j]], pairs) == 0 <==>
                outputs[names[j]] == outputs[names[i]]
    {
      NoDisagreement(outputs[names[i]], outputs[names[j]], pairs);
      TakeAll(outputs[names[i]]);
      TakeAll(outputs[names[j]]);
    }
  }

  /**
   What the audit reports: a hypothesis is in a confounded group exactly when another one never disagrees with it, and
   reported alone exactly when every other one does on some pair.
   */
  lemma ReportedIff(groups: seq<seq<Name>>, names: seq<Name>, outputs: Outputs, i: nat, pairs: nat)
    requires Covers(outputs, names) && Grouped(groups, names, outputs, |names|) && i < |names|
    requires forall name {:trigger outputs[name]} :: name in outputs ==> |outputs[name]| == pairs
    ensures (exists group {:trigger group in Shared(groups, |groups|)} ::
               group in Shared(groups, |groups|) && names[i] in group)
       <==> NeverApartFromAnother(names, outputs, i, pairs)
    ensures names[i] in Alone(groups, |groups|) <==> !NeverApartFromAnother(names, outputs, i, pairs)
  {
    var vector := outputs[names[i]];
    NeverApartIsOther(names, outputs, i, pairs);
    SeveralWhenAnother(names, outputs, |names|, vector, i);
    var g := GroupOf(groups, names, outputs, i);
    TakeAll(groups);
    SharedHas(groups, |groups|, groups[g]);
    AloneHas(groups, |groups|, names[i]);
    if group :| group in Shared(groups, |groups|) && names[i] in group {
      SharedHas(groups, |groups|, group);
      var h :| 0 <= h < |groups| && groups[h] == group;
      OnlyGroup(groups, names, outputs, i, g, h);
    }
    if [names[i]] in groups {
      var h :| 0 <= h < |groups| && groups[h] == [names[i]];
      OnlyGroup(groups, names, outputs, i, g, h);
    }
  }

  /** The group of hypothesis i holds exactly the hypotheses with its outputs. */
  lemma GroupOf(groups: seq<seq<Name>>, names: seq<Name>, outputs: Outputs, i: nat) returns (g: nat)
    requires Covers(outputs, names) && Grouped(groups, names, outputs, |names|) && i < |names|
    ensures g < |groups| && groups[g] == WithOutputs(names, outputs, |names|, outputs[names[i]])
    ensures |groups[g]| == 1 && names[i] in groups[g] ==> groups[g] == [names[i]]
  {
    assert PlacedAt(groups, names, outputs, i);
    g :| 0 <= g < |groups| && outputs[groups[g][0]] == outputs[names[i]];
    assert CompleteAt(groups, names, outputs, |names|, g);
  }

  lemma OnlyGroup(groups: seq<seq<Name>>, names: seq<Name>, outputs: Outputs, i: nat, g: nat, h: nat)
    requires Covers(outputs, names) && Grouped(groups, names, outputs, |names|) && i < |names|
    requires g < |groups| && groups[g] == WithOutputs(names, outputs, |names|, outputs[names[i]])
    requires h < |groups| && names[i] in groups[h]
    ensures groups[h] == groups[g]
  {
    assert CompleteAt(groups, names, outputs, |names|, h);
    WithOutputsHas(names, outputs, |names|, outputs[groups[h][0]], names[i]);
  }
}
