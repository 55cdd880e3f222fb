/** Pairing two prepared rows: which donor token each base target is scored against. */
module Pairing {
  import opened Cohorts
  import opened Sequences
  import opened Wrappers

  /** Base target ordinals to donor target ordinals. */
  type Alignment = map<int, int>

  datatype Refusal = GroupsDiffer | LayoutsDiffer | NotOneToOne

  /** The paired row: the base's row naming its donor, the donor's own record, its token for each base target. */
  datatype Pair = Pair(row: Row, donor: Prepared, tokens: map<int, int>, ordinals: Alignment)

  /** What preparation leaves in a row. */
  ghost predicate FromPreparation(row: Row) {
    && row.exampleId.Some? && row.counterfactualId == None && row.outputLength == |row.body.targets|
    && exists frozen, roles, eos :: WellPrepared(row.body, frozen, roles, eos)
  }

  predicate SameGroup(base: Row, donor: Row) {
    base.split == donor.split && base.prefixCondition == donor.prefixCondition
  }

  predicate SameRoles(base: Row, donor: Row) {
    && |base.body.targets| == |donor.body.targets|
    && forall i {:trigger base.body.targets[i]} :: 0 <= i < |base.body.targets| ==>
         base.body.targets[i].role == donor.body.targets[i].role
  }

  /** The ordinals of n targets. */
  function Below(n: nat): (r: set<int>)
    ensures forall i :: i in r <==> 0 <= i < n
    ensures |r| == n
  {
    if n == 0 then {} else Below(n - 1) + {n - 1}
  }

  function Identity(n: nat): Alignment {
    map i | i in Below(n) :: i
  }

  /** The donor ordinals an alignment uses. */
  function ValuesOf(a: Alignment): set<int> {
    set i | i in a :: a[i]
  }

  predicate ApartIn(a: Alignment, i: int, j: int)
    requires i in a && j in a
  {
    i != j ==> a[i] != a[j]
  }

  ghost predicate Injective(a: Alignment) {
    forall i, j {:trigger ApartIn(a, i, j)} :: i in a && j in a ==> ApartIn(a, i, j)
  }

  /** Every base target, once, to a donor target of its own. */
  ghost predicate OneToOne(a: Alignment, n: nat, m: nat) {
    && a.Keys == Below(n) && ValuesOf(a) <= Below(m) && Injective(a)
  }

  // ---------------------------------------------------------------- counting values

  lemma RestValues(a: Alignment, k: int)
    requires k in a
    ensures |a - {k}| + 1 == |a| && ValuesOf(a) == ValuesOf(a - {k}) + {a[k]}
  {
    var rest := a - {k};
    assert a.Keys == rest.Keys + {k} && |a| == |a.Keys| && |rest| == |rest.Keys|;
    forall v ensures v in ValuesOf(a) <==> v in ValuesOf(rest) + {a[k]} {
      if i :| i in a && a[i] == v {
        assert i != k ==> i in rest && rest[i] == v;
      }
    }
  }

  lemma InjectiveStep(a: Alignment, k: int)
    requires k in a
    ensures Injective(a) <==> Injective(a - {k}) && a[k] !in ValuesOf(a - {k})
  {
    var rest := a - {k};
    if Injective(a) {
      forall i, j | i in rest && j in rest ensures ApartIn(rest, i, j) {
        assert ApartIn(a, i, j);
      }
      forall i | i in rest ensures rest[i] != a[k] {
        assert ApartIn(a, i, k);
      }
    }
    if Injective(rest) && a[k] !in ValuesOf(rest) {
      forall i, j | i in a && j in a ensures ApartIn(a, i, j) {
        if i != k && j != k {
          assert ApartIn(rest, i, j);
        } else if i != j {
          var other := if i == k then j else i;
          assert rest[other] in ValuesOf(rest);
        }
      }
    }
  }

  lemma SomeMember<T>(s: set<T>) returns (x: T)
    requires s != {}
    ensures x in s
  {
    x :| x in s;
  }

  /** A dictionary has as many values as keys exactly when no two keys share one. */
  lemma {:induction false} ValuesCount(a: Alignment)
    ensures |ValuesOf(a)| <= |a| && (|ValuesOf(a)| == |a| <==> Injective(a))
    decreases |a|
  {
    assert |a| == |a.Keys|;
    if a.Keys != {} {
      var k := SomeMember(a.Keys);
      RestValues(a, k);
      InjectiveStep(a, k);
      ValuesCount(a - {k});
    }
  }

  lemma {:induction false} SubsetSize<T>(a: set<T>, b: set<T>)
    requires a <= b
    ensures |a| <= |b| && (|a| == |b| ==> a == b)
    decreases |a|
  {
    if x :| x in a {
      SubsetSize(a - {x}, b - {x});
      assert a == (a - {x}) + {x} && b == (b - {x}) + {x};
    }
  }

  /** A donor has at least as many targets as its base; with as many, every donor target is taken. */
  lemma DonorIsLongEnough(a: Alignment, n: nat, m: nat)
    requires OneToOne(a, n, m)
    ensures n <= m && (n == m ==> ValuesOf(a) == Below(m))
  {
    ValuesCount(a);
    assert |a| == |a.Keys|;
    SubsetSize(ValuesOf(a), Below(m));
  }

  // ---------------------------------------------------------------- pairing

  function Chosen(base: Row, alignment: Option<Alignment>): Alignment {
    if alignment.Some? then alignment.value else Identity(base.outputLength)
  }

  ghost function FirstRefusal(base: Row, donor: Row, alignment: Option<Alignment>): Option<Refusal> {
    if !SameGroup(base, donor) then Some(GroupsDiffer)
    else if alignment == None && !(base.outputLength == donor.outputLength && SameRoles(base, donor)) then
      Some(LayoutsDiffer)
    else if !OneToOne(Chosen(base, alignment), base.outputLength, donor.outputLength) then Some(NotOneToOne)
    else None
  }

  /** Without an explicit alignment, equal layouts are always paired. */
  lemma LayoutsSuffice(base: Row, donor: Row)
    ensures FirstRefusal(base, donor, None) == None <==>
              SameGroup(base, donor) && base.outputLength == donor.outputLength && SameRoles(base, donor)
  {
  }

  /**
   What is paired, spelled out: one group, and equal layouts or an alignment that takes a donor target for each
   base's.
   */
  lemma PairingAccepts(base: Row, donor: Row, alignment: Option<Alignment>)
    requires FromPreparation(base) && FromPreparation(donor)
    ensures FirstRefusal(base, donor, alignment) == None <==>
              && base.split == donor.split && base.prefixCondition == donor.prefixCondition
              && if alignment == None then
                   && |base.body.targets| == |donor.body.targets|
                   && forall i {:trigger base.body.targets[i]} {:trigger donor.body.targets[i]} ::
                        0 <= i < |base.body.targets| ==> base.body.targets[i].role == donor.body.targets[i].role
                 else
                   && (forall i :: i in alignment.value <==> 0 <= i < |base.body.targets|)
                   && (forall i {:trigger alignment.value[i]} :: i in alignment.value ==>
                         0 <= alignment.value[i] < |donor.body.targets|)
                   && (forall i, j {:trigger alignment.value[i], alignment.value[j]} ::
                         i in alignment.value && j in alignment.value && alignment.value[i] == alignment.value[j] ==>
                           i == j)
  {
    if alignment == None {
      LayoutsSuffice(base, donor);
    } else {
      OneToOneMeans(alignment.value, base.outputLength, donor.outputLength);
    }
  }

  lemma OneToOneMeans(a: Alignment, n: nat, m: nat)
    ensures OneToOne(a, n, m) <==>
              && (forall i :: i in a <==> 0 <= i < n)
              && (forall i {:trigger a[i]} :: i in a ==> 0 <= a[i] < m)
              && (forall i, j {:trigger a[i], a[j]} :: i in a && j in a && a[i] == a[j] ==> i == j)
  {
    assert a.Keys == Below(n) <==> forall i :: i in a <==> 0 <= i < n;
    forall i | i in a ensures a[i] in ValuesOf(a) {
    }
    if Injective(a) {
      forall i, j {:trigger a[i], a[j]} | i in a && j in a && a[i] == a[j] ensures i == j {
        assert ApartIn(a, i, j);
      }
    }
  }

  /** A row that names its donor. */
  function WithDonor(base: Row, donor: Row): Row {
    base.(counterfactualId := donor.exampleId, counterfactualLength := Some(donor.outputLength))
  }

  /** The token is the one the donor holds at its output ordinal j. */
  predicate TakesToken(token: int, donor: Row, j: int) {
    0 <= donor.body.promptLength + j < |donor.body.ids| && token == donor.body.ids[donor.body.promptLength + j]
  }

  /** What a pair promises its readers: the donor's own token for every base target, each from another place. */
  ghost predicate WellPaired(p: Pair, base: Row, donor: Row, a: Alignment) {
    && p.row == WithDonor(base, donor) && p.donor == donor.body && p.ordinals == a
    && p.tokens.Keys == a.Keys == Below(base.outputLength)
    && forall i {:trigger p.tokens[i]} :: i in a ==> TakesToken(p.tokens[i], donor, a[i])
  }

  /**
   Which donor token a pair holds for a base target: the aligned one's, or without an alignment the one at its place.
   */
  lemma PairHolds(p: Pair, base: Row, donor: Row, alignment: Option<Alignment>, i: nat)
    requires FirstRefusal(base, donor, alignment) == None && WellPaired(p, base, donor, Chosen(base, alignment))
    requires i < base.outputLength
    ensures i in p.tokens && (alignment.Some? ==> i in alignment.value)
    ensures var at := donor.body.promptLength + if alignment.Some? then alignment.value[i] else i;
            0 <= at < |donor.body.ids| && p.tokens[i] == donor.body.ids[at]
  {
    ChosenHolds(base, donor, alignment, Chosen(base, alignment), i);
    HeldToken(p, base, donor, Chosen(base, alignment), i,
              donor.body.promptLength + if alignment.Some? then alignment.value[i] else i);
  }

  lemma ChosenHolds(base: Row, donor: Row, alignment: Option<Alignment>, a: Alignment, i: nat)
    requires FirstRefusal(base, donor, alignment) == None && a == Chosen(base, alignment) && i < base.outputLength
    ensures i in a && (alignment.Some? ==> i in alignment.value)
    ensures a[i] == if alignment.Some? then alignment.value[i] else i
  {
    AllAligned(a, base.outputLength, donor.outputLength, i);
  }

  lemma AllAligned(a: Alignment, n: nat, m: nat, i: nat)
    requires OneToOne(a, n, m) && i < n
    ensures i in a
  {
    assert i in Below(n);
  }

  lemma HeldToken(p: Pair, base: Row, donor: Row, a: Alignment, i: nat, at: int)
    requires WellPaired(p, base, donor, a) && i in a && at == donor.body.promptLength + a[i]
    ensures i in p.tokens && 0 <= at < |donor.body.ids| && p.tokens[i] == donor.body.ids[at]
  {
    assert TakesToken(p.tokens[i], donor, a[i]);
  }

  lemma TargetToken(row: Row, j: int)
    requires FromPreparation(row) && 0 <= j < row.outputLength
    ensures TakesToken(row.body.targets[j].tokenId, row, j)
  {
    var frozen, roles, eos :| WellPrepared(row.body, frozen, roles, eos);
    assert row.body.targets[j] == TargetAt(frozen, roles, eos, j);
  }

  /** The check as it is made: the keys, the range, and the number of distinct values. */
  method CheckAlignment(a: Alignment, n: nat, m: nat) returns (ok: bool)
    ensures ok <==> OneToOne(a, n, m)
  {
    ValuesCount(a);
    assert |a| == |a.Keys|;
    ok := a.Keys == Below(n) && ValuesOf(a) <= Below(m) && |ValuesOf(a)| == n;
  }

  /** The donor's token for every aligned target. */
  method AlignedTokens(donor: Row, a: Alignment) returns (tokens: map<int, int>)
    requires FromPreparation(donor) && ValuesOf(a) <= Below(donor.outputLength)
    ensures tokens.Keys == a.Keys && forall i {:trigger tokens[i]} :: i in a ==> TakesToken(tokens[i], donor, a[i])
  {
    tokens := map[];
    var todo := a.Keys;
    while todo != {}
      invariant todo <= a.Keys && tokens.Keys == a.Keys - todo
      invariant forall i {:trigger tokens[i]} :: i in tokens ==> TakesToken(tokens[i], donor, a[i])
      decreases |todo|
    {
      var i :| i in todo;
      assert a[i] in ValuesOf(a);
      TargetToken(donor, a[i]);
      tokens, todo := tokens[i := donor.body.targets[a[i]].tokenId], todo - {i};
    }
  }

  method PairSequences(base: Row, donor: Row, alignment: Option<Alignment>) returns (r: Result<Pair, Refusal>)
    requires FromPreparation(base) && FromPreparation(donor)
    ensures var refusal := FirstRefusal(base, donor, alignment);
            if refusal.Some? then r == Err(refusal.value)
            else r.Ok? && WellPaired(r.value, base, donor, Chosen(base, alignment))
  {
    if !SameGroup(base, donor) {
      return Err(GroupsDiffer);
    }
    if alignment == None && !(base.outputLength == donor.outputLength && SameRoles(base, donor)) {
      return Err(LayoutsDiffer);
    }
    var a := Chosen(base, alignment);
    var ok := CheckAlignment(a, base.outputLength, donor.outputLength);
    if !ok {
      return Err(NotOneToOne);
    }
    var tokens := AlignedTokens(donor, a);
    r := Ok(Pair(WithDonor(base, donor), donor.body, tokens, a));
  }

  // ---------------------------------------------------------------- pairs in cohorts

  /** Each row of `paired` names a base and a donor of `rows`, both of its own split. */
  ghost predicate PairedFrom(paired: seq<Row>, rows: seq<Row>) {
    forall k {:trigger paired[k]} :: 0 <= k < |paired| ==>
      exists i, j {:trigger rows[i], rows[j]} :: 0 <= i < |rows| && 0 <= j < |rows| && SameGroup(rows[i], rows[j])
        && rows[i].counterfactualId == None
        && paired[k] == WithDonor(rows[i], rows[j])
  }

  lemma PairsIdentity(paired: seq<Row>, rows: seq<Row>, k: nat, id: string) returns (i: nat)
    requires PairedFrom(paired, rows) && k < |paired| && id in Identities(paired[k])
    ensures i < |rows| && id in Identities(rows[i]) && rows[i].split == paired[k].split
  {
    var b, d :| 0 <= b < |rows| && 0 <= d < |rows| && SameGroup(rows[b], rows[d])
      && rows[b].counterfactualId == None
      && paired[k] == WithDonor(rows[b], rows[d]);
    i := if rows[b].exampleId == Some(id) then b else d;
  }

  /** However rows are paired, pairing never carries an example into another split. */
  lemma PairsKeepSplits(paired: seq<Row>, rows: seq<Row>)
    requires SplitsHold(rows, |rows|) && PairedFrom(paired, rows)
    ensures SplitsHold(paired, |paired|)
  {
    forall k, l, id {:trigger id in Identities(paired[k]), id in Identities(paired[l])}
      | 0 <= k < |paired| && 0 <= l < |paired| && id in Identities(paired[k]) && id in Identities(paired[l])
      ensures paired[k].split == paired[l].split
    {
      var i := PairsIdentity(paired, rows, k, id);
      var j := PairsIdentity(paired, rows, l, id);
      assert id in Identities(rows[i]) && id in Identities(rows[j]);
    }
  }

  /** A paired row is its base's in everything but the donor it names, and how long that one is. */
  lemma PairedRow(base: Row, donor: Row)
    ensures var row := WithDonor(base, donor);
            && row.counterfactualId == donor.exampleId && row.counterfactualLength == Some(donor.outputLength)
            && row.(counterfactualId := base.counterfactualId, counterfactualLength := base.counterfactualLength)
              == base
  {
  }

  /** Pairs of one cohort have as many base targets, and as many donor targets, as each other. */
  lemma CohortsOfPairs(base: Row, donor: Row, base': Row, donor': Row)
    requires base.prefixCondition in PREFIX_CONDITIONS && base'.prefixCondition in PREFIX_CONDITIONS
    ensures CohortKey(WithDonor(base, donor)) == CohortKey(WithDonor(base', donor')) <==>
              base.prefixCondition == base'.prefixCondition && base.split == base'.split
              && base.outputLength == base'.outputLength && donor.outputLength == donor'.outputLength
  {
    PairedRow(base, donor);
    PairedRow(base', donor');
    KeysGroupExactly(WithDonor(base, donor), WithDonor(base', donor'));
  }
}
