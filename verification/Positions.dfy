/**
 Positions built from specifications and combinators: pairs that answer differently on original and counterfactual
 inputs, and concatenations. The per-example `index` and the batch-first `index_on_encoding` walk them separately.
 */
module Positions {
  import opened Wrappers
  import opened Templates
  import opened TokenPositions

  /** A hand-built position is any indexer closure: here, its answer on each example. */
  datatype Position =
    | FromSpec(spec: Spec, template: string)
    | Paired(original: Position, counterfactual: Position)
    | Combined(members: seq<Position>)
    | HandBuilt(answers: map<Example, seq<int>>)

  // ---------------------------------------------------------------- one example at a time

  /**
   `index` on one example. A pair asks its member without passing the flag on; a concatenation, whose flag defaults
   to the original, passes it on.
   */
  function IndexOne(p: Position, isOriginal: Option<bool>, ex: Example, e: Encoding, prefix: nat): Option<seq<int>>
    decreases p, 1, 0
  {
    match p
    case FromSpec(spec, template) => IndexExample(spec, PartsFrom(template, 0), ex, e, prefix)
    case Paired(o, c) =>
      if isOriginal != Some(false) then IndexOne(o, None, ex, e, prefix) else IndexOne(c, None, ex, e, prefix)
    case Combined(members) =>
      IndexMembers(p, |members|, Some(isOriginal != Some(false)), ex, e, prefix)
    case HandBuilt(answers) => Lookup(answers, ex)
  }

  function IndexMembers(p: Position, n: nat, isOriginal: Option<bool>, ex: Example, e: Encoding, prefix: nat)
    : Option<seq<int>>
    requires p.Combined? && n <= |p.members|
    decreases p, 0, n
  {
    if n == 0 then Some([])
    else Join(IndexMembers(p, n - 1, isOriginal, ex, e, prefix), IndexOne(p.members[n - 1], isOriginal, ex, e, prefix))
  }

  // ---------------------------------------------------------------- the whole batch at once

  /** One row of the batch: the example, its unpadded encoding, and the padding put around it. */
  datatype Row = Row(ex: Example, e: Encoding, left: nat, right: nat)

  /** An exception, no answer for want of declarative structure, or one index row for each example. */
  datatype Outcome = Raised | NoStructure | Rows(rows: seq<seq<int>>)

  /** A list comprehension over the rows: the first exception ends it. */
  function AllRows(answers: seq<Option<seq<int>>>): Outcome {
    if exists i :: 0 <= i < |answers| && answers[i] == None then Raised
    else Rows(seq(|answers|, i requires 0 <= i < |answers| => answers[i].value))
  }

  /** Members are all asked before any answer is looked at, so an exception outlives a missing structure. */
  function Concatenate(a: Outcome, b: Outcome): Outcome {
    if a.Raised? || b.Raised? then Raised
    else if a.NoStructure? || b.NoStructure? || |a.rows| != |b.rows| then NoStructure
    else Rows(seq(|a.rows|, i requires 0 <= i < |a.rows| => a.rows[i] + b.rows[i]))
  }

  function ResolveBatch(p: Position, isOriginal: Option<bool>, batch: seq<Row>, prefix: nat): Outcome
    decreases p, 1, 0
  {
    match p
    case FromSpec(spec, template) =>
      AllRows(seq(|batch|, i requires 0 <= i < |batch| =>
        ResolveOnRow(spec, PartsFrom(template, 0), batch[i].ex, Padded(batch[i].e, batch[i].left, batch[i].right),
                     prefix)))
    case Paired(o, c) => ResolveBatch(if isOriginal != Some(false) then o else c, isOriginal, batch, prefix)
    case Combined(members) => ResolveMembers(p, |members|, isOriginal, batch, prefix)
    case HandBuilt(_) => NoStructure
  }

  function ResolveMembers(p: Position, n: nat, isOriginal: Option<bool>, batch: seq<Row>, prefix: nat): Outcome
    requires p.Combined? && n <= |p.members|
    decreases p, 0, n
  {
    if n == 0 then Rows(seq(|batch|, _ => []))
    else Concatenate(ResolveMembers(p, n - 1, isOriginal, batch, prefix),
                     ResolveBatch(p.members[n - 1], isOriginal, batch, prefix))
  }

  // ---------------------------------------------------------------- the members each path ends with

  /** Built from specifications alone. */
  predicate Declarative(p: Position)
    decreases p
  {
    match p
    case FromSpec(_, _) => true
    case Paired(o, c) => Declarative(o) && Declarative(c)
    case Combined(members) => forall i :: 0 <= i < |members| ==> Declarative(members[i])
    case HandBuilt(_) => false
  }

  predicate PairFree(p: Position)
    decreases p
  {
    match p
    case Paired(_, _) => false
    case Combined(members) => forall i :: 0 <= i < |members| ==> PairFree(members[i])
    case _ => true
  }

  /** No pair sits under another pair's counterfactual member. */
  predicate NoNestedPair(p: Position)
    decreases p
  {
    match p
    case Paired(o, c) => PairFree(c)
    case Combined(members) => forall i :: 0 <= i < |members| ==> NoNestedPair(members[i])
    case _ => true
  }

  /** Without pairs none is nested, and neither is one that is all there is to a position. */
  lemma {:induction false} PairFreeIsUnnested(p: Position)
    requires PairFree(p)
    ensures NoNestedPair(p) && forall o {:trigger Paired(o, p)} :: NoNestedPair(Paired(o, p))
    decreases p
  {
    if p.Combined? {
      forall i | 0 <= i < |p.members| ensures NoNestedPair(p.members[i]) {
        PairFreeIsUnnested(p.members[i]);
      }
    }
  }

  /** The position with every pair, however deep, replaced by the member the flag asks for: the batch-first path. */
  function Settled(p: Position, original: bool): Position
    decreases p
  {
    match p
    case Paired(o, c) => Settled(if original then o else c, original)
    case Combined(members) =>
      Combined(seq(|members|, i requires 0 <= i < |members| => Settled(members[i], original)))
    case _ => p
  }

  /** The member the per-example path ends with: the flag is asked once on the way down, and forgotten below a pair. */
  function Asked(p: Position, original: bool): Position
    decreases p
  {
    match p
    case Paired(o, c) => Settled(if original then o else c, true)
    case Combined(members) =>
      Combined(seq(|members|, i requires 0 <= i < |members| => Asked(members[i], original)))
    case _ => p
  }

  lemma {:induction false} SettledHasNoPairs(p: Position, original: bool)
    ensures PairFree(Settled(p, original)) && (Declarative(p) ==> Declarative(Settled(p, original)))
    decreases p
  {
    match p
    case Paired(o, c) => SettledHasNoPairs(if original then o else c, original);
    case Combined(members) =>
      forall i | 0 <= i < |members|
        ensures PairFree(Settled(members[i], original))
        ensures Declarative(members[i]) ==> Declarative(Settled(members[i], original))
      {
        SettledHasNoPairs(members[i], original);
      }
    case _ =>
  }

  lemma {:induction false} AskedHasNoPairs(p: Position, original: bool)
    ensures PairFree(Asked(p, original)) && (Declarative(p) ==> Declarative(Asked(p, original)))
    decreases p
  {
    match p
    case Paired(o, c) => SettledHasNoPairs(if original then o else c, true);
    case Combined(members) =>
      forall i | 0 <= i < |members|
        ensures PairFree(Asked(members[i], original))
        ensures Declarative(members[i]) ==> Declarative(Asked(members[i], original))
      {
        AskedHasNoPairs(members[i], original);
      }
    case _ =>
  }

  /** Without pairs there is nothing to settle. */
  lemma {:induction false} NothingToSettle(p: Position, original: bool)
    requires PairFree(p)
    ensures Settled(p, original) == p
    decreases p
  {
    if p.Combined? {
      forall i | 0 <= i < |p.members| ensures Settled(p.members[i], original) == p.members[i] {
        NothingToSettle(p.members[i], original);
      }
      SameElements(Settled(p, original).members, p.members);
    }
  }

  /** The two paths end with the same member for original inputs, and where no pair is nested under a counterfactual. */
  lemma {:induction false} AskedIsSettled(p: Position, original: bool)
    requires original || NoNestedPair(p)
    ensures Asked(p, original) == Settled(p, original)
    decreases p
  {
    match p
    case Paired(o, c) =>
      if !original {
        NothingToSettle(c, true);
        NothingToSettle(c, false);
      }
    case Combined(members) =>
      forall i | 0 <= i < |members| ensures Asked(members[i], original) == Settled(members[i], original) {
        AskedIsSettled(members[i], original);
      }
      SameElements(Asked(p, original).members, Settled(p, original).members);
    case _ =>
  }

  // ---------------------------------------------------------------- what the two paths answer

  /**
   What a declarative position without pairs answers on an example's own encoding, each specification resolved by
   the row resolver.
   */
  function Alone(p: Position, ex: Example, e: Encoding, prefix: nat): Option<seq<int>>
    decreases p, 1, 0
  {
    match p
    case FromSpec(spec, template) =>
      ResolveOnRow(spec, PartsFrom(template, 0), ex, TokenPositions.Alone(e), prefix)
    case Combined(members) => MembersAlone(p, |members|, ex, e, prefix)
    case _ => None
  }

  function MembersAlone(p: Position, n: nat, ex: Example, e: Encoding, prefix: nat): Option<seq<int>>
    requires p.Combined? && n <= |p.members|
    decreases p, 0, n
  {
    if n == 0 then Some([])
    else Join(MembersAlone(p, n - 1, ex, e, prefix), Alone(p.members[n - 1], ex, e, prefix))
  }

  /**
   Somewhere in the position a specification needs a variable that the per-example path cannot index: the chat template
   altered one of its template's variables, or the tokenizer has no name.
   */
  predicate NeedsUnindexable(p: Position, ex: Example, e: Encoding)
    decreases p
  {
    match p
    case FromSpec(spec, template) => NeedsVariable(Resolved(spec, ex)) && !Indexable(PartsFrom(template, 0), ex, e)
    case Combined(members) => exists i :: 0 <= i < |members| && NeedsUnindexable(members[i], ex, e)
    case _ => false
  }

  /** Somewhere in the position a specification has no answer on the example's encoding. */
  predicate Refuses(p: Position, ex: Example, e: Encoding, prefix: nat)
    decreases p
  {
    match p
    case FromSpec(spec, template) => Refused(Resolved(spec, ex), PartsFrom(template, 0), ex, e, prefix)
    case Combined(members) => exists i :: 0 <= i < |members| && Refuses(members[i], ex, e, prefix)
    case _ => true
  }

  lemma {:induction false} RefusesIs(p: Position, ex: Example, e: Encoding, prefix: nat)
    requires PairFree(p)
    ensures Alone(p, ex, e, prefix) == None <==> Refuses(p, ex, e, prefix)
    decreases p, 1, 0
  {
    match p
    case FromSpec(spec, template) => RefusedIs(spec, PartsFrom(template, 0), ex, e, prefix);
    case Combined(members) => MembersRefuse(p, |members|, ex, e, prefix);
    case _ =>
  }

  lemma {:induction false} MembersRefuse(p: Position, n: nat, ex: Example, e: Encoding, prefix: nat)
    requires p.Combined? && PairFree(p) && n <= |p.members|
    ensures MembersAlone(p, n, ex, e, prefix) == None
       <==> exists i :: 0 <= i < n && Refuses(p.members[i], ex, e, prefix)
    decreases p, 0, n
  {
    if n > 0 {
      MembersRefuse(p, n - 1, ex, e, prefix);
      RefusesIs(p.members[n - 1], ex, e, prefix);
    }
  }

  // ---------------------------------------------------------------- one example at a time

  /**
   Without pairs the flag makes no difference, and the answer is the resolver's unless something needed cannot be
   indexed.
   */
  lemma {:induction false} IndexIsAlone(p: Position, f: Option<bool>, ex: Example, e: Encoding, prefix: nat)
    requires PairFree(p) && Declarative(p)
    ensures IndexOne(p, f, ex, e, prefix) == if NeedsUnindexable(p, ex, e) then None else Alone(p, ex, e, prefix)
    decreases p, 1, 0
  {
    match p
    case FromSpec(spec, template) =>
      TemplatesAreParsed(template);
      ExampleRefusesMore(spec, PartsFrom(template, 0), ex, e, prefix);
    case Combined(members) =>
      MembersIndexAlone(p, |members|, Some(f != Some(false)), ex, e, prefix);
      assert NeededAmong(p, |members|, ex, e) <==> NeedsUnindexable(p, ex, e);
  }

  lemma {:induction false} MembersIndexAlone(p: Position, n: nat, f: Option<bool>, ex: Example, e: Encoding,
                                             prefix: nat)
    requires p.Combined? && PairFree(p) && Declarative(p) && n <= |p.members|
    ensures IndexMembers(p, n, f, ex, e, prefix)
         == if NeededAmong(p, n, ex, e) then None else MembersAlone(p, n, ex, e, prefix)
    decreases p, 0, n
  {
    if n > 0 {
      MembersIndexAlone(p, n - 1, f, ex, e, prefix);
      IndexIsAlone(p.members[n - 1], f, ex, e, prefix);
      OneMoreAlone(p, n - 1, n, f, ex, e, prefix);
    }
  }

  /** The next member's answer, joined to those before it. */
  lemma OneMoreAlone(p: Position, before: nat, n: nat, f: Option<bool>, ex: Example, e: Encoding, prefix: nat)
    requires p.Combined? && before < n == before + 1 <= |p.members|
    requires IndexMembers(p, before, f, ex, e, prefix)
          == if NeededAmong(p, before, ex, e) then None else MembersAlone(p, before, ex, e, prefix)
    requires IndexOne(p.members[before], f, ex, e, prefix)
          == if NeedsUnindexable(p.members[before], ex, e) then None else Alone(p.members[before], ex, e, prefix)
    ensures IndexMembers(p, n, f, ex, e, prefix)
         == if NeededAmong(p, n, ex, e) then None else MembersAlone(p, n, ex, e, prefix)
  {
    NextMemberAnswer(p, before, n, f, ex, e, prefix);
    NextMemberAlone(p, before, n, ex, e, prefix);
    NeededOneMore(p, before, n, ex, e);
  }

  predicate NeededAmong(p: Position, n: nat, ex: Example, e: Encoding)
    requires p.Combined? && n <= |p.members|
  {
    exists i :: 0 <= i < n && NeedsUnindexable(p.members[i], ex, e)
  }

  lemma NeededOneMore(p: Position, before: nat, n: nat, ex: Example, e: Encoding)
    requires p.Combined? && before < n == before + 1 <= |p.members|
    ensures NeededAmong(p, n, ex, e) <==> NeededAmong(p, before, ex, e) || NeedsUnindexable(p.members[before], ex, e)
  {
  }

  lemma NextMemberAlone(p: Position, before: nat, n: nat, ex: Example, e: Encoding, prefix: nat)
    requires p.Combined? && before < n == before + 1 <= |p.members|
    ensures MembersAlone(p, n, ex, e, prefix)
         == Join(MembersAlone(p, before, ex, e, prefix), Alone(p.members[before], ex, e, prefix))
  {
  }

  lemma SettledMember(p: Position, q: Position, original: bool, i: nat)
    requires p.Combined? && i < |p.members| && q == Settled(p, original)
    ensures q.Combined? && |q.members| == |p.members| && q.members[i] == Settled(p.members[i], original)
  {
  }

  lemma AskedMember(p: Position, q: Position, original: bool, i: nat)
    requires p.Combined? && i < |p.members| && q == Asked(p, original)
    ensures q.Combined? && |q.members| == |p.members| && q.members[i] == Asked(p.members[i], original)
  {
  }

  /** Two concatenations whose first members answer alike, and so does the next one. */
  lemma SameMemberAnswers(p: Position, q: Position, before: nat, n: nat, f: Option<bool>, ex: Example, e: Encoding,
                          prefix: nat)
    requires p.Combined? && q.Combined? && before < n == before + 1 <= |p.members| && n <= |q.members|
    requires IndexMembers(p, before, f, ex, e, prefix) == IndexMembers(q, before, f, ex, e, prefix)
    requires IndexOne(p.members[before], f, ex, e, prefix) == IndexOne(q.members[before], f, ex, e, prefix)
    ensures IndexMembers(p, n, f, ex, e, prefix) == IndexMembers(q, n, f, ex, e, prefix)
  {
    NextMemberAnswer(p, before, n, f, ex, e, prefix);
    NextMemberAnswer(q, before, n, f, ex, e, prefix);
  }

  lemma NextMemberAnswer(p: Position, before: nat, n: nat, f: Option<bool>, ex: Example, e: Encoding, prefix: nat)
    requires p.Combined? && before < n == before + 1 <= |p.members|
    ensures IndexMembers(p, n, f, ex, e, prefix)
         == Join(IndexMembers(p, before, f, ex, e, prefix), IndexOne(p.members[before], f, ex, e, prefix))
  {
  }

  lemma {:induction false} IndexSettles(p: Position, f: Option<bool>, ex: Example, e: Encoding, prefix: nat)
    requires f != Some(false)
    ensures IndexOne(p, f, ex, e, prefix) == IndexOne(Settled(p, true), f, ex, e, prefix)
    decreases p, 1, 0
  {
    match p
    case Paired(o, c) =>
      IndexSettles(o, None, ex, e, prefix);
      SettledHasNoPairs(o, true);
      FlagIrrelevant(Settled(o, true), None, f, ex, e, prefix);
    case Combined(members) => MembersIndexSettle(p, Settled(p, true), |members|, Some(true), ex, e, prefix);
    case _ =>
  }

  lemma {:induction false} MemberSettled(m: Position, k: Position, f: Option<bool>, ex: Example, e: Encoding,
                                         prefix: nat)
    requires f != Some(false) && k == Settled(m, true)
    ensures IndexOne(m, f, ex, e, prefix) == IndexOne(k, f, ex, e, prefix)
    decreases m, 2, 0
  {
    IndexSettles(m, f, ex, e, prefix);
  }

  lemma {:induction false} MembersIndexSettle(p: Position, q: Position, n: nat, f: Option<bool>, ex: Example,
                                              e: Encoding, prefix: nat)
    requires p.Combined? && q == Settled(p, true) && q.Combined? && n <= |p.members| == |q.members|
    requires f != Some(false)
    ensures IndexMembers(p, n, f, ex, e, prefix) == IndexMembers(q, n, f, ex, e, prefix)
    decreases p, 0, n
  {
    if n > 0 {
      MembersIndexSettle(p, q, n - 1, f, ex, e, prefix);
      SettledMember(p, q, true, n - 1);
      MemberSettled(p.members[n - 1], q.members[n - 1], f, ex, e, prefix);
      SameMemberAnswers(p, q, n - 1, n, f, ex, e, prefix);
    }
  }

  lemma {:induction false} FlagIrrelevant(p: Position, f: Option<bool>, g: Option<bool>, ex: Example, e: Encoding,
                                          prefix: nat)
    requires PairFree(p)
    ensures IndexOne(p, f, ex, e, prefix) == IndexOne(p, g, ex, e, prefix)
    decreases p, 1, 0
  {
    if p.Combined? {
      FlagIrrelevantMembers(p, |p.members|, Some(f != Some(false)), Some(g != Some(false)), ex, e, prefix);
    }
  }

  lemma {:induction false} FlagIrrelevantMembers(p: Position, n: nat, f: Option<bool>, g: Option<bool>, ex: Example,
                                                 e: Encoding, prefix: nat)
    requires p.Combined? && n <= |p.members| && PairFree(p)
    ensures IndexMembers(p, n, f, ex, e, prefix) == IndexMembers(p, n, g, ex, e, prefix)
    decreases p, 0, n
  {
    if n > 0 {
      FlagIrrelevantMembers(p, n - 1, f, g, ex, e, prefix);
      FlagIrrelevant(p.members[n - 1], f, g, ex, e, prefix);
    }
  }

  /** The per-example path ends with `Asked`. */
  lemma {:induction false} IndexAsks(p: Position, f: Option<bool>, ex: Example, e: Encoding, prefix: nat)
    ensures IndexOne(p, f, ex, e, prefix) == IndexOne(Asked(p, f != Some(false)), None, ex, e, prefix)
    decreases p, 1, 0
  {
    match p
    case Paired(o, c) => IndexSettles(if f != Some(false) then o else c, None, ex, e, prefix);
    case Combined(members) =>
      var q := Asked(p, f != Some(false));
      MembersIndexAsk(p, q, |members|, Some(f != Some(false)), ex, e, prefix);
      AskedHasNoPairs(p, f != Some(false));
      FlagIrrelevantMembers(q, |members|, Some(f != Some(false)), Some(true), ex, e, prefix);
    case _ =>
  }

  lemma {:induction false} MemberAsked(m: Position, k: Position, f: Option<bool>, ex: Example, e: Encoding, prefix: nat)
    requires k == Asked(m, f != Some(false))
    ensures IndexOne(m, f, ex, e, prefix) == IndexOne(k, f, ex, e, prefix)
    decreases m, 2, 0
  {
    IndexAsks(m, f, ex, e, prefix);
    AskedHasNoPairs(m, f != Some(false));
    FlagIrrelevant(k, None, f, ex, e, prefix);
  }

  lemma {:induction false} MembersIndexAsk(p: Position, q: Position, n: nat, f: Option<bool>, ex: Example, e: Encoding,
                                           prefix: nat)
    requires p.Combined? && q == Asked(p, f != Some(false)) && q.Combined? && n <= |p.members| == |q.members|
    ensures IndexMembers(p, n, f, ex, e, prefix) == IndexMembers(q, n, f, ex, e, prefix)
    decreases p, 0, n
  {
    if n > 0 {
      MembersIndexAsk(p, q, n - 1, f, ex, e, prefix);
      AskedMember(p, q, f != Some(false), n - 1);
      MemberAsked(p.members[n - 1], q.members[n - 1], f, ex, e, prefix);
      SameMemberAnswers(p, q, n - 1, n, f, ex, e, prefix);
    }
  }

  /**
   What the per-example path answers, pairs nested or not: the resolver's answer for the member it ends with, except
   that it refuses where a variable is needed that cannot be indexed.
   */
  lemma ExampleIsAskedAlone(p: Position, isOriginal: Option<bool>, ex: Example, e: Encoding, prefix: nat)
    requires Declarative(p)
    ensures var q := Asked(p, isOriginal != Some(false));
            IndexOne(p, isOriginal, ex, e, prefix) == if NeedsUnindexable(q, ex, e) then
              None else Alone(q, ex, e, prefix)
  {
    IndexAsks(p, isOriginal, ex, e, prefix);
    AskedHasNoPairs(p, isOriginal != Some(false));
    IndexIsAlone(Asked(p, isOriginal != Some(false)), None, ex, e, prefix);
  }

  // ---------------------------------------------------------------- the batch

  /** Each example's own answer, moved behind its row's padding. */
  function OwnAnswers(p: Position, batch: seq<Row>, prefix: nat): seq<Option<seq<int>>> {
    seq(|batch|, i requires 0 <= i < |batch| => ShiftOption(Alone(p, batch[i].ex, batch[i].e, prefix), batch[i].left))
  }

  function OwnMemberAnswers(p: Position, n: nat, batch: seq<Row>, prefix: nat): seq<Option<seq<int>>>
    requires p.Combined? && n <= |p.members|
  {
    seq(|batch|, i requires 0 <= i < |batch| =>
      ShiftOption(MembersAlone(p, n, batch[i].ex, batch[i].e, prefix), batch[i].left))
  }

  lemma ConcatenateRows(a: seq<Option<seq<int>>>, b: seq<Option<seq<int>>>, ab: seq<Option<seq<int>>>)
    requires |a| == |b| == |ab| && forall i :: 0 <= i < |a| ==> ab[i] == Join(a[i], b[i])
    ensures Concatenate(AllRows(a), AllRows(b)) == AllRows(ab)
  {
    if i :| 0 <= i < |a| && a[i] == None {
      assert ab[i] == None;
    } else if i :| 0 <= i < |b| && b[i] == None {
      assert ab[i] == None;
    }
  }

  lemma NoMembers(none: seq<Option<seq<int>>>, batch: seq<Row>)
    requires |none| == |batch| && forall i :: 0 <= i < |batch| ==> none[i] == ShiftOption(Some([]), batch[i].left)
    ensures AllRows(none) == Rows(seq(|batch|, _ => []))
  {
    forall i | 0 <= i < |batch| ensures none[i] == Some([]) {
      assert Shift([], batch[i].left) == [];
    }
    assert AllRows(none).rows == seq(|batch|, _ => []);
  }

  lemma SpecIsAlone(p: Position, isOriginal: Option<bool>, batch: seq<Row>, prefix: nat)
    requires p.FromSpec?
    ensures ResolveBatch(p, isOriginal, batch, prefix) == AllRows(OwnAnswers(p, batch, prefix))
  {
    var parts := PartsFrom(p.template, 0);
    var resolved := seq(|batch|, i requires 0 <= i < |batch| =>
      ResolveOnRow(p.spec, parts, batch[i].ex, Padded(batch[i].e, batch[i].left, batch[i].right), prefix));
    forall i | 0 <= i < |batch| ensures resolved[i] == OwnAnswers(p, batch, prefix)[i] {
      var r := batch[i];
      PaddedCarries(r.e, r.left, r.right);
      PaddingOnlyShifts(p.spec, parts, r.ex, Padded(r.e, r.left, r.right), r.e, r.left, prefix);
    }
    assert resolved == OwnAnswers(p, batch, prefix);
  }

  lemma {:induction false} PairFreeIsAlone(p: Position, isOriginal: Option<bool>, batch: seq<Row>, prefix: nat)
    requires Declarative(p) && PairFree(p)
    ensures ResolveBatch(p, isOriginal, batch, prefix) == AllRows(OwnAnswers(p, batch, prefix))
    decreases p, 1, 0
  {
    match p
    case FromSpec(_, _) => SpecIsAlone(p, isOriginal, batch, prefix);
    case Combined(members) =>
      MembersAreAlone(p, |members|, isOriginal, batch, prefix);
      assert OwnAnswers(p, batch, prefix) == OwnMemberAnswers(p, |members|, batch, prefix);
  }

  lemma {:induction false} MembersAreAlone(p: Position, n: nat, isOriginal: Option<bool>, batch: seq<Row>, prefix: nat)
    requires p.Combined? && n <= |p.members| && Declarative(p) && PairFree(p)
    ensures ResolveMembers(p, n, isOriginal, batch, prefix) == AllRows(OwnMemberAnswers(p, n, batch, prefix))
    decreases p, 0, n
  {
    if n == 0 {
      NoMembers(OwnMemberAnswers(p, 0, batch, prefix), batch);
    } else {
      var m := p.members[n - 1];
      MembersAreAlone(p, n - 1, isOriginal, batch, prefix);
      PairFreeIsAlone(m, isOriginal, batch, prefix);
      var before, member := OwnMemberAnswers(p, n - 1, batch, prefix), OwnAnswers(m, batch, prefix);
      var both := OwnMemberAnswers(p, n, batch, prefix);
      forall i | 0 <= i < |batch| ensures both[i] == Join(before[i], member[i]) {
        JoinShift(MembersAlone(p, n - 1, batch[i].ex, batch[i].e, prefix),
                  Alone(m, batch[i].ex, batch[i].e, prefix), batch[i].left);
      }
      ConcatenateRows(before, member, both);
    }
  }

  lemma SameMemberRows(p: Position, q: Position, before: nat, n: nat, isOriginal: Option<bool>, batch: seq<Row>,
                       prefix: nat)
    requires p.Combined? && q.Combined? && before < n == before + 1 <= |p.members| && n <= |q.members|
    requires ResolveMembers(p, before, isOriginal, batch, prefix)
               == ResolveMembers(q, before, isOriginal, batch, prefix)
    requires ResolveBatch(p.members[before], isOriginal, batch, prefix)
          == ResolveBatch(q.members[before], isOriginal, batch, prefix)
    ensures ResolveMembers(p, n, isOriginal, batch, prefix) == ResolveMembers(q, n, isOriginal, batch, prefix)
  {
    NextMemberRows(p, before, n, isOriginal, batch, prefix);
    NextMemberRows(q, before, n, isOriginal, batch, prefix);
  }

  lemma NextMemberRows(p: Position, before: nat, n: nat, isOriginal: Option<bool>, batch: seq<Row>, prefix: nat)
    requires p.Combined? && before < n == before + 1 <= |p.members|
    ensures ResolveMembers(p, n, isOriginal, batch, prefix)
         == Concatenate(ResolveMembers(p, before, isOriginal, batch, prefix),
                        ResolveBatch(p.members[before], isOriginal, batch, prefix))
  {
  }

  lemma {:induction false} BatchSettles(p: Position, isOriginal: Option<bool>, batch: seq<Row>, prefix: nat)
    ensures ResolveBatch(p, isOriginal, batch, prefix)
         == ResolveBatch(Settled(p, isOriginal != Some(false)), isOriginal, batch, prefix)
    decreases p, 1, 0
  {
    match p
    case Paired(o, c) => BatchSettles(if isOriginal != Some(false) then o else c, isOriginal, batch, prefix);
    case Combined(members) =>
      MembersSettle(p, Settled(p, isOriginal != Some(false)), |members|, isOriginal, batch, prefix);
    case _ =>
  }

  lemma {:induction false} MemberRowsSettled(m: Position, k: Position, isOriginal: Option<bool>, batch: seq<Row>,
                                             prefix: nat)
    requires k == Settled(m, isOriginal != Some(false))
    ensures ResolveBatch(m, isOriginal, batch, prefix) == ResolveBatch(k, isOriginal, batch, prefix)
    decreases m, 2, 0
  {
    BatchSettles(m, isOriginal, batch, prefix);
  }

  lemma {:induction false} MembersSettle(p: Position, q: Position, n: nat, isOriginal: Option<bool>, batch: seq<Row>,
                                         prefix: nat)
    requires p.Combined? && q == Settled(p, isOriginal != Some(false)) && q.Combined?
    requires n <= |p.members| == |q.members|
    ensures ResolveMembers(p, n, isOriginal, batch, prefix) == ResolveMembers(q, n, isOriginal, batch, prefix)
    decreases p, 0, n
  {
    if n > 0 {
      MembersSettle(p, q, n - 1, isOriginal, batch, prefix);
      SettledMember(p, q, isOriginal != Some(false), n - 1);
      MemberRowsSettled(p.members[n - 1], q.members[n - 1], isOriginal, batch, prefix);
      SameMemberRows(p, q, n - 1, n, isOriginal, batch, prefix);
    }
  }

  /**
   What the batch-first path answers, pairs nested or not and whatever the chat template did: one row for each
   example, what the settled position answers on that example's own encoding, moved behind the row's padding; it
   raises exactly when one of those is refused.
   */
  lemma BatchIsSettledAlone(p: Position, isOriginal: Option<bool>, batch: seq<Row>, prefix: nat)
    requires Declarative(p)
    ensures ResolveBatch(p, isOriginal, batch, prefix)
         == AllRows(OwnAnswers(Settled(p, isOriginal != Some(false)), batch, prefix))
  {
    BatchSettles(p, isOriginal, batch, prefix);
    SettledHasNoPairs(p, isOriginal != Some(false));
    PairFreeIsAlone(Settled(p, isOriginal != Some(false)), isOriginal, batch, prefix);
  }

  // ---------------------------------------------------------------- the two paths compared

  /** Each example indexed by itself, moved behind its row's padding. */
  function Expected(p: Position, isOriginal: Option<bool>, batch: seq<Row>, prefix: nat): seq<Option<seq<int>>> {
    seq(|batch|, i requires 0 <= i < |batch| =>
      ShiftOption(IndexOne(p, isOriginal, batch[i].ex, batch[i].e, prefix), batch[i].left))
  }

  /** Whether the batch gives each example what it gives by itself. */
  predicate PathsAgree(p: Position, isOriginal: Option<bool>, batch: seq<Row>, prefix: nat) {
    ResolveBatch(p, isOriginal, batch, prefix) == AllRows(Expected(p, isOriginal, batch, prefix))
  }

  /** Some example is refused by q. */
  predicate SomeRefused(q: Position, batch: seq<Row>, prefix: nat) {
    exists i :: 0 <= i < |batch| && Refuses(q, batch[i].ex, batch[i].e, prefix)
  }

  /** In some example q needs a variable that cannot be indexed. */
  predicate SomeUnindexable(q: Position, batch: seq<Row>) {
    exists i :: 0 <= i < |batch| && NeedsUnindexable(q, batch[i].ex, batch[i].e)
  }

  predicate SameAnswers(q: Position, r: Position, batch: seq<Row>, prefix: nat) {
    forall i :: 0 <= i < |batch| ==>
      Alone(q, batch[i].ex, batch[i].e, prefix) == Alone(r, batch[i].ex, batch[i].e, prefix)
  }

  /** Two lists of answers come to the same outcome when both hold a refusal, or neither does and they are alike. */
  lemma SameOutcome(a: seq<Option<seq<int>>>, b: seq<Option<seq<int>>>)
    requires |a| == |b|
    ensures AllRows(a) == AllRows(b) <==>
              ((exists i :: 0 <= i < |a| && a[i] == None) && (exists i :: 0 <= i < |b| && b[i] == None))
              || (forall i :: 0 <= i < |a| ==> a[i].Some? && b[i] == a[i])
  {
    if AllRows(a) == AllRows(b) && AllRows(a).Rows? {
      forall i | 0 <= i < |a| ensures a[i].Some? && b[i] == a[i] {
        assert AllRows(a).rows[i] == AllRows(b).rows[i];
      }
    }
    if forall i :: 0 <= i < |a| ==> a[i].Some? && b[i] == a[i] {
      SameElements(a, b);
    }
  }

  lemma ShiftBack(a: Option<seq<int>>, b: Option<seq<int>>, d: int)
    requires ShiftOption(a, d) == ShiftOption(b, d)
    ensures a == b
  {
    if a.Some? {
      assert |Shift(a.value, d)| == |Shift(b.value, d)|;
      forall i | 0 <= i < |a.value| ensures a.value[i] == b.value[i] {
        assert Shift(a.value, d)[i] == Shift(b.value, d)[i];
      }
      SameElements(a.value, b.value);
    }
  }

  /**
   The expected answers are the resolver's for the member asked, refused where something it needs cannot be indexed.
   */
  lemma ExpectedIs(p: Position, isOriginal: Option<bool>, batch: seq<Row>, prefix: nat, i: nat)
    requires Declarative(p) && i < |batch|
    ensures var q, row := Asked(p, isOriginal != Some(false)), batch[i];
            Expected(p, isOriginal, batch, prefix)[i]
            == if NeedsUnindexable(q, row.ex, row.e) then None else OwnAnswers(q, batch, prefix)[i]
  {
    ExampleIsAskedAlone(p, isOriginal, batch[i].ex, batch[i].e, prefix);
  }

  lemma OwnAnswerIs(q: Position, batch: seq<Row>, prefix: nat, i: nat)
    requires PairFree(q) && i < |batch|
    ensures OwnAnswers(q, batch, prefix)[i] == None <==> Refuses(q, batch[i].ex, batch[i].e, prefix)
  {
    RefusesIs(q, batch[i].ex, batch[i].e, prefix);
  }

  /** What the two paths' answers say about the two members. */
  lemma AnswersCompared(p: Position, isOriginal: Option<bool>, batch: seq<Row>, prefix: nat, q: Position, r: Position,
                        own: seq<Option<seq<int>>>, expected: seq<Option<seq<int>>>)
    requires Declarative(p) && q == Asked(p, isOriginal != Some(false)) && PairFree(q) && PairFree(r)
    requires own == OwnAnswers(r, batch, prefix) && expected == Expected(p, isOriginal, batch, prefix)
    ensures (exists i :: 0 <= i < |own| && own[i] == None) <==> SomeRefused(r, batch, prefix)
    ensures (exists i :: 0 <= i < |expected| && expected[i] == None)
       <==> SomeRefused(q, batch, prefix) || SomeUnindexable(q, batch)
    ensures (forall i :: 0 <= i < |own| ==> own[i].Some? && expected[i] == own[i])
       <==> !SomeRefused(r, batch, prefix) && !SomeUnindexable(q, batch) && SameAnswers(q, r, batch, prefix)
  {
    forall i | 0 <= i < |batch|
      ensures own[i] == None <==> Refuses(r, batch[i].ex, batch[i].e, prefix)
      ensures expected[i] == None
         <==> Refuses(q, batch[i].ex, batch[i].e, prefix) || NeedsUnindexable(q, batch[i].ex, batch[i].e)
      ensures own[i].Some? && expected[i] == own[i]
         <==> !Refuses(r, batch[i].ex, batch[i].e, prefix) && !NeedsUnindexable(q, batch[i].ex, batch[i].e)
              && Alone(q, batch[i].ex, batch[i].e, prefix) == Alone(r, batch[i].ex, batch[i].e, prefix)
    {
      RowCompared(p, isOriginal, batch, prefix, q, r, i);
    }
  }

  lemma RowCompared(p: Position, isOriginal: Option<bool>, batch: seq<Row>, prefix: nat, q: Position, r: Position,
                    i: nat)
    requires Declarative(p) && q == Asked(p, isOriginal != Some(false)) && PairFree(q) && PairFree(r) && i < |batch|
    ensures var own, expected := OwnAnswers(r, batch, prefix)[i], Expected(p, isOriginal, batch, prefix)[i];
            && (own == None <==> Refuses(r, batch[i].ex, batch[i].e, prefix))
            && (expected == None
                <==> Refuses(q, batch[i].ex, batch[i].e, prefix) || NeedsUnindexable(q, batch[i].ex, batch[i].e))
            && (own.Some? && expected == own
                <==> !Refuses(r, batch[i].ex, batch[i].e, prefix) && !NeedsUnindexable(q, batch[i].ex, batch[i].e)
                     && Alone(q, batch[i].ex, batch[i].e, prefix) == Alone(r, batch[i].ex, batch[i].e, prefix))
  {
    ExpectedIs(p, isOriginal, batch, prefix, i);
    OwnAnswerIs(q, batch, prefix, i);
    OwnAnswerIs(r, batch, prefix, i);
    if OwnAnswers(q, batch, prefix)[i] == OwnAnswers(r, batch, prefix)[i] {
      ShiftBack(Alone(q, batch[i].ex, batch[i].e, prefix), Alone(r, batch[i].ex, batch[i].e, prefix), batch[i].left);
    }
  }

  /**
   When the batch gives each example what it gives by itself: both paths raise, or neither does, in no example the
   member asked needs a variable that cannot be indexed, and it and the settled one answer alike.
   */
  lemma PathsAgreeIff(p: Position, isOriginal: Option<bool>, batch: seq<Row>, prefix: nat)
    requires Declarative(p)
    ensures var q, r := Asked(p, isOriginal != Some(false)), Settled(p, isOriginal != Some(false));
            PathsAgree(p, isOriginal, batch, prefix)
            <==> if SomeRefused(r, batch, prefix) then SomeRefused(q, batch, prefix) || SomeUnindexable(q, batch)
                 else !SomeUnindexable(q, batch) && SameAnswers(q, r, batch, prefix)
  {
    var original := isOriginal != Some(false);
    var q, r := Asked(p, original), Settled(p, original);
    var own, expected := OwnAnswers(r, batch, prefix), Expected(p, isOriginal, batch, prefix);
    AskedHasNoPairs(p, original);
    SettledHasNoPairs(p, original);
    BatchIsSettledAlone(p, isOriginal, batch, prefix);
    AnswersCompared(p, isOriginal, batch, prefix, q, r, own, expected);
    SameOutcome(own, expected);
  }

  /**
   For original inputs, and for positions with no pair nested under a counterfactual member: the batch gives each
   example what it gives by itself, unless a variable is needed that cannot be indexed; and then only if some example
   is refused anyway.
   */
  lemma BatchRefinesExamples(p: Position, isOriginal: Option<bool>, batch: seq<Row>, prefix: nat)
    requires Declarative(p) && (isOriginal != Some(false) || NoNestedPair(p))
    ensures var r := Settled(p, isOriginal != Some(false));
            PathsAgree(p, isOriginal, batch, prefix) <==> SomeRefused(r, batch, prefix) || !SomeUnindexable(r, batch)
  {
    AskedIsSettled(p, isOriginal != Some(false));
    PathsAgreeIff(p, isOriginal, batch, prefix);
  }

  // ---------------------------------------------------------------- where nested pairs part

  const FIRST_TOKEN: Position := FromSpec(Index(Some(0), None, None), "")
  const LAST_TOKEN: Position := FromSpec(Index(Some(-1), None, None), "")
  const TWO_TOKENS: Encoding := Encoding([true, true], [(0, 1), (1, 2)], 0, None, "t")

  /**
   A pair under a counterfactual member, on a prompt of two tokens. Asked for counterfactual inputs, the per-example
   path forgets the flag on the way down and answers with the inner pair's original member, the first token; the
   batch-first path keeps it and answers with the inner pair's counterfactual member, the last token.
   */
  lemma NestedPairsPart(ex: Example)
    ensures var p, row := Paired(FIRST_TOKEN, Paired(FIRST_TOKEN, LAST_TOKEN)), Row(ex, TWO_TOKENS, 0, 0);
            && IndexOne(p, Some(false), ex, TWO_TOKENS, 0) == Some([0])
            && ResolveBatch(p, Some(false), [row], 0) == Rows([[1]])
            && !PathsAgree(p, Some(false), [row], 0)
  {
    var p, row := Paired(FIRST_TOKEN, Paired(FIRST_TOKEN, LAST_TOKEN)), Row(ex, TWO_TOKENS, 0, 0);
    assert IndexOne(p, Some(false), ex, TWO_TOKENS, 0) == IndexOne(p.counterfactual, None, ex, TWO_TOKENS, 0)
        == IndexOne(FIRST_TOKEN, None, ex, TWO_TOKENS, 0) == Some([0]);
    BatchIsSettledAlone(p, Some(false), [row], 0);
    assert Settled(p, false) == Settled(p.counterfactual, false) == LAST_TOKEN;
    LastOfTwo(ex);
    assert OwnAnswers(LAST_TOKEN, [row], 0) == [Some([1])];
    assert Expected(p, Some(false), [row], 0) == [Some([0])] by {
      ShiftByNothing(Some([0]));
    }
    OneRow([1]);
    OneRow([0]);
  }

  lemma OneRow(indices: seq<int>)
    ensures AllRows([Some(indices)]) == Rows([indices])
  {
    assert AllRows([Some(indices)]).rows == [indices];
  }

  lemma LastOfTwo(ex: Example)
    ensures ShiftOption(Alone(LAST_TOKEN, ex, TWO_TOKENS, 0), 0) == Some([1])
  {
    PaddedCarries(TWO_TOKENS, 0, 0);
    ShiftByNothing(Some([1]));
  }
}
