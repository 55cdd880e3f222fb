/**
 Fixed-sequence preparation: a prompt and an output frozen into exact token IDs, offsets and one record for each
 target, and the three ways later stages address the activation that predicts a target.
 */
module Sequences {
  import opened Decimals
  import opened OutputOffsets
  import opened Wrappers

  /** What a tokenizer answers: IDs and one character range each for a text, and the text of IDs. */
  datatype Encoded = Encoded(ids: seq<int>, offsets: seq<(int, int)>)

  datatype Tokenizer = Tokenizer(encode: string -> Encoded, decode: seq<int> -> string, vocabulary: nat,
                                 eos: Option<int>)

  datatype Completion = Text(text: string) | Recorded(ids: seq<int>)

  datatype Target = Target(ordinal: nat, role: string, tokenId: int, tokenPosition: int, predictionPosition: int,
                           isEos: bool)

  datatype Prepared = Prepared(text: string, ids: seq<int>, offsets: seq<(int, int)>, promptLength: nat,
                               outputLength: nat, targets: seq<Target>)

  datatype Refusal = UnknownPrefixCondition | NeedsRecordedIds | EmptyPrompt | MergesAcrossBoundary | NotVocabularyIds
                   | RevisesPrompt | NoOutput | BadRoles | BadEosIds | TokensAfterEos

  const PREFIX_CONDITIONS: seq<string> := ["correct", "baseline_generated"]

  /** Every tokenizer returns one offset for each ID. */
  ghost predicate Aligned(t: Tokenizer) {
    forall text {:trigger t.encode(text)} :: |t.encode(text).ids| == |t.encode(text).offsets|
  }

  predicate InVocabulary(t: Tokenizer, ids: seq<int>) {
    forall i :: 0 <= i < |ids| ==> 0 <= ids[i] < t.vocabulary
  }

  // ---------------------------------------------------------------- the output's IDs, text and offsets

  /** The text decoded after each recorded token, prompt included. */
  function Decodings(t: Tokenizer, promptIds: seq<int>, outputIds: seq<int>): seq<string> {
    seq(|outputIds|, i requires 0 <= i < |outputIds| => t.decode(promptIds + outputIds[..i + 1]))
  }

  function AsOffsets(spans: seq<Extent>, shift: nat): seq<(int, int)> {
    seq(|spans|, i requires 0 <= i < |spans| => (shift + spans[i].start, shift + spans[i].end))
  }

  /** The frozen text, IDs and offsets of a prompt and its output. */
  datatype Frozen = Frozen(text: string, ids: seq<int>, offsets: seq<(int, int)>, promptLength: nat)

  /** A text output is tokenized in context and must keep the prompt's tokens. */
  function FreezeText(t: Tokenizer, prompt: string, completion: string): Result<Frozen, Refusal> {
    var promptIds, whole := t.encode(prompt).ids, t.encode(prompt + completion);
    if promptIds == [] then Err(EmptyPrompt)
    else if !(promptIds <= whole.ids) then Err(MergesAcrossBoundary)
    else Ok(Frozen(prompt + completion, whole.ids, whole.offsets, |promptIds|))
  }

  /** A recorded output keeps its IDs; its characters come from decoding it token by token. */
  function FreezeRecorded(t: Tokenizer, prompt: string, ids: seq<int>): Result<Frozen, Refusal> {
    var p := t.encode(prompt);
    if p.ids == [] then Err(EmptyPrompt)
    else if !InVocabulary(t, ids) then Err(NotVocabularyIds)
    else
      var decodings := Decodings(t, p.ids, ids);
      var g := Suffixes(t.decode(p.ids), decodings, |ids|);
      if g == None then Err(RevisesPrompt)
      else
        SuffixesLength(t.decode(p.ids), decodings, |ids|);
        var spans := SpansAfter(g.value, |ids|);
        Ok(Frozen(prompt + Before(g.value, |ids|), p.ids + ids, p.offsets + AsOffsets(spans, |prompt|), |p.ids|))
  }

  function Freeze(t: Tokenizer, prompt: string, completion: Completion): Result<Frozen, Refusal> {
    match completion
    case Text(c) => FreezeText(t, prompt, c)
    case Recorded(ids) => FreezeRecorded(t, prompt, ids)
  }

  lemma {:induction false} SuffixesLength(prompt: string, decoded: seq<string>, n: nat)
    requires n <= |decoded|
    ensures Suffixes(prompt, decoded, n).Some? ==> |Suffixes(prompt, decoded, n).value| == n
  {
    if n > 0 {
      SuffixesLength(prompt, decoded, n - 1);
    }
  }

  method FreezeOutput(t: Tokenizer, prompt: string, completion: Completion) returns (r: Result<Frozen, Refusal>)
    ensures r == Freeze(t, prompt, completion)
  {
    var p := t.encode(prompt);
    if p.ids == [] {
      return Err(EmptyPrompt);
    }
    match completion
    case Text(c) =>
      var whole := t.encode(prompt + c);
      if !(p.ids <= whole.ids) {
        return Err(MergesAcrossBoundary);
      }
      r := Ok(Frozen(prompt + c, whole.ids, whole.offsets, |p.ids|));
    case Recorded(ids) =>
      if !InVocabulary(t, ids) {
        return Err(NotVocabularyIds);
      }
      var decodings := Decodings(t, p.ids, ids);
      SuffixesLength(t.decode(p.ids), decodings, |ids|);
      var tracked := TrackOffsets(t.decode(p.ids), decodings);
      if tracked == None {
        return Err(RevisesPrompt);
      }
      r := Ok(Frozen(prompt + tracked.value.0, p.ids + ids, p.offsets + AsOffsets(tracked.value.1, |prompt|), |p.ids|));
  }

  // ---------------------------------------------------------------- targets

  predicate RolesFit(roles: map<int, string>, n: nat) {
    forall i :: i in roles ==> 0 <= i < n && roles[i] != ""
  }

  function EosIds(t: Tokenizer, eosTokenIds: Option<seq<int>>): seq<int> {
    match eosTokenIds
    case Some(ids) => ids
    case None => if t.eos.Some? then [t.eos.value] else []
  }

  predicate NothingAfterEos(output: seq<int>, eos: seq<int>) {
    forall i :: 0 <= i < |output| - 1 ==> output[i] !in eos
  }

  /** "output_<i>", the name a target has unless it is given a role. */
  function TargetName(i: nat): string {
    "output_" + Decimal(i)
  }

  /** The record of target i: it sits after the prompt and is predicted from the position before it. */
  function TargetAt(frozen: Frozen, roles: map<int, string>, eos: seq<int>, i: nat): Target
    requires frozen.promptLength + i < |frozen.ids|
  {
    var token := frozen.ids[frozen.promptLength + i];
    Target(i, if i in roles then roles[i] else TargetName(i), token,
           frozen.promptLength + i, frozen.promptLength + i - 1, token in eos)
  }

  /** The first check that refuses, in the order they are made. */
  function FirstRefusal(t: Tokenizer, prompt: string, completion: Completion, prefixCondition: string,
                        roles: map<int, string>, eosTokenIds: Option<seq<int>>): Option<Refusal> {
    var frozen := Freeze(t, prompt, completion);
    if prefixCondition !in PREFIX_CONDITIONS then Some(UnknownPrefixCondition)
    else if prefixCondition == "baseline_generated" && completion.Text? then Some(NeedsRecordedIds)
    else if frozen.Err? then Some(frozen.error)
    else if frozen.value.promptLength >= |frozen.value.ids| then Some(NoOutput)
    else
      var output := frozen.value.ids[frozen.value.promptLength..];
      if !RolesFit(roles, |output|) then Some(BadRoles)
      else if !InVocabulary(t, EosIds(t, eosTokenIds)) then Some(BadEosIds)
      else if !NothingAfterEos(output, EosIds(t, eosTokenIds)) then Some(TokensAfterEos)
      else None
  }

  /** What a prepared row promises its readers. */
  ghost predicate WellPrepared(row: Prepared, frozen: Frozen, roles: map<int, string>, eos: seq<int>) {
    && row.text == frozen.text && row.ids == frozen.ids && row.offsets == frozen.offsets
    && 0 < row.promptLength == frozen.promptLength < |row.ids|
    && row.outputLength == |row.targets| == |row.ids| - row.promptLength
    && forall i {:trigger row.targets[i]} :: 0 <= i < |row.targets| ==>
      row.targets[i] == TargetAt(frozen, roles, eos, i)
  }

  method BuildTargets(f: Frozen, roles: map<int, string>, eos: seq<int>, n: nat) returns (targets: seq<Target>)
    requires f.promptLength + n == |f.ids|
    ensures |targets| == n
    ensures forall i {:trigger targets[i]} :: 0 <= i < n ==> targets[i] == TargetAt(f, roles, eos, i)
  {
    targets := [];
    for i := 0 to n
      invariant |targets| == i
      invariant forall k {:trigger targets[k]} :: 0 <= k < i ==> targets[k] == TargetAt(f, roles, eos, k)
    {
      targets := targets + [TargetAt(f, roles, eos, i)];
    }
  }

  method PrepareSequence(t: Tokenizer, prompt: string, completion: Completion, prefixCondition: string,
                         roles: map<int, string>, eosTokenIds: Option<seq<int>>) returns (r: Result<Prepared, Refusal>)
    ensures var refusal := FirstRefusal(t, prompt, completion, prefixCondition, roles, eosTokenIds);
            if refusal.Some? then r == Err(refusal.value)
            else r.Ok? && WellPrepared(r.value, Freeze(t, prompt, completion).value, roles, EosIds(t, eosTokenIds))
  {
    if prefixCondition !in PREFIX_CONDITIONS {
      return Err(UnknownPrefixCondition);
    }
    if prefixCondition == "baseline_generated" && completion.Text? {
      return Err(NeedsRecordedIds);
    }
    var frozen := FreezeOutput(t, prompt, completion);
    if frozen.Err? {
      return Err(frozen.error);
    }
    var f := frozen.value;
    if f.promptLength >= |f.ids| {
      return Err(NoOutput);
    }
    var output, eos := f.ids[f.promptLength..], EosIds(t, eosTokenIds);
    if !RolesFit(roles, |output|) {
      return Err(BadRoles);
    }
    if !InVocabulary(t, eos) {
      return Err(BadEosIds);
    }
    if !NothingAfterEos(output, eos) {
      return Err(TokensAfterEos);
    }
    var targets := BuildTargets(f, roles, eos, |output|);
    r := Ok(Prepared(f.text, f.ids, f.offsets, f.promptLength, |output|, targets));
  }

  // ---------------------------------------------------------------- what is accepted

  /** A token that ends a rollout: one of the IDs given, or else the tokenizer's own. */
  predicate Ends(t: Tokenizer, eosTokenIds: Option<seq<int>>, token: int) {
    if eosTokenIds.Some? then token in eosTokenIds.value else t.eos == Some(token)
  }

  /** Roles name targets that exist, every token that ends is an ID of the vocabulary, and only the last one ends. */
  ghost predicate OutputFits(t: Tokenizer, roles: map<int, string>, eosTokenIds: Option<seq<int>>, output: seq<int>) {
    && output != []
    && (forall i {:trigger roles[i]} :: i in roles ==> 0 <= i < |output| && |roles[i]| > 0)
    && (forall e {:trigger Ends(t, eosTokenIds, e)} :: Ends(t, eosTokenIds, e) ==> 0 <= e < t.vocabulary)
    && !EndsEarly(t, eosTokenIds, output)
  }

  /** Some token ends the rollout and another follows it. */
  predicate EndsEarly(t: Tokenizer, eosTokenIds: Option<seq<int>>, output: seq<int>) {
    exists i, j {:trigger output[i], output[j]} :: 0 <= i < j < |output| && Ends(t, eosTokenIds, output[i])
  }

  lemma EosIdsEnd(t: Tokenizer, eosTokenIds: Option<seq<int>>, token: int)
    ensures token in EosIds(t, eosTokenIds) <==> Ends(t, eosTokenIds, token)
  {
  }

  lemma EosIdsFit(t: Tokenizer, eosTokenIds: Option<seq<int>>)
    ensures InVocabulary(t, EosIds(t, eosTokenIds)) <==>
              forall e {:trigger Ends(t, eosTokenIds, e)} :: Ends(t, eosTokenIds, e) ==> 0 <= e < t.vocabulary
  {
    var eos := EosIds(t, eosTokenIds);
    forall e ensures e in eos <==> Ends(t, eosTokenIds, e) {
      EosIdsEnd(t, eosTokenIds, e);
    }
    if !InVocabulary(t, eos) {
      var i :| 0 <= i < |eos| && !(0 <= eos[i] < t.vocabulary);
      assert Ends(t, eosTokenIds, eos[i]);
    }
  }

  lemma NothingAfterIs(t: Tokenizer, eosTokenIds: Option<seq<int>>, output: seq<int>)
    ensures NothingAfterEos(output, EosIds(t, eosTokenIds)) <==> !EndsEarly(t, eosTokenIds, output)
  {
    forall i | 0 <= i < |output| ensures output[i] in EosIds(t, eosTokenIds) <==> Ends(t, eosTokenIds, output[i]) {
      EosIdsEnd(t, eosTokenIds, output[i]);
    }
    if !NothingAfterEos(output, EosIds(t, eosTokenIds)) {
      var i :| 0 <= i < |output| - 1 && output[i] in EosIds(t, eosTokenIds);
      var next := output[i + 1];
    }
    if EndsEarly(t, eosTokenIds, output) {
      var i, j :| 0 <= i < j < |output| && Ends(t, eosTokenIds, output[i]);
      assert i < |output| - 1 && output[i] in EosIds(t, eosTokenIds);
    }
  }

  /** What was frozen is accepted exactly when its output fits. */
  lemma AcceptedOnceFrozen(t: Tokenizer, prompt: string, completion: Completion, prefixCondition: string,
                           roles: map<int, string>, eosTokenIds: Option<seq<int>>, f: Frozen)
    requires prefixCondition == "correct" || (prefixCondition == "baseline_generated" && completion.Recorded?)
    requires Freeze(t, prompt, completion) == Ok(f) && f.promptLength <= |f.ids|
    ensures FirstRefusal(t, prompt, completion, prefixCondition, roles, eosTokenIds) == None
       <==> OutputFits(t, roles, eosTokenIds, f.ids[f.promptLength..])
  {
    var output := f.ids[f.promptLength..];
    assert PREFIX_CONDITIONS[0] == "correct" && PREFIX_CONDITIONS[1] == "baseline_generated";
    EosIdsFit(t, eosTokenIds);
    NothingAfterIs(t, eosTokenIds, output);
  }

  /** Tokens that do not touch what the prompt decodes to. */
  predicate KeepsPrompt(t: Tokenizer, prompt: string, tokens: seq<int>) {
    t.decode(t.encode(prompt).ids) <= t.decode(t.encode(prompt).ids + tokens)
  }

  lemma {:induction false} SuffixesWhen(prompt: string, decoded: seq<string>, n: nat)
    requires n <= |decoded|
    ensures Suffixes(prompt, decoded, n).Some? <==>
              forall i {:trigger decoded[i]} :: 0 <= i < n ==> prompt <= decoded[i]
  {
    if n > 0 {
      SuffixesWhen(prompt, decoded, n - 1);
    }
  }

  /** A recorded rollout freezes exactly when its IDs are the vocabulary's and no token of it touches the prompt. */
  lemma RolloutFreezes(t: Tokenizer, prompt: string, ids: seq<int>)
    ensures Freeze(t, prompt, Recorded(ids)).Ok? <==>
              && t.encode(prompt).ids != []
              && (forall i {:trigger ids[i]} :: 0 <= i < |ids| ==> 0 <= ids[i] < t.vocabulary)
              && (forall n {:trigger ids[..n]} :: 1 <= n <= |ids| ==> KeepsPrompt(t, prompt, ids[..n]))
    ensures Freeze(t, prompt, Recorded(ids)).Ok? ==>
              var f := Freeze(t, prompt, Recorded(ids)).value;
              f.promptLength == |t.encode(prompt).ids| <= |f.ids| && f.ids[f.promptLength..] == ids
  {
    var p := t.encode(prompt);
    var decodings := Decodings(t, p.ids, ids);
    SuffixesWhen(t.decode(p.ids), decodings, |ids|);
    SuffixesLength(t.decode(p.ids), decodings, |ids|);
    forall i | 0 <= i < |ids| ensures t.decode(p.ids) <= decodings[i] <==> KeepsPrompt(t, prompt, ids[..i + 1]) {
    }
    forall n | 1 <= n <= |ids| ensures KeepsPrompt(t, prompt, ids[..n]) <==> t.decode(p.ids) <= decodings[n - 1] {
    }
    AppendSlices(p.ids, ids);
  }

  /** The recorded rollouts that preparation accepts. */
  lemma AcceptedRollout(t: Tokenizer, prompt: string, ids: seq<int>, prefixCondition: string,
                        roles: map<int, string>, eosTokenIds: Option<seq<int>>)
    ensures FirstRefusal(t, prompt, Recorded(ids), prefixCondition, roles, eosTokenIds) == None <==>
              && (prefixCondition == "correct" || prefixCondition == "baseline_generated")
              && t.encode(prompt).ids != []
              && (forall i {:trigger ids[i]} :: 0 <= i < |ids| ==> 0 <= ids[i] < t.vocabulary)
              && (forall n {:trigger ids[..n]} :: 1 <= n <= |ids| ==> KeepsPrompt(t, prompt, ids[..n]))
              && OutputFits(t, roles, eosTokenIds, ids)
  {
    RolloutFreezes(t, prompt, ids);
    assert PREFIX_CONDITIONS == ["correct", "baseline_generated"];
    if (prefixCondition == "correct" || prefixCondition == "baseline_generated")
      && Freeze(t, prompt, Recorded(ids)).Ok?
    {
      var f := Freeze(t, prompt, Recorded(ids)).value;
      AcceptedOnceFrozen(t, prompt, Recorded(ids), prefixCondition, roles, eosTokenIds, f);
    }
  }

  /** The text outputs that preparation accepts: tokenized behind the prompt, they keep its tokens. */
  lemma AcceptedText(t: Tokenizer, prompt: string, text: string, prefixCondition: string, roles: map<int, string>,
                     eosTokenIds: Option<seq<int>>)
    ensures var start, whole := t.encode(prompt).ids, t.encode(prompt + text).ids;
            FirstRefusal(t, prompt, Text(text), prefixCondition, roles, eosTokenIds) == None <==>
              && prefixCondition == "correct" && start != [] && start <= whole
              && OutputFits(t, roles, eosTokenIds, whole[|start|..])
  {
    assert PREFIX_CONDITIONS == ["correct", "baseline_generated"];
    if prefixCondition == "correct" && Freeze(t, prompt, Text(text)).Ok? {
      var f := Freeze(t, prompt, Text(text)).value;
      AcceptedOnceFrozen(t, prompt, Text(text), prefixCondition, roles, eosTokenIds, f);
    }
  }

  /**
   An output that passes every other check is refused for EOS exactly when a token ends it and another follows; the
   other checks are those it passes when no token is said to end it.
   */
  lemma RefusedForEos(t: Tokenizer, prompt: string, completion: Completion, prefixCondition: string,
                      roles: map<int, string>, eosTokenIds: Option<seq<int>>)
    ensures FirstRefusal(t, prompt, completion, prefixCondition, roles, eosTokenIds) == Some(TokensAfterEos) <==>
              && FirstRefusal(t, prompt, completion, prefixCondition, roles, Some([])) == None
              && (forall e {:trigger Ends(t, eosTokenIds, e)} :: Ends(t, eosTokenIds, e) ==> 0 <= e < t.vocabulary)
              && var f := Freeze(t, prompt, completion).value;
                 EndsEarly(t, eosTokenIds, f.ids[f.promptLength..])
  {
    EosIdsFit(t, eosTokenIds);
    if Freeze(t, prompt, completion).Ok? {
      var f := Freeze(t, prompt, completion).value;
      if f.promptLength < |f.ids| {
        NothingAfterIs(t, eosTokenIds, f.ids[f.promptLength..]);
      }
    }
  }

  /** An accepted rollout that nothing ends yet may be given its EOS token, if the decoder keeps the prompt. */
  lemma EosMayFollow(t: Tokenizer, prompt: string, ids: seq<int>, e: int, prefixCondition: string,
                     roles: map<int, string>, eosTokenIds: Option<seq<int>>)
    requires FirstRefusal(t, prompt, Recorded(ids), prefixCondition, roles, eosTokenIds) == None
    requires Ends(t, eosTokenIds, e) && (forall i {:trigger ids[i]} :: 0 <= i < |ids| ==> !Ends(t, eosTokenIds, ids[i]))
    ensures FirstRefusal(t, prompt, Recorded(ids + [e]), prefixCondition, roles, eosTokenIds) == None
       <==> KeepsPrompt(t, prompt, ids + [e])
  {
    AcceptedRollout(t, prompt, ids, prefixCondition, roles, eosTokenIds);
    AcceptedRollout(t, prompt, ids + [e], prefixCondition, roles, eosTokenIds);
    PrefixesKeep(t, prompt, ids, ids + [e], e);
    StillFits(t, roles, eosTokenIds, ids, ids + [e], e);
  }

  lemma PrefixesKeep(t: Tokenizer, prompt: string, ids: seq<int>, longer: seq<int>, e: int)
    requires longer == ids + [e]
    ensures (forall n {:trigger longer[..n]} :: 1 <= n <= |longer| ==> KeepsPrompt(t, prompt, longer[..n])) <==>
              && (forall n {:trigger ids[..n]} :: 1 <= n <= |ids| ==> KeepsPrompt(t, prompt, ids[..n]))
              && KeepsPrompt(t, prompt, longer)
  {
    assert longer[..|longer|] == longer;
    forall n | 1 <= n <= |ids| ensures longer[..n] == ids[..n] {
    }
    if forall n {:trigger longer[..n]} :: 1 <= n <= |longer| ==> KeepsPrompt(t, prompt, longer[..n]) {
      forall n | 1 <= n <= |ids| ensures KeepsPrompt(t, prompt, ids[..n]) {
        assert longer[..n] == ids[..n];
      }
    }
  }

  lemma StillFits(t: Tokenizer, roles: map<int, string>, eosTokenIds: Option<seq<int>>, ids: seq<int>,
                  longer: seq<int>, e: int)
    requires longer == ids + [e] && OutputFits(t, roles, eosTokenIds, ids) && Ends(t, eosTokenIds, e)
    requires forall i {:trigger ids[i]} :: 0 <= i < |ids| ==> 0 <= ids[i] < t.vocabulary
    requires forall i {:trigger ids[i]} :: 0 <= i < |ids| ==> !Ends(t, eosTokenIds, ids[i])
    ensures OutputFits(t, roles, eosTokenIds, longer)
    ensures forall i {:trigger longer[i]} :: 0 <= i < |longer| ==> 0 <= longer[i] < t.vocabulary
  {
  }

  /** Then exactly the last target is marked as EOS. */
  lemma LastIsEos(t: Tokenizer, prompt: string, ids: seq<int>, e: int, roles: map<int, string>,
                  eosTokenIds: Option<seq<int>>, row: Prepared, i: nat)
    requires Freeze(t, prompt, Recorded(ids + [e])).Ok?
    requires WellPrepared(row, Freeze(t, prompt, Recorded(ids + [e])).value, roles, EosIds(t, eosTokenIds))
    requires Ends(t, eosTokenIds, e) && (forall k {:trigger ids[k]} :: 0 <= k < |ids| ==> !Ends(t, eosTokenIds, ids[k]))
    ensures row.outputLength == |ids| + 1
    ensures i <= |ids| ==> (row.targets[i].isEos <==> i == |ids|)
  {
    RolloutFreezes(t, prompt, ids + [e]);
    var f := Freeze(t, prompt, Recorded(ids + [e])).value;
    if i <= |ids| {
      TargetMeans(t, row, f, roles, eosTokenIds, i);
      assert f.ids[f.promptLength..][i] == (ids + [e])[i];
    }
  }

  /**
   What a target's record says: its token and place, the place before it, its role, and whether it ends the output.
   */
  lemma TargetMeans(t: Tokenizer, row: Prepared, frozen: Frozen, roles: map<int, string>, eosTokenIds: Option<seq<int>>,
                    i: nat)
    requires WellPrepared(row, frozen, roles, EosIds(t, eosTokenIds)) && i < row.outputLength
    ensures var target := row.targets[i];
            && target.ordinal == i && target.tokenPosition == row.promptLength + i
            && target.predictionPosition + 1 == target.tokenPosition
            && target.tokenId == row.ids[row.promptLength + i] && target.isEos == Ends(t, eosTokenIds, target.tokenId)
            && target.role == (if i in roles then roles[i] else "output_" + Decimal(i))
  {
    assert row.targets[i] == TargetAt(frozen, roles, EosIds(t, eosTokenIds), i);
    EosIdsEnd(t, eosTokenIds, row.targets[i].tokenId);
  }

  // ---------------------------------------------------------------- what freezing guarantees

  /**
   What freezing guarantees: the prompt's own tokens lead, there is an offset for every token, and a recorded output
   is kept ID for ID.
   */
  lemma FrozenKeepsIds(t: Tokenizer, prompt: string, completion: Completion)
    requires Aligned(t) && Freeze(t, prompt, completion).Ok?
    ensures var f := Freeze(t, prompt, completion).value;
            && |f.ids| == |f.offsets| && t.encode(prompt).ids <= f.ids && f.promptLength == |t.encode(prompt).ids|
            && (completion.Recorded? ==> f.ids[f.promptLength..] == completion.ids
                                         && prompt <= f.text && t.encode(prompt).offsets <= f.offsets)
            && (completion.Text? ==> f.text == prompt + completion.text
                                     && Encoded(f.ids, f.offsets) == t.encode(prompt + completion.text))
  {
    var p := t.encode(prompt);
    assert |t.encode(prompt).ids| == |t.encode(prompt).offsets|;
    match completion
    case Text(c) =>
      assert |t.encode(prompt + c).ids| == |t.encode(prompt + c).offsets|;
    case Recorded(ids) =>
      AppendSlices(p.ids, ids);
      SuffixesLength(t.decode(p.ids), Decodings(t, p.ids, ids), |ids|);
  }

  /** The texts a recorded output decodes to, token after token, behind the decoded prompt. */
  function RecordedTexts(t: Tokenizer, prompt: string, ids: seq<int>): seq<string>
    requires FreezeRecorded(t, prompt, ids).Ok?
  {
    Suffixes(t.decode(t.encode(prompt).ids), Decodings(t, t.encode(prompt).ids, ids), |ids|).value
  }

  /** What a recorded output's tokens have decoded to behind the prompt, one after the other. */
  lemma RecordedTextIs(t: Tokenizer, prompt: string, ids: seq<int>, n: nat)
    requires FreezeRecorded(t, prompt, ids).Ok? && n < |ids|
    ensures var p := t.encode(prompt).ids;
            && |RecordedTexts(t, prompt, ids)| == |ids|
            && t.decode(p + ids[..n + 1]) == t.decode(p) + RecordedTexts(t, prompt, ids)[n]
  {
    var p := t.encode(prompt).ids;
    var decodings := Decodings(t, p, ids);
    SuffixIs(t.decode(p), decodings, |ids|, n);
  }

  lemma {:induction false} SuffixIs(prompt: string, decoded: seq<string>, n: nat, i: nat)
    requires i < n <= |decoded| && Suffixes(prompt, decoded, n).Some?
    ensures |Suffixes(prompt, decoded, n).value| == n && decoded[i] == prompt + Suffixes(prompt, decoded, n).value[i]
  {
    SuffixesLength(prompt, decoded, n);
    SuffixesLength(prompt, decoded, n - 1);
    if i < n - 1 {
      SuffixIs(prompt, decoded, n - 1, i);
    }
  }

  /**
   An offset behind the prompt: inside the text, it is token i's span among the decoded texts (SpansMean) moved behind
   the prompt, and it slices the text to what that span slices the last decoded text to.
   */
  ghost predicate OffsetMeans(offset: (int, int), text: string, prompt: string, g: seq<string>, i: nat) {
    && i < |g| && text == prompt + g[|g| - 1] && |prompt| <= offset.0 <= offset.1 <= |text|
    && Meant(g, i, |g|, Extent(offset.0 - |prompt|, offset.1 - |prompt|))
    && text[offset.0..offset.1] == g[|g| - 1][offset.0 - |prompt|..offset.1 - |prompt|]
  }

  lemma MovedBehind(g: seq<string>, i: nat, prompt: string, last: string, span: Extent, offset: (int, int))
    requires i < |g| && last == g[|g| - 1] && Meant(g, i, |g|, span) && span.start <= span.end <= |last|
    requires offset == (|prompt| + span.start, |prompt| + span.end)
    ensures OffsetMeans(offset, prompt + last, prompt, g, i)
  {
    assert Extent(offset.0 - |prompt|, offset.1 - |prompt|) == span;
    SliceBehindPrompt(prompt, last, span.start, span.end, offset.0, offset.1);
  }

  /** What a recorded output's offsets mean. */
  lemma RecordedOffsetsMean(t: Tokenizer, prompt: string, ids: seq<int>, i: nat)
    requires Aligned(t) && Freeze(t, prompt, Recorded(ids)).Ok? && i < |ids|
    ensures var f, g := Freeze(t, prompt, Recorded(ids)).value, RecordedTexts(t, prompt, ids);
            && |g| == |ids| && f.promptLength + i < |f.offsets|
            && OffsetMeans(f.offsets[f.promptLength + i], f.text, prompt, g, i)
  {
    var g := RecordedTexts(t, prompt, ids);
    var span := RecordedOffset(t, prompt, ids, g, i);
    SpanMeansInside(g, |g|, i, span);
    MovedBehind(g, i, prompt, g[|g| - 1], span, (|prompt| + span.start, |prompt| + span.end));
  }

  /** The i-th offset behind the prompt's is the i-th span, moved behind the prompt's text. */
  lemma RecordedOffset(t: Tokenizer, prompt: string, ids: seq<int>, g: seq<string>, i: nat) returns (span: Extent)
    requires Aligned(t) && Freeze(t, prompt, Recorded(ids)).Ok? && i < |ids| && g == RecordedTexts(t, prompt, ids)
    ensures |g| == |ids| == |SpansAfter(g, |g|)| && span == SpansAfter(g, |g|)[i]
    ensures var f := Freeze(t, prompt, Recorded(ids)).value;
            && f.text == prompt + g[|g| - 1] && f.promptLength + i < |f.offsets|
            && f.offsets[f.promptLength + i] == (|prompt| + span.start, |prompt| + span.end)
  {
    var p := t.encode(prompt);
    FrozenFromTexts(t, prompt, ids, g);
    var behind := AsOffsets(SpansAfter(g, |g|), |prompt|);
    NthBehind(p.offsets, behind, i);
    span := SpansAfter(g, |g|)[i];
  }

  lemma FrozenFromTexts(t: Tokenizer, prompt: string, ids: seq<int>, g: seq<string>)
    requires Aligned(t) && Freeze(t, prompt, Recorded(ids)).Ok? && g == RecordedTexts(t, prompt, ids)
    ensures |g| == |ids|
    ensures var f, p := Freeze(t, prompt, Recorded(ids)).value, t.encode(prompt);
            && f.text == prompt + Before(g, |g|) && f.promptLength == |p.ids| == |p.offsets|
            && f.offsets == p.offsets + AsOffsets(SpansAfter(g, |g|), |prompt|)
  {
    assert |t.encode(prompt).ids| == |t.encode(prompt).offsets|;
    SuffixesLength(t.decode(t.encode(prompt).ids), Decodings(t, t.encode(prompt).ids, ids), |ids|);
  }

  lemma NthBehind<T>(a: seq<T>, b: seq<T>, i: nat)
    requires i < |b|
    ensures (a + b)[|a| + i] == b[i]
  {
  }

  lemma SliceBehindPrompt(prompt: string, text: string, start: nat, end: nat, from: int, to: int)
    requires start <= end <= |text| && from == |prompt| + start && to == |prompt| + end
    ensures (prompt + text)[from..to] == text[start..end]
  {
  }

  // ---------------------------------------------------------------- addressing the prediction of a target

  /** The read of target i in a cohort of n targets: counted from the end of the sequence. */
  function ReadIndex(i: nat, n: nat): int {
    i - n - 1
  }

  /** An integer position on a left-padded row of `padded` slots whose first real token is at `firstReal`. */
  function ResolveIndex(padded: nat, firstReal: nat, prefix: nat, index: int): Option<int> {
    var slot := if index < 0 then padded + index else firstReal + prefix + index;
    if firstReal <= slot < padded then Some(slot) else None
  }

  /**
   Which slot an integer position is: counted from the row's end when it is negative, otherwise behind the padding and
   the prefix; none when that is padding or past the end.
   */
  lemma ResolvedSlot<T>(row: seq<T>, left: nat, prefix: nat, index: int)
    requires left <= |row|
    ensures var slot := ResolveIndex(|row|, left, prefix, index);
            && (slot.Some? <==> if index < 0 then -index <= |row[left..]| else prefix + index < |row[left..]|)
            && (slot.Some? ==> 0 <= slot.value < |row|
                               && row[slot.value] == if index < 0 then row[left..][|row[left..]| + index]
                                                     else row[left..][prefix..][index])
  {
  }

  /** On every left-padded row, target i's read resolves to its own prediction position, behind the padding. */
  lemma ReadsResolveToPredictions(row: Prepared, frozen: Frozen, roles: map<int, string>, eos: seq<int>, i: nat,
                                  left: nat, prefix: nat)
    requires WellPrepared(row, frozen, roles, eos) && i < row.outputLength
    ensures ResolveIndex(left + |row.ids|, left, prefix, ReadIndex(i, row.outputLength))
         == Some(left + row.targets[i].predictionPosition)
    ensures row.ids[row.targets[i].predictionPosition + 1] == row.targets[i].tokenId
  {
    assert row.targets[i] == TargetAt(frozen, roles, eos, i);
  }
}
