/**
 Token positions. Two implementations of one specification language: the per-example indexers, which work on each
 example's own unpadded encoding, and the batch-first resolver, which works on a row of the padded batch the model
 runs. The second is proved to be the first shifted by the row's padding.
 */
module TokenPositions {
  import opened Wrappers
  import opened Templates

  type Offset = (int, int)

  /**
   One tokenized prompt: which slots hold content, each slot's character offsets, where the bare content begins in
   a chat-wrapped prompt (0 without a chat template), the wrapped prompt itself, and the name or path its tokenizer has.
   */
  datatype Encoding = Encoding(mask: seq<bool>, offsets: seq<Offset>, contentOffset: int, wrapped: Option<string>,
                               tokenizer: string)

  // ---------------------------------------------------------------- characters to tokens

  predicate Overlaps(o: Offset, start: int, end: int) {
    !(o.0 == 0 && o.1 == 0) && o.0 < end && o.1 > start
  }

  /** The slots from k on whose characters overlap [start, end), in order. */
  function OverlapsFrom(offsets: seq<Offset>, start: int, end: int, k: nat): seq<int>
    requires k <= |offsets|
    decreases |offsets| - k
  {
    if k == |offsets| then []
    else (if Overlaps(offsets[k], start, end) then [k as int] else []) + OverlapsFrom(offsets, start, end, k + 1)
  }

  /** get_tokens_in_char_range: an empty range overlaps nothing. */
  function TokensInCharRange(offsets: seq<Offset>, start: int, end: int): seq<int> {
    if end <= start then [] else OverlapsFrom(offsets, start, end, 0)
  }

  /** Slicing as the source's language does it: bounds clipped to the text (they are never negative here). */
  function Clipped(s: string, from: int, to: int): string {
    var lo := if from < 0 then 0 else if from > |s| then |s| else from;
    var hi := if to < lo then lo else if to > |s| then |s| else to;
    s[lo..hi]
  }

  /** A bare character range in the encoded text's coordinates; None when the chat template altered the characters. */
  function Rebase(e: Encoding, span: Span): Option<(int, int)> {
    var start, end := span.start + e.contentOffset, span.end + e.contentOffset;
    if e.contentOffset == 0 then Some((span.start as int, span.end as int))
    else if e.wrapped.Some? && Clipped(e.wrapped.value, start, end) != span.value then None
    else Some((start, end))
  }

  /** The tokens of one span; None when it did not survive the chat template. */
  function TokensOfSpan(e: Encoding, span: Span): Option<seq<int>> {
    var range := Rebase(e, span);
    if range == None then None else Some(TokensInCharRange(e.offsets, range.value.0, range.value.1))
  }

  function Join(a: Option<seq<int>>, b: Option<seq<int>>): Option<seq<int>> {
    if a == None || b == None then None else Some(a.value + b.value)
  }

  /** The tokens of the first n spans, in order. */
  function TokensOfSpans(e: Encoding, spans: seq<Span>, n: nat): Option<seq<int>>
    requires n <= |spans|
  {
    if n == 0 then Some([]) else Join(TokensOfSpans(e, spans, n - 1), TokensOfSpan(e, spans[n - 1]))
  }

  /** Which tokens a character range has: those that share a character with it, in order, each once. */
  lemma {:induction false} OverlapsAre(offsets: seq<Offset>, start: int, end: int, k: nat)
    requires k <= |offsets|
    ensures forall i {:trigger i in OverlapsFrom(offsets, start, end, k)} ::
              i in OverlapsFrom(offsets, start, end, k) <==> k <= i < |offsets| && Overlaps(offsets[i], start, end)
    ensures Ascending(OverlapsFrom(offsets, start, end, k))
    decreases |offsets| - k
  {
    if k < |offsets| {
      OverlapsAre(offsets, start, end, k + 1);
      var rest := OverlapsFrom(offsets, start, end, k + 1);
      AscendingFrom(k, rest);
      assert [] + rest == rest;
    }
  }

  lemma AscendingFrom(x: int, rest: seq<int>)
    requires Ascending(rest) && forall y :: y in rest ==> x < y
    ensures Ascending([x] + rest)
  {
    var all := [x] + rest;
    forall i, j {:trigger Before(all, i, j)} | 0 <= i < j < |all| ensures Before(all, i, j) {
      if i == 0 {
        assert all[j] in rest;
      } else {
        assert Before(rest, i - 1, j - 1);
      }
    }
  }

  predicate Before(s: seq<int>, i: nat, j: nat)
    requires i < |s| && j < |s|
  {
    s[i] < s[j]
  }

  predicate Ascending(s: seq<int>) {
    forall i, j {:trigger Before(s, i, j)} :: 0 <= i < j < |s| ==> Before(s, i, j)
  }

  /** A character that both ranges hold. */
  predicate ShareAt(o: Offset, start: int, end: int, c: int) {
    o.0 <= c < o.1 && start <= c < end
  }

  /** A token with characters of its own is among a range's tokens exactly when they share one; padding never is. */
  lemma TokensShareCharacters(offsets: seq<Offset>, start: int, end: int, i: nat)
    requires i < |offsets| && (offsets[i].0 < offsets[i].1 || offsets[i] == (0, 0))
    ensures i in TokensInCharRange(offsets, start, end) <==> exists c :: ShareAt(offsets[i], start, end, c)
    ensures Ascending(TokensInCharRange(offsets, start, end))
  {
    OverlapsAre(offsets, start, end, 0);
    var o := offsets[i];
    if start < end && Overlaps(o, start, end) {
      assert ShareAt(o, start, end, if o.0 < start then start else o.0);
    }
  }

  /**
   Behind a chat template a span is where the bare content begins, moved there, provided its value stands there in the
   wrapped prompt; without one it stays where it is.
   */
  lemma RebasedMeans(e: Encoding, span: Span)
    requires span.end == span.start + |span.value| && e.contentOffset >= 0
    ensures Rebase(e, span) == None
              || Rebase(e, span) == Some((span.start + e.contentOffset, span.end + e.contentOffset))
    ensures Rebase(e, span).Some? <==>
              || e.contentOffset == 0 || e.wrapped == None || span.value == ""
              || (var at := span.start + e.contentOffset;
                  at + |span.value| <= |e.wrapped.value| && e.wrapped.value[at..at + |span.value|] == span.value)
  {
  }

  // ---------------------------------------------------------------- padding

  function Repeat<T>(n: nat, x: T): seq<T> {
    seq(n, _ => x)
  }

  /** The row a padded batch holds for an encoding: `left` slots of padding before it and `right` after. */
  function Padded(e: Encoding, left: nat, right: nat): (row: Encoding)
    ensures |row.mask| == |row.offsets| == left + |e.offsets| + right
  {
    Encoding(Repeat(left, false) + Repeat(|e.offsets|, true) + Repeat(right, false),
             Repeat(left, (0, 0)) + e.offsets + Repeat(right, (0, 0)),
             e.contentOffset, e.wrapped, e.tokenizer)
  }

  function Shift(indices: seq<int>, d: int): seq<int> {
    seq(|indices|, i requires 0 <= i < |indices| => indices[i] + d)
  }

  function ShiftOption(r: Option<seq<int>>, d: int): Option<seq<int>> {
    if r.Some? then Some(Shift(r.value, d)) else None
  }

  function CountTrue(mask: seq<bool>): nat {
    if mask == [] then 0 else (if mask[0] then 1 else 0) + CountTrue(mask[1..])
  }

  function FirstTrue(mask: seq<bool>): nat {
    if mask == [] || mask[0] then 0 else 1 + FirstTrue(mask[1..])
  }

  /** The first content slot and the number of content slots of a row. */
  function ContentRegion(mask: seq<bool>): (nat, nat) {
    (if CountTrue(mask) == 0 then 0 else FirstTrue(mask), CountTrue(mask))
  }

  lemma {:induction false} CountRepeat(n: nat, b: bool, rest: seq<bool>)
    ensures CountTrue(Repeat(n, b) + rest) == (if b then n else 0) + CountTrue(rest)
    ensures !b && CountTrue(rest) > 0 ==> FirstTrue(Repeat(n, b) + rest) == n + FirstTrue(rest)
  {
    if n == 0 {
      assert Repeat(n, b) + rest == rest;
    } else {
      assert (Repeat(n, b) + rest)[1..] == Repeat(n - 1, b) + rest;
      CountRepeat(n - 1, b, rest);
    }
  }

  /** On a padded row the content region is where the encoding was put. */
  lemma RegionOfPadded(e: Encoding, left: nat, right: nat)
    ensures ContentRegion(Padded(e, left, right).mask) == (if |e.offsets| == 0 then 0 else left, |e.offsets|)
  {
    var n := |e.offsets|;
    var tail := Repeat(n, true) + Repeat(right, false);
    CountRepeat(right, false, []);
    assert Repeat(right, false) + [] == Repeat(right, false);
    CountRepeat(n, true, Repeat(right, false));
    CountRepeat(left, false, tail);
    Reassociate(Repeat(left, false), Repeat(n, true), Repeat(right, false));
    if n > 0 {
      assert tail[0];
    }
  }

  lemma ShiftConcat(a: seq<int>, b: seq<int>, d: int)
    ensures Shift(a + b, d) == Shift(a, d) + Shift(b, d)
  {
  }

  lemma ShiftOne(x: int, d: int)
    ensures Shift([x], d) == [x + d]
  {
  }

  lemma {:induction false} NoOverlapInPadding(offsets: seq<Offset>, start: int, end: int, k: nat)
    requires k <= |offsets| && forall i :: k <= i < |offsets| ==> offsets[i] == (0, 0)
    ensures OverlapsFrom(offsets, start, end, k) == []
    decreases |offsets| - k
  {
    if k < |offsets| {
      NoOverlapInPadding(offsets, start, end, k + 1);
    }
  }

  lemma {:induction false} OverlapsShift(e: Encoding, left: nat, right: nat, start: int, end: int, k: nat)
    requires k <= |e.offsets|
    ensures OverlapsFrom(Padded(e, left, right).offsets, start, end, left + k)
         == Shift(OverlapsFrom(e.offsets, start, end, k), left)
    decreases |e.offsets| - k
  {
    var row := Padded(e, left, right).offsets;
    if k == |e.offsets| {
      NoOverlapInPadding(row, start, end, left + k);
    } else {
      assert row[left + k] == e.offsets[k];
      OverlapsShift(e, left, right, start, end, k + 1);
      ShiftConcat(if Overlaps(e.offsets[k], start, end) then [k as int] else [],
                  OverlapsFrom(e.offsets, start, end, k + 1), left);
    }
  }

  lemma {:induction false} SkipLeftPadding(e: Encoding, left: nat, right: nat, start: int, end: int, k: nat)
    requires k <= left
    ensures OverlapsFrom(Padded(e, left, right).offsets, start, end, k)
         == OverlapsFrom(Padded(e, left, right).offsets, start, end, left)
    decreases left - k
  {
    if k < left {
      assert Padded(e, left, right).offsets[k] == (0, 0);
      SkipLeftPadding(e, left, right, start, end, k + 1);
    }
  }

  /** Character ranges overlap the same tokens in the padded row, at shifted slots: padding never overlaps. */
  lemma TokensShift(e: Encoding, left: nat, right: nat, start: int, end: int)
    ensures TokensInCharRange(Padded(e, left, right).offsets, start, end)
         == Shift(TokensInCharRange(e.offsets, start, end), left)
  {
    SkipLeftPadding(e, left, right, start, end, 0);
    OverlapsShift(e, left, right, start, end, 0);
  }

  /** The same text behind both: range checks and rebasing come out alike. */
  predicate SameText(row: Encoding, e: Encoding) {
    row.contentOffset == e.contentOffset && row.wrapped == e.wrapped
  }

  /** The same tokens, `left` slots later. */
  ghost predicate SameTokens(row: seq<Offset>, offsets: seq<Offset>, left: nat) {
    forall start, end {:trigger TokensInCharRange(row, start, end)} ::
      TokensInCharRange(row, start, end) == Shift(TokensInCharRange(offsets, start, end), left)
  }

  /** What the row of a batch owes an encoding. */
  ghost predicate Carries(row: Encoding, e: Encoding, left: nat) {
    && SameText(row, e) && SameTokens(row.offsets, e.offsets, left)
    && ContentRegion(row.mask) == (if |e.offsets| == 0 then 0 else left, |e.offsets|)
  }

  lemma PaddedCarries(e: Encoding, left: nat, right: nat)
    ensures Carries(Padded(e, left, right), e, left)
  {
    RegionOfPadded(e, left, right);
    forall start, end {
      TokensShift(e, left, right, start, end);
    }
  }

  lemma TokensOfSpanShift(row: Encoding, e: Encoding, left: nat, span: Span)
    requires SameText(row, e) && SameTokens(row.offsets, e.offsets, left)
    ensures TokensOfSpan(row, span) == ShiftOption(TokensOfSpan(e, span), left)
  {
    assert Rebase(row, span) == Rebase(e, span);
  }

  lemma JoinShift(a: Option<seq<int>>, b: Option<seq<int>>, d: int)
    ensures ShiftOption(Join(a, b), d) == Join(ShiftOption(a, d), ShiftOption(b, d))
  {
    if a.Some? && b.Some? {
      ShiftConcat(a.value, b.value, d);
    }
  }

  lemma NothingShift(d: int)
    ensures ShiftOption(Some([]), d) == Some([])
  {
    assert Shift([], d) == [];
  }

  lemma OneMoreSpan(e: Encoding, spans: seq<Span>, before: nat, n: nat)
    requires before < n == before + 1 <= |spans|
    ensures TokensOfSpans(e, spans, n) == Join(TokensOfSpans(e, spans, before), TokensOfSpan(e, spans[before]))
  {
  }

  lemma {:induction false} TokensOfSpansShift(row: Encoding, e: Encoding, left: nat, spans: seq<Span>, n: nat)
    requires n <= |spans| && SameText(row, e) && SameTokens(row.offsets, e.offsets, left)
    ensures TokensOfSpans(row, spans, n) == ShiftOption(TokensOfSpans(e, spans, n), left)
    decreases n
  {
    if n == 0 {
      NothingShift(left);
    } else {
      TokensOfSpansShift(row, e, left, spans, n - 1);
      TokensOfSpanShift(row, e, left, spans[n - 1]);
      JoinShift(TokensOfSpans(e, spans, n - 1), TokensOfSpan(e, spans[n - 1]), left);
      OneMoreSpan(row, spans, n - 1, n);
      OneMoreSpan(e, spans, n - 1, n);
    }
  }

  // ---------------------------------------------------------------- the specification language

  /**
   A declarative position. The outer Option of `scope` and `relativeTo` is the field's presence, the inner one the
   presence of the variable it must name. A dynamic specification answers each example with another one.
   */
  datatype Spec =
    | Index(position: Option<int>, scope: Option<Option<string>>, relativeTo: Option<Option<string>>)
    | WholeVariable(name: Option<string>)
    | UnknownType
    | Dynamic(cases: map<Example, Spec>)

  /** One token of a variable, counted from its end when negative; None out of range. */
  function PickScoped(tokens: Option<seq<int>>, position: int): Option<seq<int>> {
    if tokens == None then None
    else
      var n := |tokens.value|;
      var actual := if position < 0 then n + position else position;
      if actual < 0 || actual >= n then None else Some([tokens.value[actual]])
  }

  /** A slot off a variable's last token, or off its first when negative; None outside [first, first + length). */
  function PickRelative(tokens: Option<seq<int>>, offset: int, first: int, length: nat): Option<seq<int>> {
    if tokens == None || tokens.value == [] then None
    else
      var reference := if offset >= 0 then tokens.value[|tokens.value| - 1] else tokens.value[0];
      var target := reference + offset;
      if target < first || target >= first + length then None else Some([target])
  }

  // ---------------------------------------------------------------- the per-example indexers

  /** What a factory builds from a specification, once its fields are checked against the template. */
  datatype Plan = Absolute(position: int) | Whole(name: string) | Scoped(position: int, name: string)
                | Relative(offset: int, name: string)

  /** A variable factory refuses a missing or empty name and one the template does not have. */
  function NameInTemplate(name: Option<string>, parts: seq<Part>): Option<string> {
    if name.Some? && name.value != "" && name.value in Names(parts) then name else None
  }

  function BuildPlan(spec: Spec, parts: seq<Part>): Option<Plan>
    requires !spec.Dynamic?
  {
    match spec
    case Index(None, _, _) => None
    case Index(Some(p), Some(v), _) =>
      if NameInTemplate(v, parts) == None then None else Some(Scoped(p, v.value))
    case Index(Some(p), None, Some(v)) =>
      if NameInTemplate(v, parts) == None then None else Some(Relative(p, v.value))
    case Index(Some(p), None, None) => Some(Absolute(p))
    case WholeVariable(v) =>
      if NameInTemplate(v, parts) == None then None else Some(Whole(v.value))
    case UnknownType => None
  }

  /** Every variable's tokens; one variable the chat template altered fails them all. */
  function AllTokens(e: Encoding, positions: map<string, seq<Span>>): Option<map<string, seq<int>>> {
    if exists name :: name in positions && TokensOfSpans(e, positions[name], |positions[name]|) == None then None
    else Some(map name | name in positions :: TokensOfSpans(e, positions[name], |positions[name]|).value)
  }

  /** Filling comes first, then the tokenizer's identity, then every variable's characters. */
  function VariableTokens(name: string, parts: seq<Part>, ex: Example, e: Encoding): Option<seq<int>> {
    var filled := FillSpec(parts, ex);
    if name !in ex.values || filled == None || e.tokenizer == "" then None
    else
      var all := AllTokens(e, filled.value.positions);
      if all == None then None else Lookup(all.value, name)
  }

  /** The indexer closure a plan stands for, on the example's own unpadded encoding. */
  function RunPlan(plan: Plan, parts: seq<Part>, ex: Example, e: Encoding, prefix: nat): Option<seq<int>> {
    match plan
    case Absolute(p) =>
      var total := |e.offsets|;
      var actual := if p < 0 then total + p else p + prefix;
      if actual < 0 || actual >= total then None else Some([actual])
    case Whole(name) => VariableTokens(name, parts, ex, e)
    case Scoped(p, name) => PickScoped(VariableTokens(name, parts, ex, e), p)
    case Relative(offset, name) => PickRelative(VariableTokens(name, parts, ex, e), offset, 0, |e.offsets|)
  }

  /** A position built from a specification, indexed on one example. */
  function IndexExample(spec: Spec, parts: seq<Part>, ex: Example, e: Encoding, prefix: nat): Option<seq<int>> {
    if spec.Dynamic? then
      if ex in spec.cases then IndexExample(spec.cases[ex], parts, ex, e, prefix) else None
    else
      var plan := BuildPlan(spec, parts);
      if plan == None then None else RunPlan(plan.value, parts, ex, e, prefix)
  }

  // ---------------------------------------------------------------- the batch-first resolver

  function VariableTokensOnRow(name: string, parts: seq<Part>, ex: Example, row: Encoding): Option<seq<int>> {
    var filled := FillSpec(parts, ex);
    if name !in ex.values || filled == None || name !in filled.value.positions then None
    else
      var spans := filled.value.positions[name];
      TokensOfSpans(row, spans, |spans|)
  }

  /** One specification for one example, on its row of the padded batch: no checks ahead, one frame only. */
  function ResolveOnRow(spec: Spec, parts: seq<Part>, ex: Example, row: Encoding, prefix: nat): Option<seq<int>> {
    var (first, length) := ContentRegion(row.mask);
    match spec
    case Dynamic(cases) => if ex in cases then ResolveOnRow(cases[ex], parts, ex, row, prefix) else None
    case WholeVariable(v) => if v == None then None else VariableTokensOnRow(v.value, parts, ex, row)
    case UnknownType => None
    case Index(None, _, _) => None
    case Index(Some(p), Some(v), _) =>
      if v == None then None else PickScoped(VariableTokensOnRow(v.value, parts, ex, row), p)
    case Index(Some(p), None, Some(v)) =>
      if v == None then None else PickRelative(VariableTokensOnRow(v.value, parts, ex, row), p, first, length)
    case Index(Some(p), None, None) =>
      var actual := if p < 0 then first + length + p else first + p + prefix;
      if actual < first || actual >= first + length then None else Some([actual])
  }

  // ---------------------------------------------------------------- the second refines the first

  /** No variable is unnamed. */
  predicate Parsed(parts: seq<Part>) {
    "" !in Names(parts)
  }

  /** The parser never yields an unnamed variable. */
  lemma TemplatesAreParsed(s: string)
    ensures Parsed(PartsFrom(s, 0))
  {
    ParsedNamesAreNotEmpty(s);
  }

  /** The chat template altered the characters of one of the first n spans. */
  predicate Altered(e: Encoding, spans: seq<Span>, n: nat)
    requires n <= |spans|
  {
    exists i :: 0 <= i < n && Rebase(e, spans[i]) == None
  }

  lemma {:induction false} AlteredHasNoTokens(e: Encoding, spans: seq<Span>, n: nat)
    requires n <= |spans|
    ensures TokensOfSpans(e, spans, n) == None <==> Altered(e, spans, n)
    decreases n
  {
    if n > 0 {
      AlteredHasNoTokens(e, spans, n - 1);
      if Altered(e, spans, n - 1) {
        var i :| 0 <= i < n - 1 && Rebase(e, spans[i]) == None;
        assert Altered(e, spans, n);
      }
    }
  }

  /** Every substituted value survived the chat template where it was expected. */
  predicate Verbatim(parts: seq<Part>, ex: Example, e: Encoding) {
    var filled := FillSpec(parts, ex);
    filled.Some? ==>
      forall name :: name in filled.value.positions ==>
        !Altered(e, filled.value.positions[name], |filled.value.positions[name]|)
  }

  /** The per-example path can look up this template's variables: the tokenizer has a name and none was altered. */
  predicate Indexable(parts: seq<Part>, ex: Example, e: Encoding) {
    Verbatim(parts, ex, e) && (FillSpec(parts, ex).Some? ==> e.tokenizer != "")
  }

  lemma VerbatimHasTokens(parts: seq<Part>, ex: Example, e: Encoding)
    ensures Verbatim(parts, ex, e) <==>
              (FillSpec(parts, ex).Some? ==> AllTokens(e, FillSpec(parts, ex).value.positions).Some?)
  {
    var filled := FillSpec(parts, ex);
    if filled.Some? {
      var positions := filled.value.positions;
      forall name | name in positions
        ensures TokensOfSpans(e, positions[name], |positions[name]|) == None
           <==> Altered(e, positions[name], |positions[name]|)
      {
        AlteredHasNoTokens(e, positions[name], |positions[name]|);
      }
    }
  }

  /** On one variable: the row path answers for it alone, the per-example path for every variable at once. */
  lemma VariableOnRow(name: string, parts: seq<Part>, ex: Example, row: Encoding, e: Encoding, left: nat)
    requires Carries(row, e, left)
    ensures Indexable(parts, ex, e)
            ==> VariableTokensOnRow(name, parts, ex, row) == ShiftOption(VariableTokens(name, parts, ex, e), left)
    ensures !Indexable(parts, ex, e) ==> VariableTokens(name, parts, ex, e) == None
    ensures VariableTokensOnRow(name, parts, ex, row).Some? ==> name in Names(parts)
  {
    VerbatimHasTokens(parts, ex, e);
    var filled := FillSpec(parts, ex);
    if filled.Some? && name in filled.value.positions {
      var spans := filled.value.positions[name];
      TokensOfSpansShift(row, e, left, spans, |spans|);
    }
  }

  lemma ScopedShift(tokens: Option<seq<int>>, position: int, d: int)
    ensures PickScoped(ShiftOption(tokens, d), position) == ShiftOption(PickScoped(tokens, position), d)
  {
    if tokens.Some? {
      var n := |tokens.value|;
      var actual := if position < 0 then n + position else position;
      if 0 <= actual < n {
        ShiftOne(tokens.value[actual], d);
      }
    }
  }

  lemma RelativeShift(tokens: Option<seq<int>>, offset: int, n: nat, first: nat, d: nat)
    requires n > 0 ==> first == d
    ensures PickRelative(ShiftOption(tokens, d), offset, first, n) == ShiftOption(PickRelative(tokens, offset, 0, n), d)
  {
    if tokens.Some? && tokens.value != [] {
      var ts := tokens.value;
      ShiftOne((if offset >= 0 then ts[|ts| - 1] else ts[0]) + offset, d);
    }
  }

  /** The specification that finally answers for an example. */
  function Resolved(spec: Spec, ex: Example): Spec {
    if spec.Dynamic? && ex in spec.cases then Resolved(spec.cases[ex], ex) else spec
  }

  predicate NeedsVariable(spec: Spec) {
    spec.WholeVariable? || (spec.Index? && (spec.scope.Some? || spec.relativeTo.Some?))
  }

  /** The two answers agree, or the example's is a refusal because its variables cannot be indexed. */
  predicate Agree(spec: Spec, parts: seq<Part>, ex: Example, row: Encoding, e: Encoding, left: nat, prefix: nat) {
    && (Indexable(parts, ex, e) || !NeedsVariable(Resolved(spec, ex))
        ==> ResolveOnRow(spec, parts, ex, row, prefix) == ShiftOption(IndexExample(spec, parts, ex, e, prefix), left))
    && (!Indexable(parts, ex, e) && NeedsVariable(Resolved(spec, ex)) ==>
        IndexExample(spec, parts, ex, e, prefix) == None)
  }

  lemma AbsoluteAgrees(spec: Spec, parts: seq<Part>, ex: Example, row: Encoding, e: Encoding, left: nat, prefix: nat)
    requires spec.Index? && !NeedsVariable(spec) && Carries(row, e, left)
    ensures Agree(spec, parts, ex, row, e, left, prefix)
  {
    if spec.position.Some? {
      var p := spec.position.value;
      ShiftOne(if p < 0 then |e.offsets| + p else p + prefix, left);
    }
  }

  /** The plan of a specification that needs variable v. */
  predicate PlansFor(spec: Spec, v: string, plan: Plan) {
    match spec
    case WholeVariable(name) => name == Some(v) && plan == Whole(v)
    case Index(Some(p), Some(name), _) => name == Some(v) && plan == Scoped(p, v)
    case Index(Some(p), None, Some(name)) => name == Some(v) && plan == Relative(p, v)
    case _ => false
  }

  /** What the per-example side makes of a specification that needs variable v. */
  lemma NeedingUnfolds(spec: Spec, v: string, plan: Plan, parts: seq<Part>, ex: Example, e: Encoding, prefix: nat)
    requires PlansFor(spec, v, plan)
    ensures Resolved(spec, ex) == spec && NeedsVariable(spec)
    ensures IndexExample(spec, parts, ex, e, prefix)
         == if v != "" && v in Names(parts) then RunPlan(plan, parts, ex, e, prefix) else None
  {
    assert BuildPlan(spec, parts) == if v != "" && v in Names(parts) then Some(plan) else None;
  }

  /** Without tokens for its variable a plan has no answer. */
  lemma NothingToPick(plan: Plan, v: string, parts: seq<Part>, ex: Example, e: Encoding, prefix: nat)
    requires !plan.Absolute? && plan.name == v
    requires VariableTokens(v, parts, ex, e) == None
    ensures RunPlan(plan, parts, ex, e, prefix) == None
  {
  }

  /** The resolver's answer has only to be the plan's, shifted, wherever variables can be indexed. */
  lemma AgreeWhenShifted(spec: Spec, v: string, plan: Plan, parts: seq<Part>, ex: Example, row: Encoding, e: Encoding,
                         left: nat, prefix: nat)
    requires Parsed(parts) && Carries(row, e, left)
    requires PlansFor(spec, v, plan)
    requires Indexable(parts, ex, e) ==>
               ResolveOnRow(spec, parts, ex, row, prefix) == ShiftOption(RunPlan(plan, parts, ex, e, prefix), left)
    ensures Agree(spec, parts, ex, row, e, left, prefix)
  {
    NeedingUnfolds(spec, v, plan, parts, ex, e, prefix);
    VariableOnRow(v, parts, ex, row, e, left);
    if !(v != "" && v in Names(parts)) || !Indexable(parts, ex, e) {
      NotInTemplate(v, parts, ex, e);
      NothingToPick(plan, v, parts, ex, e, prefix);
    }
  }

  lemma NotInTemplate(v: string, parts: seq<Part>, ex: Example, e: Encoding)
    ensures v !in Names(parts) ==> VariableTokens(v, parts, ex, e) == None
  {
  }

  lemma WholeAgrees(v: string, parts: seq<Part>, ex: Example, row: Encoding, e: Encoding, left: nat, prefix: nat)
    requires Parsed(parts) && Carries(row, e, left)
    ensures Agree(WholeVariable(Some(v)), parts, ex, row, e, left, prefix)
  {
    VariableOnRow(v, parts, ex, row, e, left);
    AgreeWhenShifted(WholeVariable(Some(v)), v, Whole(v), parts, ex, row, e, left, prefix);
  }

  lemma ScopedAgrees(p: int, v: string, other: Option<Option<string>>, parts: seq<Part>, ex: Example,
                     row: Encoding, e: Encoding, left: nat, prefix: nat)
    requires Parsed(parts) && Carries(row, e, left)
    ensures Agree(Index(Some(p), Some(Some(v)), other), parts, ex, row, e, left, prefix)
  {
    var spec := Index(Some(p), Some(Some(v)), other);
    VariableOnRow(v, parts, ex, row, e, left);
    ScopedShift(VariableTokens(v, parts, ex, e), p, left);
    AgreeWhenShifted(spec, v, Scoped(p, v), parts, ex, row, e, left, prefix);
  }

  lemma RelativeAgrees(p: int, v: string, parts: seq<Part>, ex: Example,
                       row: Encoding, e: Encoding, left: nat, prefix: nat)
    requires Parsed(parts) && Carries(row, e, left)
    ensures Agree(Index(Some(p), None, Some(Some(v))), parts, ex, row, e, left, prefix)
  {
    var spec := Index(Some(p), None, Some(Some(v)));
    var (first, length) := ContentRegion(row.mask);
    VariableOnRow(v, parts, ex, row, e, left);
    RelativeShift(VariableTokens(v, parts, ex, e), p, length, first, left);
    AgreeWhenShifted(spec, v, Relative(p, v), parts, ex, row, e, left, prefix);
  }

  lemma {:induction false} RowAgrees(spec: Spec, parts: seq<Part>, ex: Example, row: Encoding, e: Encoding,
                                     left: nat, prefix: nat)
    requires Parsed(parts) && Carries(row, e, left)
    ensures Agree(spec, parts, ex, row, e, left, prefix)
  {
    match spec
    case Dynamic(cases) =>
      if ex in cases {
        RowAgrees(cases[ex], parts, ex, row, e, left, prefix);
      }
    case WholeVariable(Some(v)) => WholeAgrees(v, parts, ex, row, e, left, prefix);
    case Index(Some(p), Some(Some(v)), other) => ScopedAgrees(p, v, other, parts, ex, row, e, left, prefix);
    case Index(Some(p), None, Some(Some(v))) => RelativeAgrees(p, v, parts, ex, row, e, left, prefix);
    case Index(Some(p), None, None) => AbsoluteAgrees(spec, parts, ex, row, e, left, prefix);
    case _ =>
  }

  /** An example's own encoding, taken for a row of a batch: no padding at all. */
  function Alone(e: Encoding): Encoding {
    Padded(e, 0, 0)
  }

  lemma ShiftByNothing(r: Option<seq<int>>)
    ensures ShiftOption(r, 0) == r
  {
    if r.Some? {
      SameElements(Shift(r.value, 0), r.value);
    }
  }

  /** One variable on the resolver's side alone: padding only shifts, whatever the chat template did. */
  lemma VariableShifts(name: string, parts: seq<Part>, ex: Example, row: Encoding, e: Encoding, left: nat)
    requires Carries(row, e, left)
    ensures VariableTokensOnRow(name, parts, ex, row)
              == ShiftOption(VariableTokensOnRow(name, parts, ex, Alone(e)), left)
  {
    PaddedCarries(e, 0, 0);
    var filled := FillSpec(parts, ex);
    if filled.Some? && name in filled.value.positions {
      var spans := filled.value.positions[name];
      TokensOfSpansShift(row, e, left, spans, |spans|);
      TokensOfSpansShift(Alone(e), e, 0, spans, |spans|);
      ShiftByNothing(TokensOfSpans(e, spans, |spans|));
    }
  }

  lemma ScopedShifts(p: int, v: string, other: Option<Option<string>>, parts: seq<Part>, ex: Example,
                     row: Encoding, e: Encoding, left: nat, prefix: nat)
    requires Carries(row, e, left)
    ensures var spec := Index(Some(p), Some(Some(v)), other);
            ResolveOnRow(spec, parts, ex, row, prefix)
              == ShiftOption(ResolveOnRow(spec, parts, ex, Alone(e), prefix), left)
  {
    VariableShifts(v, parts, ex, row, e, left);
    ScopedShift(VariableTokensOnRow(v, parts, ex, Alone(e)), p, left);
  }

  lemma RelativeShifts(p: int, v: string, parts: seq<Part>, ex: Example, row: Encoding, e: Encoding, left: nat,
                       prefix: nat)
    requires Carries(row, e, left)
    ensures var spec := Index(Some(p), None, Some(Some(v)));
            ResolveOnRow(spec, parts, ex, row, prefix)
              == ShiftOption(ResolveOnRow(spec, parts, ex, Alone(e), prefix), left)
  {
    var (first, length) := ContentRegion(row.mask);
    PaddedCarries(e, 0, 0);
    VariableShifts(v, parts, ex, row, e, left);
    RelativeShift(VariableTokensOnRow(v, parts, ex, Alone(e)), p, length, first, left);
  }

  /**
   The resolver is one function of the example: on every row that carries the example's encoding it answers what it
   answers on the encoding alone, shifted to the row's first content slot, and refuses when it refuses there.
   */
  lemma {:induction false} PaddingOnlyShifts(spec: Spec, parts: seq<Part>, ex: Example, row: Encoding, e: Encoding,
                                             left: nat, prefix: nat)
    requires Carries(row, e, left)
    ensures ResolveOnRow(spec, parts, ex, row, prefix)
              == ShiftOption(ResolveOnRow(spec, parts, ex, Alone(e), prefix), left)
  {
    match spec
    case Dynamic(cases) =>
      if ex in cases {
        PaddingOnlyShifts(cases[ex], parts, ex, row, e, left, prefix);
      }
    case WholeVariable(Some(v)) => VariableShifts(v, parts, ex, row, e, left);
    case Index(Some(p), Some(Some(v)), other) => ScopedShifts(p, v, other, parts, ex, row, e, left, prefix);
    case Index(Some(p), None, Some(Some(v))) => RelativeShifts(p, v, parts, ex, row, e, left, prefix);
    case Index(Some(p), None, None) =>
      PaddedCarries(e, 0, 0);
      ShiftOne(if p < 0 then |e.offsets| + p else p + prefix, left);
    case _ =>
  }

  /**
   The per-example indexer is the same function, except that it refuses every specification that needs a variable
   once the chat template altered any variable of the template, or when the tokenizer has no name.
   */
  lemma ExampleRefusesMore(spec: Spec, parts: seq<Part>, ex: Example, e: Encoding, prefix: nat)
    requires Parsed(parts)
    ensures IndexExample(spec, parts, ex, e, prefix)
         == if Indexable(parts, ex, e) || !NeedsVariable(Resolved(spec, ex)) then
              ResolveOnRow(spec, parts, ex, Alone(e), prefix)
            else None
  {
    PaddedCarries(e, 0, 0);
    RowAgrees(spec, parts, ex, Alone(e), e, 0, prefix);
    ShiftByNothing(IndexExample(spec, parts, ex, e, prefix));
  }

  // ---------------------------------------------------------------- when there is no answer

  /** No tokens for v: the template does not have it, the example cannot fill the template, or v itself was altered. */
  predicate NoTokens(v: string, parts: seq<Part>, ex: Example, e: Encoding) {
    || v !in Names(parts)
    || FillSpec(parts, ex) == None
    || (var spans := SpansOf(parts, ex.values, v, |parts|); Altered(e, spans, |spans|))
  }

  /** The tokens of v's spans, read off the encoding. */
  function TokensFor(v: string, parts: seq<Part>, ex: Example, e: Encoding): seq<int> {
    var spans := SpansOf(parts, ex.values, v, |parts|);
    var tokens := TokensOfSpans(e, spans, |spans|);
    if tokens == None then [] else tokens.value
  }

  /** Counted from either end, there is no n-th of `length` tokens. */
  predicate OutOfRange(n: int, length: nat) {
    n + length < 0 || n >= length
  }

  /** A specification without an answer: a missing field, a variable without tokens, or a position out of range. */
  predicate Refused(spec: Spec, parts: seq<Part>, ex: Example, e: Encoding, prefix: nat) {
    match spec
    case WholeVariable(Some(v)) => NoTokens(v, parts, ex, e)
    case Index(Some(p), Some(Some(v)), _) =>
      NoTokens(v, parts, ex, e) || OutOfRange(p, |TokensFor(v, parts, ex, e)|)
    case Index(Some(p), None, Some(Some(v))) =>
      var tokens := TokensFor(v, parts, ex, e);
      || NoTokens(v, parts, ex, e)
      || tokens == []
      || (p >= 0 && !(0 <= tokens[|tokens| - 1] + p < |e.offsets|))
      || (p < 0 && !(0 <= tokens[0] + p < |e.offsets|))
    case Index(Some(p), None, None) => OutOfRange(if p < 0 then p else p + prefix, |e.offsets|)
    case _ => true
  }

  lemma TokensAlone(v: string, parts: seq<Part>, ex: Example, e: Encoding)
    ensures VariableTokensOnRow(v, parts, ex, Alone(e))
         == if NoTokens(v, parts, ex, e) then None else Some(TokensFor(v, parts, ex, e))
  {
    PaddedCarries(e, 0, 0);
    if v in Names(parts) && FillSpec(parts, ex).Some? {
      var spans := SpansOf(parts, ex.values, v, |parts|);
      AlteredHasNoTokens(e, spans, |spans|);
      TokensOfSpansShift(Alone(e), e, 0, spans, |spans|);
      ShiftByNothing(TokensOfSpans(e, spans, |spans|));
    }
  }

  /** A refused variable, or a position out of range among its tokens. */
  lemma RefusedScoped(p: int, v: string, other: Option<Option<string>>, parts: seq<Part>, ex: Example, e: Encoding,
                      prefix: nat)
    ensures var spec := Index(Some(p), Some(Some(v)), other);
            ResolveOnRow(spec, parts, ex, Alone(e), prefix) == None <==> Refused(spec, parts, ex, e, prefix)
  {
    TokensAlone(v, parts, ex, e);
  }

  lemma RefusedRelative(p: int, v: string, parts: seq<Part>, ex: Example, e: Encoding, prefix: nat)
    ensures var spec := Index(Some(p), None, Some(Some(v)));
            ResolveOnRow(spec, parts, ex, Alone(e), prefix) == None <==> Refused(spec, parts, ex, e, prefix)
  {
    RelativeOnRow(p, v, parts, ex, e, prefix);
    TokensAlone(v, parts, ex, e);
    NoRelativePick(TokensFor(v, parts, ex, e), p, |e.offsets|);
  }

  lemma NoRelativePick(tokens: seq<int>, p: int, length: nat)
    ensures PickRelative(None, p, 0, length) == None
    ensures PickRelative(Some(tokens), p, 0, length) == None <==>
              || tokens == []
              || (p >= 0 && !(0 <= tokens[|tokens| - 1] + p < length))
              || (p < 0 && !(0 <= tokens[0] + p < length))
  {
  }

  lemma RelativeOnRow(p: int, v: string, parts: seq<Part>, ex: Example, e: Encoding, prefix: nat)
    ensures ResolveOnRow(Index(Some(p), None, Some(Some(v))), parts, ex, Alone(e), prefix)
         == PickRelative(VariableTokensOnRow(v, parts, ex, Alone(e)), p, 0, |e.offsets|)
  {
    PaddedCarries(e, 0, 0);
  }

  lemma RefusedAbsolute(p: int, parts: seq<Part>, ex: Example, e: Encoding, prefix: nat)
    ensures var spec := Index(Some(p), None, None);
            ResolveOnRow(spec, parts, ex, Alone(e), prefix) == None <==> Refused(spec, parts, ex, e, prefix)
  {
    PaddedCarries(e, 0, 0);
  }

  /** Where an answer comes from: the n-th of `length` counted from the front, or from the back when n is negative. */
  function Place(n: int, length: nat): int {
    if n < 0 then length + n else n
  }

  lemma ScopedAnswer(p: int, v: string, other: Option<Option<string>>, parts: seq<Part>, ex: Example, e: Encoding,
                     prefix: nat)
    requires !Refused(Index(Some(p), Some(Some(v)), other), parts, ex, e, prefix)
    ensures var tokens := TokensFor(v, parts, ex, e);
            && 0 <= Place(p, |tokens|) < |tokens|
            && ResolveOnRow(Index(Some(p), Some(Some(v)), other), parts, ex, Alone(e), prefix)
                 == Some([tokens[Place(p, |tokens|)]])
  {
    TokensAlone(v, parts, ex, e);
  }

  lemma RelativeAnswer(p: int, v: string, parts: seq<Part>, ex: Example, e: Encoding, prefix: nat, tokens: seq<int>)
    requires !NoTokens(v, parts, ex, e) && tokens == TokensFor(v, parts, ex, e) && tokens != []
    requires 0 <= tokens[if p < 0 then 0 else |tokens| - 1] + p < |e.offsets|
    ensures ResolveOnRow(Index(Some(p), None, Some(Some(v))), parts, ex, Alone(e), prefix)
         == Some([tokens[if p < 0 then 0 else |tokens| - 1] + p])
  {
    RelativeOnRow(p, v, parts, ex, e, prefix);
    TokensAlone(v, parts, ex, e);
    RelativePick(tokens, p, |e.offsets|);
  }

  lemma RelativePick(tokens: seq<int>, p: int, length: nat)
    requires tokens != [] && 0 <= tokens[if p < 0 then 0 else |tokens| - 1] + p < length
    ensures PickRelative(Some(tokens), p, 0, length) == Some([tokens[if p < 0 then 0 else |tokens| - 1] + p])
  {
  }

  lemma AbsoluteAnswer(p: int, parts: seq<Part>, ex: Example, e: Encoding, prefix: nat)
    requires !Refused(Index(Some(p), None, None), parts, ex, e, prefix)
    ensures ResolveOnRow(Index(Some(p), None, None), parts, ex, Alone(e), prefix)
         == Some([Place(if p < 0 then p else p + prefix, |e.offsets|)])
  {
    PaddedCarries(e, 0, 0);
  }

  /** What is answered, where there is an answer, counted on the example's own encoding. */
  ghost predicate Answers(spec: Spec, parts: seq<Part>, ex: Example, e: Encoding, prefix: nat, answer: seq<int>) {
    match spec
    case WholeVariable(Some(v)) => answer == TokensFor(v, parts, ex, e)
    case Index(Some(p), Some(Some(v)), _) =>
      var tokens := TokensFor(v, parts, ex, e);
      0 <= Place(p, |tokens|) < |tokens| && answer == [tokens[Place(p, |tokens|)]]
    case Index(Some(p), None, Some(Some(v))) =>
      var tokens := TokensFor(v, parts, ex, e);
      tokens != [] && answer == [tokens[if p < 0 then 0 else |tokens| - 1] + p]
    case Index(Some(p), None, None) => answer == [Place(if p < 0 then p else p + prefix, |e.offsets|)]
    case _ => false
  }

  /**
   The answer: all of a variable's tokens; the one at the position, counted from either end; the last one moved forward
   or the first one moved back; or the slot itself, counted from the end or behind the prefix.
   */
  lemma {:induction false} AnswerIs(spec: Spec, parts: seq<Part>, ex: Example, e: Encoding, prefix: nat)
    requires !Refused(Resolved(spec, ex), parts, ex, e, prefix)
    ensures ResolveOnRow(spec, parts, ex, Alone(e), prefix).Some?
    ensures Answers(Resolved(spec, ex), parts, ex, e, prefix, ResolveOnRow(spec, parts, ex, Alone(e), prefix).value)
  {
    match spec
    case Dynamic(cases) =>
      if ex in cases {
        AnswerIs(cases[ex], parts, ex, e, prefix);
      }
    case WholeVariable(Some(v)) => TokensAlone(v, parts, ex, e);
    case Index(Some(p), Some(Some(v)), other) => ScopedAnswer(p, v, other, parts, ex, e, prefix);
    case Index(Some(p), None, Some(Some(v))) =>
      RelativeAnswer(p, v, parts, ex, e, prefix, TokensFor(v, parts, ex, e));
    case Index(Some(p), None, None) => AbsoluteAnswer(p, parts, ex, e, prefix);
    case _ =>
  }

  /** The resolver has no answer on an example's own encoding exactly then. */
  lemma {:induction false} RefusedIs(spec: Spec, parts: seq<Part>, ex: Example, e: Encoding, prefix: nat)
    ensures ResolveOnRow(spec, parts, ex, Alone(e), prefix) == None <==>
              Refused(Resolved(spec, ex), parts, ex, e, prefix)
  {
    match spec
    case Dynamic(cases) =>
      if ex in cases {
        RefusedIs(cases[ex], parts, ex, e, prefix);
      }
    case WholeVariable(Some(v)) => TokensAlone(v, parts, ex, e);
    case Index(Some(p), Some(Some(v)), other) => RefusedScoped(p, v, other, parts, ex, e, prefix);
    case Index(Some(p), None, Some(Some(v))) => RefusedRelative(p, v, parts, ex, e, prefix);
    case Index(Some(p), None, None) => RefusedAbsolute(p, parts, ex, e, prefix);
    case _ =>
  }

  /**
   So on every row that carries an example's encoding the two agree (the same indices behind the padding, or both
   refuse) if and only if the chat template left the template's variables intact, or none is needed, or the
   specification has no answer anyway: a field is missing, the template lacks the variable, the example cannot fill
   the template, the variable itself was altered, or the position is out of range.
   */
  lemma RowRefinesExample(spec: Spec, parts: seq<Part>, ex: Example, row: Encoding, e: Encoding, left: nat, prefix: nat)
    requires Parsed(parts) && Carries(row, e, left)
    ensures ResolveOnRow(spec, parts, ex, row, prefix) == ShiftOption(IndexExample(spec, parts, ex, e, prefix), left)
            <==> Indexable(parts, ex, e) || !NeedsVariable(Resolved(spec, ex))
                 || Refused(Resolved(spec, ex), parts, ex, e, prefix)
  {
    PaddingOnlyShifts(spec, parts, ex, row, e, left, prefix);
    ExampleRefusesMore(spec, parts, ex, e, prefix);
    RefusedIs(spec, parts, ex, e, prefix);
  }

  const TWO_VARIABLES: seq<Part> := [Variable("a"), Variable("b")]
  const STRIPPED: Encoding := Encoding([true, true, true], [(0, 1), (1, 2), (2, 3)], 1, Some("<y>"), "t")

  function TwoValues(a: string, b: string): Example {
    Example(map["a" := a, "b" := b], None)
  }

  function TwoSpans(a: string, b: string): map<string, seq<Span>> {
    map["a" := [Span(0, |a|, a)], "b" := [Span(|a|, |a| + |b|, b)]]
  }

  lemma TwoNames()
    ensures Names(TWO_VARIABLES) == {"a", "b"}
  {
    assert TWO_VARIABLES[0].name in Names(TWO_VARIABLES) && TWO_VARIABLES[1].name in Names(TWO_VARIABLES);
  }

  lemma SpansOfTwo(a: string, b: string)
    ensures var values := TwoValues(a, b).values;
            && SpansOf(TWO_VARIABLES, values, "a", 2) == [Span(0, |a|, a)]
            && SpansOf(TWO_VARIABLES, values, "b", 2) == [Span(|a|, |a| + |b|, b)]
  {
    var parts, values := TWO_VARIABLES, TwoValues(a, b).values;
    assert parts[0] == Variable("a") && parts[1] == Variable("b") && "a" != "b";
    assert TextOf(parts, values, 0) == "" && TextOf(parts, values, 1) == a;
    assert SpansOf(parts, values, "a", 0) == [] == SpansOf(parts, values, "b", 0);
    assert SpansOf(parts, values, "a", 1) == [Span(0, |a|, a)];
    assert SpansOf(parts, values, "b", 1) == [];
    var start, value := |TextOf(parts, values, 1)|, PieceOf(parts[1], values);
    assert SpansOf(parts, values, "b", 2) == SpansOf(parts, values, "b", 1) + [Span(start, start + |value|, value)];
  }

  /** Two variables side by side, filled. */
  lemma FillTwo(a: string, b: string)
    ensures FillSpec(TWO_VARIABLES, TwoValues(a, b)) == Some(Filled(a + b, TwoSpans(a, b)))
  {
    var parts, values := TWO_VARIABLES, TwoValues(a, b).values;
    TwoNames();
    TextOfTwo(a, b);
    SpansOfTwo(a, b);
    SameMap(SpanMap(parts, values, 2), TwoSpans(a, b));
  }

  lemma TextOfTwo(a: string, b: string)
    ensures TextOf(TWO_VARIABLES, TwoValues(a, b).values, 2) == a + b
  {
    var parts, values := TWO_VARIABLES, TwoValues(a, b).values;
    assert TextOf(parts, values, 0) == "" && TextOf(parts, values, 1) == a;
  }

  lemma TrailingSpaceTokens()
    ensures TokensOfSpans(STRIPPED, [Span(0, 1, "y")], 1) == Some([1])
    ensures TokensOfSpans(STRIPPED, [Span(1, 2, " ")], 1) == None
  {
    assert "<y>"[1..2] == "y" && "<y>"[2..3] == ">";
    var offsets := STRIPPED.offsets;
    assert OverlapsFrom(offsets, 1, 2, 3) == [] == OverlapsFrom(offsets, 1, 2, 2);
    assert OverlapsFrom(offsets, 1, 2, 1) == [1] == OverlapsFrom(offsets, 1, 2, 0);
  }

  /**
   Where they part: a chat template that strips whitespace removes the trailing value of variable "b". The resolver
   still answers for "a", whose characters survived; the per-example indexer, which rebases every variable of the
   template, refuses.
   */
  lemma AlteredSibling(prefix: nat)
    ensures IndexExample(WholeVariable(Some("a")), TWO_VARIABLES, TwoValues("y", " "), STRIPPED, prefix) == None
    ensures ResolveOnRow(WholeVariable(Some("a")), TWO_VARIABLES, TwoValues("y", " "), STRIPPED, prefix) == Some([1])
  {
    var parts, ex, spans := TWO_VARIABLES, TwoValues("y", " "), TwoSpans("y", " ");
    FillTwo("y", " ");
    TrailingSpaceTokens();
    TwoNames();
    OneAltered(STRIPPED, spans, "b");
    WholeOf("a", parts, ex, STRIPPED, prefix, Filled("y" + " ", spans));
  }

  lemma OneAltered(e: Encoding, positions: map<string, seq<Span>>, name: string)
    requires name in positions && TokensOfSpans(e, positions[name], |positions[name]|) == None
    ensures AllTokens(e, positions) == None
  {
  }

  /** What the two paths make of a whole variable of a filled template. */
  lemma WholeOf(v: string, parts: seq<Part>, ex: Example, e: Encoding, prefix: nat, filled: Filled)
    requires FillSpec(parts, ex) == Some(filled) && v in filled.positions && v in ex.values
    ensures ResolveOnRow(WholeVariable(Some(v)), parts, ex, e, prefix)
         == TokensOfSpans(e, filled.positions[v], |filled.positions[v]|)
    ensures AllTokens(e, filled.positions) == None ==>
              IndexExample(WholeVariable(Some(v)), parts, ex, e, prefix) == None
  {
  }
}
