/**
 Character offsets of recorded output tokens. Each token is decoded together with everything before it, and a token
 may revise characters decoded earlier (byte fallback), so the loop rewrites the spans of the tokens it disturbs.
 The tokenizer is an arbitrary sequence of decoded texts, one for each token.
 */
module OutputOffsets {
  import opened Wrappers

  datatype Extent = Extent(start: nat, end: nat)

  function Min(a: nat, b: nat): nat {
    if a < b then a else b
  }

  /** Where two texts that agree on their first k characters stop agreeing. */
  function CommonFrom(a: string, b: string, k: nat): (n: nat)
    requires k <= |a| && k <= |b| && a[..k] == b[..k]
    ensures n <= |a| && n <= |b| && a[..n] == b[..n]
    ensures n < |a| && n < |b| ==> a[n] != b[n]
    decreases |a| - k
  {
    if k < |a| && k < |b| && a[k] == b[k] then
      assert a[..k + 1] == a[..k] + [a[k]] && b[..k + 1] == b[..k] + [b[k]];
      CommonFrom(a, b, k + 1)
    else k
  }

  /** The length of the longest common prefix. */
  function Common(a: string, b: string): (n: nat)
    ensures n <= |a| && n <= |b| && a[..n] == b[..n]
    ensures n < |a| && n < |b| ==> a[n] != b[n]
  {
    CommonFrom(a, b, 0)
  }

  /** A span that reaches beyond the unrevised prefix is stretched to the end of the new text. */
  function Stretched(span: Extent, common: nat, length: nat): Extent {
    if span.end > common then Extent(Min(span.start, common), length) else span
  }

  /** Every span after a new text; the new token's comes last. */
  function Reassigned(spans: seq<Extent>, common: nat, length: nat): (r: seq<Extent>)
    ensures |r| == |spans| + 1 && r[|spans|] == Extent(common, length)
    ensures forall k {:trigger r[k]} {:trigger spans[k]} :: 0 <= k < |spans| ==>
              r[k] == Stretched(spans[k], common, length)
  {
    seq(|spans|, k requires 0 <= k < |spans| => Stretched(spans[k], common, length)) + [Extent(common, length)]
  }

  /** The text decoded before token i. */
  function Before(g: seq<string>, i: nat): string
    requires i <= |g|
  {
    if i == 0 then "" else g[i - 1]
  }

  /** The spans after n tokens. */
  function SpansAfter(g: seq<string>, n: nat): (spans: seq<Extent>)
    requires n <= |g|
    ensures |spans| == n
  {
    if n == 0 then []
    else Reassigned(SpansAfter(g, n - 1), Common(Before(g, n - 1), g[n - 1]), |g[n - 1]|)
  }

  // ---------------------------------------------------------------- the loop

  method CommonPrefix(a: string, b: string) returns (n: nat)
    ensures n == Common(a, b)
  {
    n := 0;
    while n < |a| && n < |b| && a[n] == b[n]
      invariant n <= |a| && n <= |b| && a[..n] == b[..n]
    {
      n := n + 1;
    }
    CommonIsMaximal(a, b, n);
    CommonIsMaximal(b, a, n);
  }

  lemma CommonIsMaximal(a: string, b: string, n: nat)
    requires n <= |a| && n <= |b| && a[..n] == b[..n]
    ensures n <= Common(a, b)
    ensures (n == |a| || n == |b| || a[n] != b[n]) ==> n == Common(a, b)
  {
    var c := Common(a, b);
    if n < c {
      assert a[..c][n] == b[..c][n];
    }
  }

  /** What the decoder said after each token, without the decoded prompt; None when it revised the prompt. */
  function Suffixes(prompt: string, decoded: seq<string>, n: nat): Option<seq<string>>
    requires n <= |decoded|
  {
    if n == 0 then Some([])
    else
      var before := Suffixes(prompt, decoded, n - 1);
      if before == None || !(prompt <= decoded[n - 1]) then None
      else Some(before.value + [decoded[n - 1][|prompt|..]])
  }

  /** Rewrite the spans in place, in order, then append the new token's. */
  method Reassign(spans: seq<Extent>, common: nat, length: nat) returns (r: seq<Extent>)
    ensures r == Reassigned(spans, common, length)
  {
    r := spans;
    for k := 0 to |spans|
      invariant |r| == |spans|
      invariant forall j :: 0 <= j < k ==> r[j] == Reassigned(spans, common, length)[j]
      invariant forall j :: k <= j < |spans| ==> r[j] == spans[j]
    {
      if r[k].end > common {
        r := r[k := Extent(Min(r[k].start, common), length)];
      }
    }
    r := r + [Extent(common, length)];
  }

  /** Decode token after token; refuse a decoder that revises the prompt, and track every token's characters. */
  method TrackOffsets(prompt: string, decoded: seq<string>) returns (r: Option<(string, seq<Extent>)>)
    ensures var g := Suffixes(prompt, decoded, |decoded|);
            r == if g == None then None else Some((Before(g.value, |g.value|), SpansAfter(g.value, |g.value|)))
  {
    var suffix, spans := "", [];
    ghost var g: seq<string> := [];
    for i := 0 to |decoded|
      invariant Suffixes(prompt, decoded, i) == Some(g) && |g| == i
      invariant suffix == Before(g, i) && spans == SpansAfter(g, i)
    {
      if !(prompt <= decoded[i]) {
        RefusedForGood(prompt, decoded, i + 1, |decoded|);
        return None;
      }
      var grown := decoded[i][|prompt|..];
      var common := CommonPrefix(suffix, grown);
      spans := Reassign(spans, common, |grown|);
      SpansOfPrefix(g, [grown], i);
      suffix, g := grown, g + [grown];
    }
    r := Some((suffix, spans));
  }

  lemma {:induction false} RefusedForGood(prompt: string, decoded: seq<string>, i: nat, n: nat)
    requires i <= n <= |decoded| && Suffixes(prompt, decoded, i) == None
    ensures Suffixes(prompt, decoded, n) == None
  {
    if i < n {
      RefusedForGood(prompt, decoded, i, n - 1);
    }
  }

  lemma {:induction false} SpansOfPrefix(g: seq<string>, more: seq<string>, n: nat)
    requires n <= |g|
    ensures SpansAfter(g + more, n) == SpansAfter(g, n)
  {
    if n > 0 {
      SpansOfPrefix(g, more, n - 1);
    }
  }

  // ---------------------------------------------------------------- the shape of the spans

  predicate Bounded(span: Extent, length: nat) {
    span.start <= span.end <= length
  }

  predicate OrderedAt(spans: seq<Extent>, k: nat, l: nat)
    requires k < |spans| && l < |spans|
  {
    spans[k].start <= spans[l].start && spans[k].end <= spans[l].end
  }

  predicate NoGapAt(spans: seq<Extent>, k: nat)
    requires k + 1 < |spans|
  {
    spans[k + 1].start <= spans[k].end
  }

  /** Starts and ends never decrease, and no span reaches beyond the text. */
  ghost predicate InOrder(spans: seq<Extent>, length: nat) {
    && (forall k {:trigger spans[k]} :: 0 <= k < |spans| ==> Bounded(spans[k], length))
    && (forall k, l {:trigger OrderedAt(spans, k, l)} :: 0 <= k < l < |spans| ==> OrderedAt(spans, k, l))
  }

  /** From character 0, without a gap, up to the end of the text. */
  ghost predicate Covering(spans: seq<Extent>, length: nat) {
    && (forall k {:trigger NoGapAt(spans, k)} :: 0 <= k < |spans| - 1 ==> NoGapAt(spans, k))
    && (|spans| > 0 ==> spans[0].start == 0 && spans[|spans| - 1].end == length)
  }

  ghost predicate Tidy(spans: seq<Extent>, length: nat) {
    InOrder(spans, length) && Covering(spans, length)
  }

  lemma ReassignedIsOrdered(spans: seq<Extent>, previous: nat, common: nat, length: nat)
    requires InOrder(spans, previous) && common <= length
    ensures InOrder(Reassigned(spans, common, length), length)
  {
    var r := Reassigned(spans, common, length);
    forall k, l | 0 <= k < l < |r| ensures OrderedAt(r, k, l) {
      assert Bounded(spans[k], previous);
      assert l < |spans| ==> OrderedAt(spans, k, l);
    }
  }

  lemma ReassignedCovers(spans: seq<Extent>, previous: nat, common: nat, length: nat)
    requires Tidy(spans, previous) && common <= previous && common <= length && (|spans| == 0 ==> common == 0)
    ensures Covering(Reassigned(spans, common, length), length)
  {
    var r := Reassigned(spans, common, length);
    forall k | 0 <= k < |r| - 1 ensures NoGapAt(r, k) {
      assert k + 1 < |spans| ==> NoGapAt(spans, k) && OrderedAt(spans, k, k + 1);
    }
    assert |spans| > 0 ==> r[0] == Stretched(spans[0], common, length);
  }

  lemma ReassignedIsTidy(spans: seq<Extent>, previous: nat, common: nat, length: nat)
    requires Tidy(spans, previous) && common <= previous && common <= length && (|spans| == 0 ==> common == 0)
    ensures Tidy(Reassigned(spans, common, length), length)
  {
    ReassignedIsOrdered(spans, previous, common, length);
    ReassignedCovers(spans, previous, common, length);
  }

  lemma {:induction false} SpansAreTidy(g: seq<string>, n: nat)
    requires n <= |g|
    ensures Tidy(SpansAfter(g, n), |Before(g, n)|)
  {
    if n > 0 {
      SpansAreTidy(g, n - 1);
      ReassignedIsTidy(SpansAfter(g, n - 1), |Before(g, n - 1)|, Common(Before(g, n - 1), g[n - 1]), |g[n - 1]|);
    }
  }

  /** Every span lies inside the text. */
  lemma SpanInside(g: seq<string>, n: nat, i: nat)
    requires i < n <= |g|
    ensures SpansAfter(g, n)[i].start <= SpansAfter(g, n)[i].end <= |g[n - 1]|
  {
    SpansAreTidy(g, n);
    assert Bounded(SpansAfter(g, n)[i], |Before(g, n)|);
  }

  // ---------------------------------------------------------------- what the spans mean

  /** The first `length` characters were there before token i and no token from i to n - 1 changed them. */
  ghost predicate Untouched(g: seq<string>, i: nat, n: nat, length: nat)
    requires i <= n <= |g|
  {
    forall k {:trigger Before(g, k)} :: i <= k <= n ==>
      length <= |Before(g, k)| && length <= |Before(g, i)| && Before(g, k)[..length] == Before(g, i)[..length]
  }

  predicate StillThere(g: seq<string>, j: nat, k: nat)
    requires j < |g| && k <= |g|
  {
    g[j] <= Before(g, k)
  }

  /** The text decoded after token j is a prefix of everything decoded later. */
  ghost predicate Final(g: seq<string>, j: nat, n: nat)
    requires j < n <= |g|
  {
    forall k {:trigger StillThere(g, j, k)} :: j + 1 <= k <= n ==> StillThere(g, j, k)
  }

  ghost predicate FirstFinal(g: seq<string>, i: nat, j: nat, n: nat)
    requires i <= j < n <= |g|
  {
    Final(g, j, n) && forall other {:trigger Final(g, other, n)} :: i <= other < j ==> !Final(g, other, n)
  }

  /** The span starts exactly where the characters untouched since before token i end. */
  ghost predicate StartsAtRevision(g: seq<string>, i: nat, n: nat, start: nat)
    requires i <= n <= |g|
  {
    Untouched(g, i, n, start) && forall length: nat {:trigger Untouched(g, i, n, length)} ::
      Untouched(g, i, n, length) ==> length <= start
  }

  /** The span ends exactly where the first final text from token i on ends. */
  ghost predicate EndsAtFinalText(g: seq<string>, i: nat, n: nat, end: nat)
    requires i < n <= |g|
  {
    exists j {:trigger FirstFinal(g, i, j, n)} :: i <= j < n && FirstFinal(g, i, j, n) && |g[j]| == end
  }

  lemma UntouchedStep(g: seq<string>, i: nat, n: nat, start: nat, end: nat)
    requires i < n < |g| && StartsAtRevision(g, i, n, start) && start <= end
    ensures var c := Common(Before(g, n), g[n]);
            StartsAtRevision(g, i, n + 1, if end > c then Min(start, c) else start)
  {
    var c := Common(Before(g, n), g[n]);
    var now := if end > c then Min(start, c) else start;
    assert Before(g, n) == g[n - 1] && Before(g, n + 1) == g[n];
    forall k | i <= k <= n + 1
      ensures now <= |Before(g, k)| && Before(g, k)[..now] == Before(g, i)[..now]
    {
      Shorter(Before(g, if k <= n then k else n), Before(g, i), start, now);
      Shorter(g[n - 1], g[n], c, now);
    }
    forall length: nat {:trigger Untouched(g, i, n + 1, length)} | Untouched(g, i, n + 1, length)
      ensures length <= now
    {
      assert Untouched(g, i, n, length);
      CommonIsMaximal(Before(g, n), Before(g, n + 1), length);
    }
  }

  lemma Shorter(a: string, b: string, n: nat, m: nat)
    requires m <= n <= |a| && n <= |b| && a[..n] == b[..n]
    ensures a[..m] == b[..m]
  {
    assert a[..m] == a[..n][..m];
  }

  lemma PrefixOfBoth(text: string, a: string, b: string)
    requires text <= a
    ensures text <= b <==> |text| <= Common(a, b)
  {
    if text <= b {
      CommonIsMaximal(a, b, |text|);
    }
  }

  /** A text stays final through one more token exactly when it lies within the unrevised prefix. */
  lemma FinalOneMore(g: seq<string>, j: nat, n: nat)
    requires j < n < |g|
    ensures Final(g, j, n + 1) <==> Final(g, j, n) && |g[j]| <= Common(Before(g, n), g[n])
  {
    if Final(g, j, n) {
      assert StillThere(g, j, n);
      PrefixOfBoth(g[j], Before(g, n), g[n]);
    }
    if Final(g, j, n + 1) {
      assert forall k {:trigger StillThere(g, j, k)} :: j + 1 <= k <= n ==> StillThere(g, j, k);
      assert StillThere(g, j, n) && StillThere(g, j, n + 1);
      PrefixOfBoth(g[j], Before(g, n), g[n]);
    }
  }

  /** While a text is final, later texts are no shorter. */
  lemma LaterIsLonger(g: seq<string>, j: nat, other: nat, n: nat)
    requires j <= other < n <= |g| && Final(g, j, n)
    ensures |g[j]| <= |g[other]|
  {
    assert StillThere(g, j, other + 1);
  }

  lemma FinalStep(g: seq<string>, i: nat, n: nat, end: nat)
    requires i < n < |g| && EndsAtFinalText(g, i, n, end)
    ensures EndsAtFinalText(g, i, n + 1, if end > Common(Before(g, n), g[n]) then |g[n]| else end)
  {
    var j :| i <= j < n && FirstFinal(g, i, j, n) && |g[j]| == end;
    forall other {:trigger Final(g, other, n + 1)} | i <= other < n
      ensures Final(g, other, n + 1) ==> other >= j && end <= Common(Before(g, n), g[n])
    {
      FinalOneMore(g, other, n);
      if Final(g, other, n) && other >= j {
        LaterIsLonger(g, j, other, n);
      }
    }
    FinalOneMore(g, j, n);
    if end > Common(Before(g, n), g[n]) {
      assert StillThere(g, n, n + 1);
      assert FirstFinal(g, i, n, n + 1);
    } else {
      assert FirstFinal(g, i, j, n + 1);
    }
  }

  /** A span means what it should after n tokens. */
  ghost predicate Meant(g: seq<string>, i: nat, n: nat, span: Extent)
    requires i < n <= |g|
  {
    StartsAtRevision(g, i, n, span.start) && EndsAtFinalText(g, i, n, span.end)
  }

  lemma NewToken(g: seq<string>, n: nat, span: Extent)
    requires n < |g| && span == Extent(Common(Before(g, n), g[n]), |g[n]|)
    ensures Meant(g, n, n + 1, span)
  {
    assert Before(g, n + 1) == g[n];
    forall length: nat {:trigger Untouched(g, n, n + 1, length)} | Untouched(g, n, n + 1, length)
      ensures length <= Common(Before(g, n), g[n])
    {
      CommonIsMaximal(Before(g, n), Before(g, n + 1), length);
    }
    assert StillThere(g, n, n + 1);
    assert FirstFinal(g, n, n, n + 1);
  }

  lemma MeantStep(g: seq<string>, i: nat, n: nat, span: Extent, next: Extent)
    requires i < n < |g| && Meant(g, i, n, span) && span.start <= span.end
    requires next == Stretched(span, Common(Before(g, n), g[n]), |g[n]|)
    ensures Meant(g, i, n + 1, next)
  {
    UntouchedStep(g, i, n, span.start, span.end);
    FinalStep(g, i, n, span.end);
  }

  lemma SpanStep(g: seq<string>, i: nat, n: nat)
    requires i < n < |g|
    ensures SpansAfter(g, n + 1)[i] == Stretched(SpansAfter(g, n)[i], Common(Before(g, n), g[n]), |g[n]|)
    ensures SpansAfter(g, n)[i].start <= SpansAfter(g, n)[i].end
  {
    SpansAreTidy(g, n);
    assert Bounded(SpansAfter(g, n)[i], |Before(g, n)|);
  }

  lemma NewSpan(g: seq<string>, n: nat, i: nat)
    requires i + 1 == n <= |g|
    ensures Meant(g, i, n, SpansAfter(g, n)[i])
  {
    NewToken(g, i, SpansAfter(g, n)[i]);
  }

  lemma SpansMeanStep(g: seq<string>, before: nat, n: nat, i: nat)
    requires i < before < n == before + 1 <= |g| && Meant(g, i, before, SpansAfter(g, before)[i])
    ensures Meant(g, i, n, SpansAfter(g, n)[i])
  {
    SpanStep(g, i, before);
    MeantStep(g, i, before, SpansAfter(g, before)[i], SpansAfter(g, n)[i]);
  }

  /**
   Token i's span, in terms of the decoded texts alone: it starts after the longest prefix that no token from i on
   touched, and ends with the first text from token i on that nothing later revised.
   */
  lemma {:induction false} SpansMean(g: seq<string>, n: nat, i: nat)
    requires i < n <= |g|
    ensures Meant(g, i, n, SpansAfter(g, n)[i])
  {
    if i == n - 1 {
      NewSpan(g, n, i);
    } else {
      SpansMean(g, n - 1, i);
      SpansMeanStep(g, n - 1, n, i);
    }
  }

  lemma SpanMeansInside(g: seq<string>, n: nat, i: nat, span: Extent)
    requires i < n <= |g| && |SpansAfter(g, n)| == n && span == SpansAfter(g, n)[i]
    ensures Meant(g, i, n, span) && span.start <= span.end <= |g[n - 1]|
  {
    SpansMean(g, n, i);
    SpanInside(g, n, i);
  }

  // ---------------------------------------------------------------- when tokens share characters

  predicate DisjointAt(spans: seq<Extent>, k: nat, l: nat)
    requires k < |spans| && l < |spans|
  {
    spans[k].end <= spans[l].start
  }

  ghost predicate Disjoint(spans: seq<Extent>) {
    forall k, l {:trigger DisjointAt(spans, k, l)} :: 0 <= k < l < |spans| ==> DisjointAt(spans, k, l)
  }

  ghost predicate DisjointAfter(g: seq<string>, n: nat)
    requires n <= |g|
  {
    Disjoint(SpansAfter(g, n))
  }

  /** A token that only appends to the text, or only cuts its end off. */
  predicate AppendsOrTruncates(g: seq<string>, n: nat)
    requires n < |g|
  {
    Before(g, n) <= g[n] || g[n] <= Before(g, n)
  }

  lemma StaysDisjoint(spans: seq<Extent>, previous: nat, common: nat, length: nat)
    requires Tidy(spans, previous) && Disjoint(spans) && (common == previous || (common == length <= previous))
    ensures Disjoint(Reassigned(spans, common, length))
  {
    var r := Reassigned(spans, common, length);
    forall k, l | 0 <= k < l < |r| ensures DisjointAt(r, k, l) {
      assert Bounded(spans[k], previous);
      assert l < |spans| ==> DisjointAt(spans, k, l);
    }
  }

  lemma BecomesShared(spans: seq<Extent>, previous: nat, common: nat, length: nat)
    requires Tidy(spans, previous) && |spans| > 0 && common < previous && common < length
    ensures !Disjoint(Reassigned(spans, common, length))
  {
    var r, last := Reassigned(spans, common, length), |spans| - 1;
    assert r[last] == Stretched(spans[last], common, length);
    assert !DisjointAt(r, last, |spans|);
  }

  lemma DisjointStep(g: seq<string>, n: nat)
    requires n < |g| && Disjoint(SpansAfter(g, n))
    ensures Disjoint(SpansAfter(g, n + 1)) <==> AppendsOrTruncates(g, n)
  {
    var before, now := Before(g, n), g[n];
    var c := Common(before, now);
    SpansAreTidy(g, n);
    PrefixOrParts(before, now);
    if AppendsOrTruncates(g, n) {
      StaysDisjoint(SpansAfter(g, n), |before|, c, |now|);
    } else {
      BecomesShared(SpansAfter(g, n), |before|, c, |now|);
    }
  }

  lemma PrefixOrParts(a: string, b: string)
    ensures a <= b ==> Common(a, b) == |a|
    ensures b <= a ==> Common(a, b) == |b|
    ensures !(a <= b) && !(b <= a) ==> Common(a, b) < |a| && Common(a, b) < |b|
  {
    var c := Common(a, b);
    if a <= b {
      CommonIsMaximal(a, b, |a|);
    } else if b <= a {
      CommonIsMaximal(a, b, |b|);
    } else {
      assert a[..c] == b[..c];
    }
  }

  /**
   The spans are pairwise disjoint after every token if and only if every token only appends or only truncates.
   */
  lemma {:induction false} DisjointThroughout(g: seq<string>, n: nat)
    requires n <= |g|
    ensures (forall m {:trigger DisjointAfter(g, m)} :: 0 <= m <= n ==> DisjointAfter(g, m))
            <==> (forall m {:trigger AppendsOrTruncates(g, m)} :: 0 <= m < n ==> AppendsOrTruncates(g, m))
  {
    if n > 0 {
      DisjointThroughout(g, n - 1);
      OneMoreDisjoint(g, n - 1);
      ThroughoutOneMore(g, n - 1, n);
    }
  }

  /** Both sides of the equivalence, one token further. */
  lemma ThroughoutOneMore(g: seq<string>, before: nat, n: nat)
    requires before < n == before + 1 <= |g|
    ensures (forall m {:trigger DisjointAfter(g, m)} :: 0 <= m <= n ==> DisjointAfter(g, m))
       <==> (forall m {:trigger DisjointAfter(g, m)} :: 0 <= m <= before ==> DisjointAfter(g, m)) && DisjointAfter(g, n)
    ensures (forall m {:trigger AppendsOrTruncates(g, m)} :: 0 <= m < n ==> AppendsOrTruncates(g, m))
       <==> (forall m {:trigger AppendsOrTruncates(g, m)} :: 0 <= m < before ==> AppendsOrTruncates(g, m))
            && AppendsOrTruncates(g, before)
  {
  }

  lemma OneMoreDisjoint(g: seq<string>, n: nat)
    requires n < |g|
    ensures DisjointAfter(g, n) ==> (DisjointAfter(g, n + 1) <==> AppendsOrTruncates(g, n))
  {
    if DisjointAfter(g, n) {
      DisjointStep(g, n);
    }
  }

  // ---------------------------------------------------------------- when the spans returned share characters

  /** The first text from token i on that nothing later revised is a prefix of every text from token i on. */
  ghost predicate Settles(g: seq<string>, i: nat, n: nat)
    requires i < n <= |g|
  {
    exists j {:trigger FirstFinal(g, i, j, n)} :: i <= j < n && FirstFinal(g, i, j, n) && ThereSince(g, i, j, n)
  }

  ghost predicate ThereSince(g: seq<string>, i: nat, j: nat, n: nat)
    requires i <= j < n <= |g|
  {
    forall k {:trigger StillThere(g, j, k)} :: i + 1 <= k <= n ==> StillThere(g, j, k)
  }

  lemma PrefixMeans(a: string, b: string, c: string)
    requires a <= b
    ensures a <= c <==> |a| <= |c| && c[..|a|] == b[..|a|]
  {
  }

  /** A text stands since token i exactly when that many characters are untouched since then. */
  lemma UntouchedIsThere(g: seq<string>, i: nat, j: nat, n: nat)
    requires i <= j < n <= |g|
    ensures Untouched(g, i + 1, n, |g[j]|) <==> ThereSince(g, i, j, n)
  {
    assert Before(g, j + 1) == g[j] && Before(g, i + 1) == g[i];
    if Untouched(g, i + 1, n, |g[j]|) {
      forall k | i + 1 <= k <= n ensures StillThere(g, j, k) {
        assert Before(g, j + 1)[..|g[j]|] == Before(g, i + 1)[..|g[j]|] == Before(g, k)[..|g[j]|];
      }
    }
    if ThereSince(g, i, j, n) {
      assert StillThere(g, j, i + 1);
      forall k | i + 1 <= k <= n
        ensures |g[j]| <= |Before(g, k)| && |g[j]| <= |Before(g, i + 1)|
        ensures Before(g, k)[..|g[j]|] == Before(g, i + 1)[..|g[j]|]
      {
        assert StillThere(g, j, k);
        PrefixMeans(g[j], Before(g, k), Before(g, i + 1));
      }
    }
  }

  lemma UntouchedShorter(g: seq<string>, i: nat, n: nat, length: nat, shorter: nat)
    requires i <= n <= |g| && shorter <= length && Untouched(g, i, n, length)
    ensures Untouched(g, i, n, shorter)
  {
    forall k | i <= k <= n ensures Before(g, k)[..shorter] == Before(g, i)[..shorter] {
      Shorter(Before(g, k), Before(g, i), length, shorter);
    }
  }

  lemma FirstFinalIsOne(g: seq<string>, i: nat, j: nat, l: nat, n: nat)
    requires i <= j < n <= |g| && i <= l < n && FirstFinal(g, i, j, n) && FirstFinal(g, i, l, n)
    ensures j == l
  {
    assert Final(g, j, n) && Final(g, l, n);
  }

  /** The text a span ends with. */
  lemma EndsAt(g: seq<string>, i: nat, n: nat) returns (j: nat)
    requires i < n <= |g|
    ensures |SpansAfter(g, n)| == n && i <= j < n && FirstFinal(g, i, j, n) && |g[j]| == SpansAfter(g, n)[i].end
  {
    SpansMean(g, n, i);
    j :| i <= j < n && FirstFinal(g, i, j, n) && |g[j]| == SpansAfter(g, n)[i].end;
  }

  /** Two neighbours are apart exactly when the first one's settled text was never disturbed from the second on. */
  lemma NeighboursApart(g: seq<string>, i: nat, n: nat)
    requires i + 1 < n <= |g|
    ensures DisjointAt(SpansAfter(g, n), i, i + 1) <==> Settles(g, i, n)
  {
    SpansMean(g, n, i + 1);
    var end, start := SpansAfter(g, n)[i].end, SpansAfter(g, n)[i + 1].start;
    var j := EndsAt(g, i, n);
    UntouchedIsThere(g, i, j, n);
    if end <= start {
      UntouchedShorter(g, i + 1, n, start, end);
    }
    if Settles(g, i, n) {
      var l :| i <= l < n && FirstFinal(g, i, l, n) && ThereSince(g, i, l, n);
      FirstFinalIsOne(g, i, j, l, n);
    }
  }

  predicate NextApart(spans: seq<Extent>, i: nat)
    requires i + 1 < |spans|
  {
    DisjointAt(spans, i, i + 1)
  }

  ghost predicate AllNextApart(spans: seq<Extent>) {
    forall i {:trigger NextApart(spans, i)} :: 0 <= i < |spans| - 1 ==> NextApart(spans, i)
  }

  lemma ApartFromNeighbours(spans: seq<Extent>, length: nat)
    requires InOrder(spans, length)
    ensures Disjoint(spans) <==> AllNextApart(spans)
  {
    if AllNextApart(spans) {
      forall k, l | 0 <= k < l < |spans| ensures DisjointAt(spans, k, l) {
        assert NextApart(spans, l - 1);
        assert k < l - 1 ==> OrderedAt(spans, k, l - 1);
      }
    }
    if Disjoint(spans) {
      forall i | 0 <= i < |spans| - 1 ensures NextApart(spans, i) {
        assert DisjointAt(spans, i, i + 1);
      }
    }
  }

  /**
   The spans returned are pairwise disjoint if and only if every token's settled text, the first from that token on that
   nothing later revised, is a prefix of everything decoded from that token on.
   */
  lemma DisjointAtTheEnd(g: seq<string>, n: nat)
    requires n <= |g|
    ensures DisjointAfter(g, n) <==> forall i {:trigger Settles(g, i, n)} :: 0 <= i < n - 1 ==> Settles(g, i, n)
  {
    SpansAreTidy(g, n);
    ApartFromNeighbours(SpansAfter(g, n), |Before(g, n)|);
    forall i | 0 <= i < n - 1 ensures NextApart(SpansAfter(g, n), i) <==> Settles(g, i, n) {
      NeighboursApart(g, i, n);
    }
    if forall i {:trigger Settles(g, i, n)} :: 0 <= i < n - 1 ==> Settles(g, i, n) {
      forall i | 0 <= i < n - 1 ensures NextApart(SpansAfter(g, n), i) {
        assert Settles(g, i, n);
      }
    }
  }

  /** If the decoder only ever appends, token i's span is exactly what it appended. */
  lemma {:induction false} AppendedSpan(g: seq<string>, n: nat, i: nat)
    requires i < n <= |g| && forall m {:trigger Before(g, m)} :: 0 <= m < n ==> Before(g, m) <= g[m]
    ensures SpansAfter(g, n)[i] == Extent(|Before(g, i)|, |g[i]|)
  {
    PrefixOrParts(Before(g, n - 1), g[n - 1]);
    assert Before(g, n - 1) <= g[n - 1];
    if i < n - 1 {
      AppendedSpan(g, n - 1, i);
      SpansAreTidy(g, n - 1);
      NothingStretched(SpansAfter(g, n - 1), |Before(g, n - 1)|, |g[n - 1]|, i);
    }
  }

  lemma NothingStretched(spans: seq<Extent>, previous: nat, length: nat, i: nat)
    requires InOrder(spans, previous) && i < |spans|
    ensures Reassigned(spans, previous, length)[i] == spans[i]
  {
    assert Bounded(spans[i], previous);
  }
}
