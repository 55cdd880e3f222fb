/**
 The bounded least-recently-used cache in front of per-example position resolution. Its keys are always the most
 recently used distinct ones, in recency order; a hit is a recomputation exactly under the key discipline the cache
 assumes, and that discipline is not guaranteed, because the key holds the filled text but not the template.
 */
module PositionCache {
  import opened Recency
  import opened Wrappers
  import opened Templates
  import opened TokenPositions

  /** A tokenizer's identity, whether its chat template applies, and the filled text. */
  datatype Key = Key(tokenizer: string, chat: bool, text: string)

  type Tokens = map<string, seq<int>>

  // ---------------------------------------------------------------- one lookup, as a value

  type Entries = seq<(Key, Tokens)>

  function KeysOf(entries: Entries): seq<Key> {
    seq(|entries|, i requires 0 <= i < |entries| => entries[i].0)
  }

  /** What an entry list answers for a key. */
  function Cached(entries: Entries, key: Key): Option<Tokens> {
    if entries == [] then None
    else if entries[|entries| - 1].0 == key then Some(entries[|entries| - 1].1)
    else Cached(entries[..|entries| - 1], key)
  }

  function WithoutKey(entries: Entries, key: Key): Entries {
    if entries == [] then []
    else WithoutKey(entries[..|entries| - 1], key)
         + if entries[|entries| - 1].0 == key then [] else [entries[|entries| - 1]]
  }

  function Answer(entries: Entries, key: Key, positions: map<string, seq<Span>>, e: Encoding): Option<Tokens> {
    var cached := Cached(entries, key);
    if cached.Some? then cached else AllTokens(e, positions)
  }

  /** The entries after a key was used with a value: it is the most recent, and the oldest ones fall out. */
  function Touch(entries: Entries, key: Key, value: Tokens, capacity: nat): Entries {
    LastOf(WithoutKey(entries, key) + [(key, value)], capacity)
  }

  lemma KeysOfFront(entries: Entries, n: nat)
    requires |entries| == n + 1
    ensures KeysOf(entries)[..n] == KeysOf(entries[..n]) && KeysOf(entries)[n] == entries[n].0
  {
  }

  lemma KeysOfConcat(a: Entries, b: Entries)
    ensures KeysOf(a + b) == KeysOf(a) + KeysOf(b)
  {
  }

  lemma KeysOfOne(x: (Key, Tokens))
    ensures KeysOf([x]) == [x.0] && KeysOf([]) == []
  {
  }

  /** Dropping a key's entry drops the key. */
  lemma {:induction false} KeysOfWithout(entries: Entries, key: Key)
    ensures KeysOf(WithoutKey(entries, key)) == Without(KeysOf(entries), key)
  {
    if entries != [] {
      var n := |entries| - 1;
      KeysOfWithout(entries[..n], key);
      KeysOfFront(entries, n);
      KeysOfOne(entries[n]);
      KeysOfConcat(WithoutKey(entries[..n], key), if entries[n].0 == key then [] else [entries[n]]);
    }
  }

  lemma {:induction false} CachedIsThere(entries: Entries, key: Key)
    ensures Cached(entries, key).Some? <==> key in KeysOf(entries)
    ensures Cached(entries, key).Some? ==> (key, Cached(entries, key).value) in entries
  {
    if entries != [] {
      var n := |entries| - 1;
      CachedIsThere(entries[..n], key);
      KeysOfFront(entries, n);
      FrontAndLast(KeysOf(entries));
    }
  }

  lemma KeysAfterTouch(entries: Entries, key: Key, value: Tokens, capacity: nat, used: seq<Key>)
    requires capacity > 0 && KeysOf(entries) == LastOf(ByRecency(used), capacity)
    ensures KeysOf(Touch(entries, key, value, capacity)) == LastOf(ByRecency(used + [key]), capacity)
  {
    KeysOfWithout(entries, key);
    UseAfterCut(used, key, capacity);
    KeysOfAppend(WithoutKey(entries, key), key, value, capacity);
  }

  lemma KeysOfAppend(entries: Entries, key: Key, value: Tokens, n: nat)
    ensures KeysOf(LastOf(entries + [(key, value)], n)) == LastOf(KeysOf(entries) + [key], n)
  {
    assert KeysOf(entries + [(key, value)]) == KeysOf(entries) + [key];
    assert KeysOf(LastOf(entries + [(key, value)], n)) == LastOf(KeysOf(entries + [(key, value)]), n);
  }

  // ---------------------------------------------------------------- whole runs

  /** One filled template, looked up under its key. */
  datatype Request = Request(key: Key, positions: map<string, seq<Span>>)

  /** What a cache of this bound does: its bound, and the encoding of each key's text. */
  datatype Setup = Setup(capacity: nat, encode: Key -> Encoding)

  /** What the lookup should give: the tokens of the request's own spans. */
  function Recomputed(u: Setup, q: Request): Option<Tokens> {
    AllTokens(u.encode(q.key), q.positions)
  }

  /** The entries after a run of requests; a refused one leaves them as they are. */
  function EntriesAfter(u: Setup, h: seq<Request>): Entries {
    if h == [] then []
    else
      var before, q := EntriesAfter(u, h[..|h| - 1]), h[|h| - 1];
      var r := Answer(before, q.key, q.positions, u.encode(q.key));
      if r == None then before else Touch(before, q.key, r.value, u.capacity)
  }

  /** What a run of requests is followed by for one more. */
  function Reply(u: Setup, h: seq<Request>, q: Request): Option<Tokens> {
    Answer(EntriesAfter(u, h), q.key, q.positions, u.encode(q.key))
  }

  /** The keys of the requests that were not refused. */
  function Used(u: Setup, h: seq<Request>): seq<Key> {
    if h == [] then []
    else
      var before, q := Used(u, h[..|h| - 1]), h[|h| - 1];
      if Reply(u, h[..|h| - 1], q) == None then before else before + [q.key]
  }

  /** For every key ever stored, the spans of the fill that last missed. */
  function Origins(u: Setup, h: seq<Request>): map<Key, map<string, seq<Span>>> {
    if h == [] then map[]
    else
      var before, q := Origins(u, h[..|h| - 1]), h[|h| - 1];
      if Cached(EntriesAfter(u, h[..|h| - 1]), q.key) == None && Recomputed(u, q).Some? then
        before[q.key := q.positions]
      else before
  }

  lemma OneMoreRequest(u: Setup, h: seq<Request>, q: Request)
    ensures var r := Reply(u, h, q);
            && EntriesAfter(u, h + [q])
              == (if r == None then EntriesAfter(u, h) else Touch(EntriesAfter(u, h), q.key, r.value, u.capacity))
            && Used(u, h + [q]) == (if r == None then Used(u, h) else Used(u, h) + [q.key])
            && Origins(u, h + [q]) == (if Cached(EntriesAfter(u, h), q.key) == None && Recomputed(u, q).Some? then
                                         Origins(u, h)[q.key := q.positions]
                                       else Origins(u, h))
  {
    assert (h + [q])[..|h|] == h;
  }

  /** On every run the keys are the most recently used distinct ones, in recency order. */
  lemma {:induction false} KeysAreRecent(u: Setup, h: seq<Request>)
    requires u.capacity > 0
    ensures KeysOf(EntriesAfter(u, h)) == LastOf(ByRecency(Used(u, h)), u.capacity)
  {
    if h != [] {
      var front, q := h[..|h| - 1], h[|h| - 1];
      KeysAreRecent(u, front);
      var r := Reply(u, front, q);
      if r.Some? {
        KeysAfterTouch(EntriesAfter(u, front), q.key, r.value, u.capacity, Used(u, front));
      }
    }
  }

  /** Every entry holds the tokens of its origin. */
  predicate Explained(u: Setup, entries: Entries, origins: map<Key, map<string, seq<Span>>>) {
    forall i :: 0 <= i < |entries| ==>
      entries[i].0 in origins && Recomputed(u, Request(entries[i].0, origins[entries[i].0])) == Some(entries[i].1)
  }

  lemma ExplainedStep(u: Setup, entries: Entries, origins: map<Key, map<string, seq<Span>>>, q: Request)
    requires Explained(u, entries, origins) && Answer(entries, q.key, q.positions, u.encode(q.key)).Some?
    ensures var r := Answer(entries, q.key, q.positions, u.encode(q.key));
            var now := if Cached(entries, q.key) == None then origins[q.key := q.positions] else origins;
            Explained(u, Touch(entries, q.key, r.value, u.capacity), now)
  {
    var r := Answer(entries, q.key, q.positions, u.encode(q.key));
    var now := if Cached(entries, q.key) == None then origins[q.key := q.positions] else origins;
    CachedIsThere(entries, q.key);
    var after := Touch(entries, q.key, r.value, u.capacity);
    forall i | 0 <= i < |after|
      ensures after[i].0 in now && Recomputed(u, Request(after[i].0, now[after[i].0])) == Some(after[i].1)
    {
      var x := after[i];
      if x in WithoutKey(entries, q.key) {
        OthersStay(entries, q.key, x);
      } else {
        assert x == (q.key, r.value);
      }
    }
  }

  lemma {:induction false} OthersStay(entries: Entries, key: Key, x: (Key, Tokens))
    requires x in WithoutKey(entries, key)
    ensures x in entries && x.0 != key
  {
    if entries != [] {
      var front := entries[..|entries| - 1];
      if x in WithoutKey(front, key) {
        OthersStay(front, key, x);
      }
    }
  }

  lemma {:induction false} RunExplained(u: Setup, h: seq<Request>)
    ensures Explained(u, EntriesAfter(u, h), Origins(u, h))
  {
    if h != [] {
      var front, q := h[..|h| - 1], h[|h| - 1];
      RunExplained(u, front);
      if Reply(u, front, q).Some? {
        ExplainedStep(u, EntriesAfter(u, front), Origins(u, front), q);
      }
    }
  }

  /** The request that decided what is stored under q's key: the one that last missed, if there was one. */
  function OriginOf(u: Setup, h: seq<Request>, q: Request): Request {
    if q.key in Origins(u, h) then Request(q.key, Origins(u, h)[q.key]) else q
  }

  /**
   On every run a lookup gives the tokens of the key's origin on a hit and those of its own spans on a miss; so a hit
   is right exactly when the two have the same tokens.
   */
  lemma ReplyIsOrigin(u: Setup, h: seq<Request>, q: Request)
    ensures var hit := q.key in KeysOf(EntriesAfter(u, h));
            && (hit ==> q.key in Origins(u, h))
            && Reply(u, h, q) == Recomputed(u, if hit then OriginOf(u, h, q) else q)
  {
    var entries := EntriesAfter(u, h);
    RunExplained(u, h);
    CachedIsThere(entries, q.key);
    var cached := Cached(entries, q.key);
    if cached.Some? {
      var i :| 0 <= i < |entries| && entries[i] == (q.key, cached.value);
    }
  }

  /** Request i of a run found its key, or was refused. */
  predicate StoredNothing(u: Setup, h: seq<Request>, i: nat)
    requires i < |h|
  {
    Cached(EntriesAfter(u, h[..i]), h[i].key).Some? || Recomputed(u, h[i]) == None
  }

  /** Request i stored its key's tokens, and no later request of the key did. */
  predicate LastMiss(u: Setup, h: seq<Request>, i: nat, key: Key)
    requires i < |h|
  {
    && h[i].key == key && !StoredNothing(u, h, i) && NothingStoredSince(u, h, i, key)
  }

  /** No request of the key behind request i stored anything. */
  predicate NothingStoredSince(u: Setup, h: seq<Request>, i: nat, key: Key) {
    forall j {:trigger StoredNothing(u, h, j)} :: i < j < |h| && h[j].key == key ==> StoredNothing(u, h, j)
  }

  lemma StillStoredNothing(u: Setup, h: seq<Request>, front: seq<Request>, j: nat)
    requires j < |front| <= |h| && front == h[..|front|]
    ensures StoredNothing(u, h, j) == StoredNothing(u, front, j)
  {
    assert h[..j] == front[..j] && h[j] == front[j];
  }

  lemma StillLastMiss(u: Setup, h: seq<Request>, front: seq<Request>, i: nat, key: Key)
    requires |h| == |front| + 1 && front == h[..|front|] && i < |front| && LastMiss(u, front, i, key)
    requires h[|front|].key == key ==> StoredNothing(u, h, |front|)
    ensures LastMiss(u, h, i, key)
  {
    StillStoredNothing(u, h, front, i);
    forall j | i < j < |h| && h[j].key == key ensures StoredNothing(u, h, j) {
      if j < |front| {
        StillNothingStored(u, h, front, i, j, key);
      }
    }
  }

  lemma StillNothingStored(u: Setup, h: seq<Request>, front: seq<Request>, i: nat, j: nat, key: Key)
    requires |front| <= |h| && front == h[..|front|] && NothingStoredSince(u, front, i, key)
    requires i < j < |front| && h[j].key == key
    ensures StoredNothing(u, h, j)
  {
    assert h[j] == front[j];
    StillStoredNothing(u, h, front, j);
  }

  /** The origin of a key is the fill of the last request that missed and was not refused. */
  lemma {:induction false} OriginIsLastMiss(u: Setup, h: seq<Request>, key: Key) returns (i: nat)
    requires key in Origins(u, h)
    ensures i < |h| && LastMiss(u, h, i, key) && h[i].positions == Origins(u, h)[key]
  {
    var front, last := h[..|h| - 1], |h| - 1;
    if h[last].key == key && !StoredNothing(u, h, last) {
      i := last;
    } else {
      i := OriginIsLastMiss(u, front, key);
      StillLastMiss(u, h, front, i, key);
    }
  }

  /** Every lookup of a run gives what recomputing would. */
  ghost predicate RunIsRight(u: Setup, h: seq<Request>) {
    forall i {:trigger h[i]} :: 0 <= i < |h| ==> Reply(u, h[..i], h[i]) == Recomputed(u, h[i])
  }

  ghost predicate Over(requests: iset<Request>, h: seq<Request>) {
    forall i {:trigger h[i]} :: 0 <= i < |h| ==> h[i] in requests
  }

  /** Requests with one key have the same tokens. */
  ghost predicate KeysDecide(u: Setup, requests: iset<Request>) {
    forall a, b {:trigger Recomputed(u, a), Recomputed(u, b)} ::
      a in requests && b in requests && a.key == b.key ==> Recomputed(u, a) == Recomputed(u, b)
  }

  lemma HitsAreRecomputations(u: Setup, requests: iset<Request>, h: seq<Request>)
    requires KeysDecide(u, requests) && Over(requests, h)
    ensures RunIsRight(u, h)
  {
    forall i | 0 <= i < |h| ensures Reply(u, h[..i], h[i]) == Recomputed(u, h[i]) {
      var before, q := h[..i], h[i];
      ReplyIsOrigin(u, before, q);
      if q.key in KeysOf(EntriesAfter(u, before)) {
        var j := OriginIsLastMiss(u, before, q.key);
        assert h[j] in requests && OriginOf(u, before, q) == h[j];
      }
    }
  }

  /** A request that has tokens decides the answer to the next one with its key. */
  lemma SecondReply(u: Setup, a: Request, b: Request)
    requires u.capacity > 0 && a.key == b.key && Recomputed(u, a).Some?
    ensures Reply(u, [a], b) == Recomputed(u, a)
  {
    OneMoreRequest(u, [], a);
    assert [] + [a] == [a] && WithoutKey([], a.key) + [(a.key, Recomputed(u, a).value)] == EntriesAfter(u, [a]);
  }

  lemma PairGoesWrong(u: Setup, a: Request, b: Request)
    requires u.capacity > 0 && a.key == b.key && Recomputed(u, a).Some? && Recomputed(u, a) != Recomputed(u, b)
    ensures !RunIsRight(u, [a, b])
  {
    SecondReply(u, a, b);
    assert [a, b][..1] == [a] && [a, b][1] == b;
  }

  lemma PairAmong(u: Setup, requests: iset<Request>, a: Request, b: Request)
    requires u.capacity > 0 && a.key == b.key && Recomputed(u, a).Some? && Recomputed(u, a) != Recomputed(u, b)
    requires a in requests && b in requests
    ensures Over(requests, [a, b]) && !RunIsRight(u, [a, b])
  {
    PairGoesWrong(u, a, b);
  }

  /** Every lookup of every run over these requests is right exactly when their keys decide their tokens. */
  lemma EveryRunIsRightIff(u: Setup, requests: iset<Request>)
    requires u.capacity > 0
    ensures (forall h :: Over(requests, h) ==> RunIsRight(u, h)) <==> KeysDecide(u, requests)
  {
    if KeysDecide(u, requests) {
      forall h | Over(requests, h) ensures RunIsRight(u, h) {
        HitsAreRecomputations(u, requests, h);
      }
    } else {
      var a, b :| a in requests && b in requests && a.key == b.key && Recomputed(u, a) != Recomputed(u, b);
      if Recomputed(u, a).Some? {
        PairAmong(u, requests, a, b);
      } else {
        PairAmong(u, requests, b, a);
      }
    }
  }

  /** The lookup of an example under one template. */
  function RequestOf(parts: seq<Part>, tokenizer: string, chat: bool, ex: Example): Request
    requires FillSpec(parts, ex).Some?
  {
    var filled := FillSpec(parts, ex).value;
    Request(Key(tokenizer, chat, filled.text), filled.positions)
  }

  predicate SameTextFilled(parts: seq<Part>, a: Example, b: Example)
    requires FillSpec(parts, a).Some? && FillSpec(parts, b).Some?
  {
    FillSpec(parts, a).value.text == FillSpec(parts, b).value.text
  }

  /** What a caller can check: examples of one template that fill it to one text have values of the same lengths. */
  predicate TextsFixLengths(parts: seq<Part>, examples: set<Example>) {
    && (forall a :: a in examples ==> FillSpec(parts, a).Some?)
    && forall a, b :: a in examples && b in examples && SameTextFilled(parts, a, b) ==> AlikeInLength(parts, a, b)
  }

  /** Then every run over these examples is right. */
  lemma OneTemplateRunsAreRight(u: Setup, parts: seq<Part>, tokenizer: string, chat: bool, examples: set<Example>,
                                h: seq<Request>)
    requires TextsFixLengths(parts, examples)
    requires forall i {:trigger h[i]} :: 0 <= i < |h| ==>
               exists ex :: ex in examples && h[i] == RequestOf(parts, tokenizer, chat, ex)
    ensures RunIsRight(u, h)
  {
    var requests := iset ex | ex in examples :: RequestOf(parts, tokenizer, chat, ex);
    forall a, b | a in requests && b in requests && a.key == b.key ensures Recomputed(u, a) == Recomputed(u, b) {
      var x :| x in examples && a == RequestOf(parts, tokenizer, chat, x);
      var y :| y in examples && b == RequestOf(parts, tokenizer, chat, y);
      AlikeFillAlike(parts, x, y);
    }
    HitsAreRecomputations(u, requests, h);
  }

  /** Two examples of one template fill to one text, split differently, and have different tokens. */
  lemma SameTextOtherTokens(e: Encoding)
    requires e.contentOffset == 0 && e.offsets == [(0, 1), (1, 2), (2, 3)]
    ensures FillSpec(TWO_VARIABLES, TwoValues("x", "yz")) == Some(Filled("xyz", TwoSpans("x", "yz")))
    ensures FillSpec(TWO_VARIABLES, TwoValues("xy", "z")) == Some(Filled("xyz", TwoSpans("xy", "z")))
    ensures AllTokens(e, TwoSpans("x", "yz")).Some?
    ensures AllTokens(e, TwoSpans("x", "yz")) != AllTokens(e, TwoSpans("xy", "z"))
  {
    FillTwo("x", "yz");
    FillTwo("xy", "z");
    assert "x" + "yz" == "xyz" == "xy" + "z";
    OtherTokens(e, TwoSpans("x", "yz"), TwoSpans("xy", "z"));
  }

  /** So the second of them is answered with the first one's tokens. */
  lemma SameTextGoesWrong(u: Setup, tokenizer: string, chat: bool)
    requires u.capacity > 0
    requires var e := u.encode(Key(tokenizer, chat, "xyz"));
             e.contentOffset == 0 && e.offsets == [(0, 1), (1, 2), (2, 3)]
    ensures FillSpec(TWO_VARIABLES, TwoValues("x", "yz")).Some? && FillSpec(TWO_VARIABLES, TwoValues("xy", "z")).Some?
    ensures !RunIsRight(u, [RequestOf(TWO_VARIABLES, tokenizer, chat, TwoValues("x", "yz")),
                            RequestOf(TWO_VARIABLES, tokenizer, chat, TwoValues("xy", "z"))])
  {
    SameTextOtherTokens(u.encode(Key(tokenizer, chat, "xyz")));
    PairGoesWrong(u, RequestOf(TWO_VARIABLES, tokenizer, chat, TwoValues("x", "yz")),
                  RequestOf(TWO_VARIABLES, tokenizer, chat, TwoValues("xy", "z")));
  }

  lemma OneSpan(e: Encoding, span: Span, tokens: seq<int>)
    requires e.contentOffset == 0 && e.offsets == [(0, 1), (1, 2), (2, 3)]
    requires span.start == 0 && (if span.end == 1 then tokens == [0] else span.end == 2 && tokens == [0, 1])
    ensures TokensOfSpans(e, [span], 1) == Some(tokens)
  {
    CharacterTokens(e.offsets);
    assert TokensOfSpans(e, [span], 0) == Some([]);
    assert [] + tokens == tokens;
  }

  lemma OtherTokens(e: Encoding, first: map<string, seq<Span>>, second: map<string, seq<Span>>)
    requires e.contentOffset == 0 && e.offsets == [(0, 1), (1, 2), (2, 3)]
    requires "a" in first && first["a"] == [Span(0, 1, "x")] && "a" in second && second["a"] == [Span(0, 2, "xy")]
    ensures AllTokens(e, first).Some? && AllTokens(e, first) != AllTokens(e, second)
  {
    NeverAltered(e, first);
    OneSpan(e, Span(0, 1, "x"), [0]);
    OneSpan(e, Span(0, 2, "xy"), [0, 1]);
    assert AllTokens(e, first).value["a"] == [0];
  }

  /** Without a chat template nothing is ever altered. */
  lemma NeverAltered(e: Encoding, positions: map<string, seq<Span>>)
    requires e.contentOffset == 0
    ensures AllTokens(e, positions).Some?
  {
    forall name | name in positions ensures TokensOfSpans(e, positions[name], |positions[name]|).Some? {
      AlwaysSome(e, positions[name], |positions[name]|);
    }
  }

  lemma {:induction false} AlwaysSome(e: Encoding, spans: seq<Span>, n: nat)
    requires e.contentOffset == 0 && n <= |spans|
    ensures TokensOfSpans(e, spans, n).Some?
  {
    if n > 0 {
      AlwaysSome(e, spans, n - 1);
    }
  }

  lemma CharacterTokens(offsets: seq<Offset>)
    requires offsets == [(0, 1), (1, 2), (2, 3)]
    ensures TokensInCharRange(offsets, 0, 1) == [0] && TokensInCharRange(offsets, 0, 2) == [0, 1]
  {
    assert OverlapsFrom(offsets, 0, 1, 3) == [] == OverlapsFrom(offsets, 0, 1, 2) == OverlapsFrom(offsets, 0, 1, 1);
    assert OverlapsFrom(offsets, 0, 2, 3) == [] == OverlapsFrom(offsets, 0, 2, 2);
    assert OverlapsFrom(offsets, 0, 2, 1) == [1];
  }

  // ---------------------------------------------------------------- the cache

  class Cache {
    const capacity: nat
    const encode: Key -> Encoding
    var entries: Entries
    /** Every request so far that came to a lookup, in order. */
    ghost var history: seq<Request>

    ghost function Of(): Setup {
      Setup(capacity, encode)
    }

    /** The cache holds what its requests have left: by KeysAreRecent the most recently used distinct keys. */
    ghost predicate Valid()
      reads this
    {
      capacity > 0 && entries == EntriesAfter(Of(), history)
    }

    constructor (capacity: nat, encode: Key -> Encoding)
      requires capacity > 0
      ensures Valid() && entries == [] && history == [] && this.capacity == capacity && this.encode == encode
    {
      this.capacity := capacity;
      this.encode := encode;
      entries := [];
      history := [];
    }

    /**
     Fill the template, look the text up under the tokenizer's identity, and resolve it on a miss: on a hit the answer
     is the tokens of the fill that last missed. A refusal (a missing value, a divergent prompt, a tokenizer without
     identity, an altered variable) leaves the entries as they were.
     */
    method GetVariablePositions(parts: seq<Part>, ex: Example, tokenizer: string, chat: bool)
      returns (r: Option<Tokens>)
      requires Valid()
      modifies this
      ensures Valid()
      ensures var filled := FillSpec(parts, ex);
              if filled == None || tokenizer == "" then
                r == None && entries == old(entries) && history == old(history)
              else
                var q := RequestOf(parts, tokenizer, chat, ex);
                && history == old(history) + [q]
                && r == Recomputed(Of(), if q.key in old(KeysOf(entries)) then OriginOf(Of(), old(history), q) else q)
                && (r == None ==> entries == old(entries))
    {
      var filled := FillWithPositions(parts, ex);
      if filled == None || tokenizer == "" {
        return None;
      }
      var key := Key(tokenizer, chat, filled.value.text);
      ghost var q := Request(key, filled.value.positions);
      ReplyIsOrigin(Of(), history, q);
      OneMoreRequest(Of(), history, q);
      KeysAreRecent(Of(), history);
      r := LookUp(key, filled.value.positions, Used(Of(), history));
      history := history + [q];
    }

    /** A hit moves to the end; a miss is computed, and stored unless it is refused. */
    method LookUp(key: Key, positions: map<string, seq<Span>>, ghost used: seq<Key>) returns (r: Option<Tokens>)
      requires KeysOf(entries) == LastOf(ByRecency(used), capacity)
      modifies this`entries
      ensures r == Answer(old(entries), key, positions, encode(key))
      ensures entries == if r == None then old(entries) else Touch(old(entries), key, r.value, capacity)
    {
      r := Cached(entries, key);
      if r.Some? {
        HitFits(entries, key, r.value, capacity, used);
        entries := WithoutKey(entries, key) + [(key, r.value)];
      } else {
        r := ResolveAll(encode(key), positions);
        if r.Some? {
          NotThere(entries, key);
          Store(key, r.value);
        }
      }
    }

    /** Append the entry, then drop the least recently used while the bound is exceeded. */
    method Store(key: Key, value: Tokens)
      modifies this`entries
      ensures entries == LastOf(old(entries) + [(key, value)], capacity)
    {
      entries := entries + [(key, value)];
      var all := entries;
      while |entries| > capacity
        invariant |entries| <= |all| && entries == all[|all| - |entries|..]
        invariant |entries| >= capacity || entries == all
      {
        entries := entries[1..];
      }
    }
  }

  lemma {:induction false} NotThere(entries: Entries, key: Key)
    requires Cached(entries, key) == None
    ensures WithoutKey(entries, key) == entries
  {
    if entries != [] {
      NotThere(entries[..|entries| - 1], key);
    }
  }

  /** A hit never grows the cache, so nothing falls out. */
  lemma HitFits(entries: Entries, key: Key, value: Tokens, capacity: nat, used: seq<Key>)
    requires KeysOf(entries) == LastOf(ByRecency(used), capacity) && Cached(entries, key).Some?
    ensures WithoutKey(entries, key) + [(key, value)] == Touch(entries, key, value, capacity)
  {
    OneEntryLess(entries, key, capacity, used);
  }

  lemma OneEntryLess(entries: Entries, key: Key, capacity: nat, used: seq<Key>)
    requires KeysOf(entries) == LastOf(ByRecency(used), capacity) && Cached(entries, key).Some?
    ensures |WithoutKey(entries, key)| + 1 == |entries| <= capacity
  {
    KeysOfWithout(entries, key);
    CachedIsThere(entries, key);
    ByRecencyMeans(used);
    LastOfSorted(ByRecency(used), used, capacity);
    OneLess(KeysOf(entries), key, used);
    assert |WithoutKey(entries, key)| == |KeysOf(WithoutKey(entries, key))|;
  }

  method ResolveSpans(e: Encoding, spans: seq<Span>) returns (r: Option<seq<int>>)
    ensures r == TokensOfSpans(e, spans, |spans|)
  {
    var found: seq<int> := [];
    for i := 0 to |spans|
      invariant TokensOfSpans(e, spans, i) == Some(found)
    {
      var range := Rebase(e, spans[i]);
      if range == None {
        FailsForGood(e, spans, i + 1, |spans|);
        return None;
      }
      found := found + TokensInCharRange(e.offsets, range.value.0, range.value.1);
    }
    r := Some(found);
  }

  predicate Found(e: Encoding, positions: map<string, seq<Span>>, tokens: Tokens) {
    forall name {:trigger tokens[name]} :: name in tokens ==>
      name in positions && TokensOfSpans(e, positions[name], |positions[name]|) == Some(tokens[name])
  }

  lemma AllFound(e: Encoding, positions: map<string, seq<Span>>, tokens: Tokens)
    requires Found(e, positions, tokens) && tokens.Keys == positions.Keys
    ensures AllTokens(e, positions) == Some(tokens)
  {
    forall name | name in positions ensures TokensOfSpans(e, positions[name], |positions[name]|) == Some(tokens[name]) {
      assert name in tokens;
    }
    assert AllTokens(e, positions).value == tokens;
  }

  /** Resolve every variable in turn; the first altered one ends it. */
  method ResolveAll(e: Encoding, positions: map<string, seq<Span>>) returns (r: Option<Tokens>)
    ensures r == AllTokens(e, positions)
  {
    var tokens: Tokens := map[];
    var todo := positions.Keys;
    while todo != {}
      invariant todo <= positions.Keys && tokens.Keys == positions.Keys - todo
      invariant Found(e, positions, tokens)
      decreases |todo|
    {
      var name :| name in todo;
      var found := ResolveSpans(e, positions[name]);
      if found == None {
        assert TokensOfSpans(e, positions[name], |positions[name]|) == None;
        return None;
      }
      tokens := tokens[name := found.value];
      todo := todo - {name};
    }
    AllFound(e, positions, tokens);
    r := Some(tokens);
  }

  lemma {:induction false} FailsForGood(e: Encoding, spans: seq<Span>, i: nat, n: nat)
    requires i <= n <= |spans| && TokensOfSpans(e, spans, i) == None
    ensures TokensOfSpans(e, spans, n) == None
  {
    if i < n {
      FailsForGood(e, spans, i, n - 1);
    }
  }
}
