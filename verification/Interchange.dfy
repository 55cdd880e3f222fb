/** Interchange interventions: the "target<-source" keys, the run on a copy, and what a copy guarantees. */
module Interchange {
  import opened Wrappers
  import opened CausalSpec
  import opened Trace

  // ---------------------------------------------------------------- keys

  predicate IsArrow(s: string, k: int) {
    0 <= k && k + 1 < |s| && s[k] == '<' && s[k + 1] == '-'
  }

  predicate NoArrow(s: string) {
    forall k :: 0 <= k < |s| ==> !IsArrow(s, k)
  }

  /** The index of the first "<-" in s, searched from `from` on. */
  function FirstArrow(s: string, from: nat := 0): (r: Option<nat>)
    requires from <= |s|
    ensures r.Some? ==> from <= r.value && IsArrow(s, r.value)
    ensures forall k :: from <= k < (if r.Some? then r.value else |s|) ==> !IsArrow(s, k)
    decreases |s| - from
  {
    if from == |s| then None
    else if IsArrow(s, from) then Some(from)
    else FirstArrow(s, from + 1)
  }

  /** The characters the source's strip drops. */
  predicate IsSpace(c: char) {
    || c == ' ' || '\t' <= c <= '\r' || '\U{1C}' <= c <= '\U{1F}' || c == '\U{85}' || c == '\U{A0}' || c == '\U{1680}'
    || '\U{2000}' <= c <= '\U{200A}' || c == '\U{2028}' || c == '\U{2029}' || c == '\U{202F}' || c == '\U{205F}'
    || c == '\U{3000}'
  }

  function StripLeft(s: string): (r: string)
    ensures r == [] || !IsSpace(r[0])
  {
    if s != [] && IsSpace(s[0]) then StripLeft(s[1..]) else s
  }

  function StripRight(s: string): (r: string)
    ensures r == [] || !IsSpace(r[|r| - 1])
    ensures r <= s
  {
    if s != [] && IsSpace(s[|s| - 1]) then StripRight(s[..|s| - 1]) else s
  }

  function Strip(s: string): string {
    StripRight(StripLeft(s))
  }

  /**
   A key is the variable itself, or "target<-source" with spaces around either name dropped;
   a second arrow cannot be unpacked and is an error.
   */
  function ParseKey(key: string): Option<(Var, Var)> {
    match FirstArrow(key)
    case None => Some((key, key))
    case Some(at) =>
      if FirstArrow(key[at + 2..]).Some? then None
      else Some((Strip(key[..at]), Strip(key[at + 2..])))
  }

  predicate Spaces(s: string) {
    forall k {:trigger s[k]} :: 0 <= k < |s| ==> IsSpace(s[k])
  }

  predicate Bare(name: string) {
    name != "" ==> !IsSpace(name[0]) && !IsSpace(name[|name| - 1])
  }

  /** The name is what is left of a text without the spaces around it. */
  ghost predicate Trimmed(text: string, name: string) {
    Bare(name) && exists a, b {:trigger a + name + b} :: Spaces(a) && Spaces(b) && text == a + name + b
  }

  /**
   What a key asks for: a key without an arrow is target and source at once, spaces and all; otherwise the target is
   before its one arrow and the source behind it.
   */
  ghost predicate Asks(key: string, target: Var, source: Var) {
    || (NoArrow(key) && target == source == key)
    || exists left, right {:trigger left + "<-" + right} ::
         && key == left + "<-" + right && NoArrow(left) && NoArrow(right)
         && Trimmed(left, target) && Trimmed(right, source)
  }

  lemma {:induction false} StripLeftDrops(s: string) returns (a: string)
    ensures Spaces(a) && s == a + StripLeft(s)
  {
    a := "";
    if s != [] && IsSpace(s[0]) {
      var rest := StripLeftDrops(s[1..]);
      a := [s[0]] + rest;
      assert s == [s[0]] + s[1..];
    }
  }

  lemma {:induction false} StripRightDrops(s: string) returns (b: string)
    ensures Spaces(b) && s == StripRight(s) + b
  {
    b := "";
    if s != [] && IsSpace(s[|s| - 1]) {
      var rest := StripRightDrops(s[..|s| - 1]);
      b := rest + [s[|s| - 1]];
      assert s == s[..|s| - 1] + [s[|s| - 1]];
    }
  }

  lemma StripIsTrimmed(text: string)
    ensures Trimmed(text, Strip(text))
  {
    var a := StripLeftDrops(text);
    var b := StripRightDrops(StripLeft(text));
    Reassociate(a, Strip(text), b);
    assert text == a + Strip(text) + b;
  }

  lemma {:induction false} StripLeftPast(a: string, s: string)
    requires Spaces(a)
    ensures StripLeft(a + s) == StripLeft(s)
  {
    if a == "" {
      assert a + s == s;
    } else {
      StripLeftPast(a[1..], s);
      assert (a + s)[1..] == a[1..] + s;
    }
  }

  lemma {:induction false} StripRightPast(s: string, b: string)
    requires Spaces(b)
    ensures StripRight(s + b) == StripRight(s)
  {
    if b == "" {
      assert s + b == s;
    } else {
      StripRightPast(s, b[..|b| - 1]);
      assert (s + b)[..|s + b| - 1] == s + b[..|b| - 1];
    }
  }

  lemma TrimmedIsStrip(text: string, name: string)
    requires Trimmed(text, name)
    ensures Strip(text) == name
  {
    var a, b :| Spaces(a) && Spaces(b) && text == a + name + b;
    Reassociate(a, name, b);
    StripLeftPast(a, name + b);
    if name == "" {
      StripLeftPast(b, "");
      assert b + "" == b && name + b == b;
    } else {
      assert StripLeft(name + b) == name + b;
      StripRightPast(name, b);
    }
  }

  lemma ArrowAt(a: string, b: string)
    requires NoArrow(a) && NoArrow(b)
    ensures var key := a + "<-" + b;
            FirstArrow(key) == Some(|a|) && key[..|a|] == a && key[|a| + 2..] == b && FirstArrow(b) == None
  {
    var key := a + "<-" + b;
    assert IsArrow(key, |a|);
    forall k | 0 <= k < |a|
      ensures !IsArrow(key, k)
    {
      assert !IsArrow(a, k);
    }
  }

  lemma ArrowSplits(key: string, at: nat)
    requires FirstArrow(key) == Some(at)
    ensures at + 2 <= |key| && key == key[..at] + "<-" + key[at + 2..] && NoArrow(key[..at])
  {
    SplitAround(key, at, "<-");
    forall k | 0 <= k < at ensures !IsArrow(key[..at], k) {
      assert !IsArrow(key, k);
    }
  }

  lemma SplitAround(key: string, at: nat, arrow: string)
    requires |arrow| == 2 && at + 2 <= |key| && key[at] == arrow[0] && key[at + 1] == arrow[1]
    ensures key == key[..at] + arrow + key[at + 2..]
  {
  }

  /** Parsing gives the two names a key asks for, and fails on a key that asks for none. */
  lemma ParsedIsAsked(key: string, target: Var, source: Var)
    ensures ParseKey(key) == Some((target, source)) <==> Asks(key, target, source)
  {
    if left, right :| key == left + "<-" + right && NoArrow(left) && NoArrow(right)
                      && Trimmed(left, target) && Trimmed(right, source) {
      ArrowAt(left, right);
      TrimmedIsStrip(left, target);
      TrimmedIsStrip(right, source);
    }
    if FirstArrow(key).Some? {
      var at := FirstArrow(key).value;
      ArrowSplits(key, at);
      StripIsTrimmed(key[..at]);
      StripIsTrimmed(key[at + 2..]);
    }
  }

  predicate PlainName(s: string) {
    NoArrow(s) && Bare(s)
  }

  lemma PaddedHasNoArrow(a: string, name: string, b: string)
    requires Spaces(a) && Spaces(b) && NoArrow(name)
    ensures NoArrow(a + name + b)
  {
    var text := a + name + b;
    forall k | 0 <= k < |text| ensures !IsArrow(text, k) {
      if k < |a| {
        assert text[k] == a[k];
      } else if k + 1 < |a| + |name| {
        assert !IsArrow(name, k - |a|);
      } else if k + 1 < |text| {
        assert text[k + 1] == b[k + 1 - |a| - |name|];
      }
    }
  }

  /** Writing "target<-source", with any spaces around either name, and reading it back gives the two names. */
  lemma KeyRoundTrip(target: Var, source: Var, a: string, b: string, c: string, d: string)
    requires PlainName(target) && PlainName(source) && Spaces(a) && Spaces(b) && Spaces(c) && Spaces(d)
    ensures ParseKey((a + target + b) + "<-" + (c + source + d)) == Some((target, source))
  {
    PaddedHasNoArrow(a, target, b);
    PaddedHasNoArrow(c, source, d);
    ArrowAt(a + target + b, c + source + d);
    TrimmedIsStrip(a + target + b, target);
    TrimmedIsStrip(c + source + d, source);
  }

  /** As it is usually written: one blank on either side of the arrow, or none. */
  lemma UsualKeys(target: Var, source: Var)
    requires PlainName(target) && PlainName(source)
    ensures ParseKey(target + "<-" + source) == Some((target, source))
    ensures ParseKey((target + " ") + "<-" + (" " + source)) == Some((target, source))
  {
    KeyRoundTrip(target, source, "", "", "", "");
    KeyRoundTrip(target, source, "", " ", " ", "");
    AroundNothing(target, "", "");
    AroundNothing(source, "", "");
    AroundNothing(target, "", " ");
    AroundNothing(source, " ", "");
  }

  lemma AroundNothing(name: string, a: string, b: string)
    ensures a == "" ==> a + name + b == name + b
    ensures b == "" ==> a + name + b == a + name
    ensures a == b == "" ==> a + name + b == name
  {
  }

  // ---------------------------------------------------------------- runs

  ghost predicate At(trace: CausalTrace, model: Model)
    reads trace
  {
    trace.Valid() && trace.Abstract() == model
  }

  method InterveneAt(trace: CausalTrace, e: Edit, ghost model: Model)
    requires At(trace, model)
    modifies trace`values, trace`mechanisms
    ensures At(trace, Intervened(model, e.variable, e.value))
  {
    var _ := trace.Intervene(e.variable, e.value);
  }

  /**
   A whole run of interventions is the model with all of them made. An undeclared variable is stored before it is an
   error, so a caller who goes on finds that surgery made as well.
   */
  method InterveneInTurn(trace: CausalTrace, edits: seq<Edit>, ghost start: Model)
    requires At(trace, start)
    modifies trace`values, trace`mechanisms
    ensures At(trace, InterveneAll(start, edits))
  {
    for i := 0 to |edits|
      invariant At(trace, InterveneAll(start, edits[..i]))
    {
      InterveneOneMore(start, edits[..i], edits[i]);
      InterveneAt(trace, edits[i], InterveneAll(start, edits[..i]));
      TakeOneMore(edits, i);
    }
    TakeAll(edits);
  }

  /**
   A copy behaves as the original from then on, although its children lists no longer hold the edges into
   variables that were already intervened on; and what is done to one is not seen by the other.
   */
  method CopyThenDiverge(trace: CausalTrace, onBoth: seq<Edit>, onCopy: seq<Edit>) returns (c: CausalTrace)
    requires trace.Valid()
    modifies trace`values, trace`mechanisms
    ensures fresh(c)
    ensures At(trace, InterveneAll(old(trace.Abstract()), onBoth))
    ensures At(c, InterveneAll(InterveneAll(old(trace.Abstract()), onBoth), onCopy))
  {
    ghost var start := trace.Abstract();
    c := trace.Copy();
    InterveneInTurn(trace, onBoth, start);
    InterveneInTurn(c, onBoth, start);
    InterveneInTurn(c, onCopy, InterveneAll(start, onBoth));
  }

  datatype Counterfactual = Counterfactual(key: string, trace: CausalTrace)

  /** The intervention one dictionary entry asks for; None when its key is malformed or its value cannot be read. */
  function Requested(key: string, donor: map<Var, Value>): Option<Edit> {
    match ParseKey(key)
    case None => None
    case Some((target, source)) =>
      if source in donor then Some(Edit(target, donor[source])) else None
  }

  type Meanings = map<CausalTrace, map<Var, Value>>

  ghost function Donors(cs: seq<Counterfactual>): set<CausalTrace> {
    set c | c in cs :: c.trace
  }

  /** What each counterfactual trace means when the run starts. */
  ghost function MeaningsOf(donors: set<CausalTrace>): Meanings
    requires forall d :: d in donors ==> d.Valid()
    reads donors
  {
    map d | d in donors :: d.Meaning()
  }

  /** The interventions of a dictionary, in its order; None when some entry cannot be applied. */
  ghost function Accepted(declared: set<Var>, cs: seq<Counterfactual>, ms: Meanings): (edits: Option<seq<Edit>>)
    requires Donors(cs) <= ms.Keys
    ensures edits.Some? ==> |edits.value| == |cs| && forall e :: e in edits.value ==> e.variable in declared
  {
    if cs == [] then Some([])
    else
      var n := |cs| - 1;
      assert cs[n].trace in Donors(cs) && Donors(cs[..n]) <= Donors(cs);
      var init, last := Accepted(declared, cs[..n], ms), Requested(cs[n].key, ms[cs[n].trace]);
      if init.Some? && last.Some? && last.value.variable in declared then Some(init.value + [last.value]) else None
  }

  /** An entry that cannot be applied makes the whole run an error. */
  lemma {:induction false} RefusedAt(declared: set<Var>, cs: seq<Counterfactual>, ms: Meanings, i: nat)
    requires Donors(cs) <= ms.Keys && i <= |cs|
    ensures Donors(cs[..i]) <= ms.Keys
    ensures Accepted(declared, cs[..i], ms) == None ==> Accepted(declared, cs, ms) == None
    ensures i == |cs| ==> Accepted(declared, cs[..i], ms) == Accepted(declared, cs, ms)
  {
    assert Donors(cs[..i]) <= Donors(cs);
    if i == |cs| {
      assert cs[..i] == cs;
    } else {
      assert cs[..|cs| - 1][..i] == cs[..i];
      assert Donors(cs[..|cs| - 1]) <= Donors(cs);
      RefusedAt(declared, cs[..|cs| - 1], ms, i);
    }
  }

  /** The first i entries have been applied and have asked for `edits`. */
  ghost predicate AppliedUpTo(declared: set<Var>, cs: seq<Counterfactual>, ms: Meanings, i: nat, edits: seq<Edit>)
    requires i <= |cs|
  {
    Donors(cs[..i]) <= ms.Keys && Accepted(declared, cs[..i], ms) == Some(edits)
  }

  lemma AppliedToTheEnd(declared: set<Var>, cs: seq<Counterfactual>, ms: Meanings, edits: seq<Edit>)
    requires Donors(cs) <= ms.Keys && AppliedUpTo(declared, cs, ms, |cs|, edits)
    ensures Accepted(declared, cs, ms) == Some(edits)
  {
    RefusedAt(declared, cs, ms, |cs|);
  }

  /** The intervention of entry i, if it can be applied. */
  ghost function RequestedAt(declared: set<Var>, cs: seq<Counterfactual>, ms: Meanings, i: nat): Option<Edit>
    requires Donors(cs) <= ms.Keys && i < |cs|
  {
    assert cs[i].trace in Donors(cs);
    var want := Requested(cs[i].key, ms[cs[i].trace]);
    if want.Some? && want.value.variable in declared then want else None
  }

  ghost predicate AllRequested(declared: set<Var>, cs: seq<Counterfactual>, ms: Meanings)
    requires Donors(cs) <= ms.Keys
  {
    forall i {:trigger RequestedAt(declared, cs, ms, i)} :: 0 <= i < |cs| ==> RequestedAt(declared, cs, ms, i).Some?
  }

  lemma FrontRequests(declared: set<Var>, cs: seq<Counterfactual>, ms: Meanings)
    requires Donors(cs) <= ms.Keys && cs != []
    ensures var front := cs[..|cs| - 1];
            && Donors(front) <= ms.Keys
            && (AllRequested(declared, cs, ms) <==>
                  AllRequested(declared, front, ms) && RequestedAt(declared, cs, ms, |cs| - 1).Some?)
            && forall i {:trigger RequestedAt(declared, front, ms, i)} :: 0 <= i < |front| ==>
                 RequestedAt(declared, front, ms, i) == RequestedAt(declared, cs, ms, i)
  {
    var front := cs[..|cs| - 1];
    assert Donors(front) <= Donors(cs);
    forall i | 0 <= i < |front| ensures RequestedAt(declared, front, ms, i) == RequestedAt(declared, cs, ms, i) {
    }
  }

  lemma AcceptedUnfolds(declared: set<Var>, cs: seq<Counterfactual>, ms: Meanings)
    requires Donors(cs) <= ms.Keys && cs != [] && Donors(cs[..|cs| - 1]) <= ms.Keys
    ensures var init, last := Accepted(declared, cs[..|cs| - 1], ms), RequestedAt(declared, cs, ms, |cs| - 1);
            Accepted(declared, cs, ms) == if init.Some? && last.Some? then Some(init.value + [last.value]) else None
  {
  }

  lemma AcceptedGrows(declared: set<Var>, cs: seq<Counterfactual>, front: seq<Counterfactual>, c: Counterfactual,
                      ms: Meanings, edits: seq<Edit>, edit: Option<Edit>)
    requires cs == front + [c] && Donors(front) <= ms.Keys && Accepted(declared, front, ms) == Some(edits)
    requires c.trace in ms
    requires edit == var want := Requested(c.key, ms[c.trace]);
                     if want.Some? && want.value.variable in declared then want else None
    ensures Donors(cs) <= ms.Keys
    ensures Accepted(declared, cs, ms) == if edit.Some? then Some(edits + [edit.value]) else None
  {
    assert cs[..|cs| - 1] == front && cs[|cs| - 1] == c;
    AcceptedUnfolds(declared, cs, ms);
  }

  lemma AppliedOneMore(declared: set<Var>, cs: seq<Counterfactual>, ms: Meanings, i: nat, edits: seq<Edit>,
                       edit: Option<Edit>)
    requires Donors(cs) <= ms.Keys && i < |cs| && AppliedUpTo(declared, cs, ms, i, edits) && cs[i].trace in ms
    requires edit == var want := Requested(cs[i].key, ms[cs[i].trace]);
                     if want.Some? && want.value.variable in declared then want else None
    ensures edit.Some? ==> AppliedUpTo(declared, cs, ms, i + 1, edits + [edit.value])
    ensures edit == None ==> Accepted(declared, cs, ms) == None
  {
    TakeOneMore(cs, i);
    AcceptedGrows(declared, cs[..i + 1], cs[..i], cs[i], ms, edits, edit);
    RefusedAt(declared, cs, ms, i + 1);
  }

  /** `edits` are what the entries ask for, one by one. */
  ghost predicate Lists(declared: set<Var>, cs: seq<Counterfactual>, ms: Meanings, edits: seq<Edit>)
    requires Donors(cs) <= ms.Keys
  {
    && |edits| == |cs|
    && forall i {:trigger RequestedAt(declared, cs, ms, i)} :: 0 <= i < |cs| ==>
         RequestedAt(declared, cs, ms, i) == Some(edits[i])
  }

  lemma ListsOneMore(declared: set<Var>, cs: seq<Counterfactual>, ms: Meanings, init: seq<Edit>, edits: seq<Edit>)
    requires Donors(cs) <= ms.Keys && cs != [] && Donors(cs[..|cs| - 1]) <= ms.Keys
    requires Lists(declared, cs[..|cs| - 1], ms, init)
    requires RequestedAt(declared, cs, ms, |cs| - 1).Some?
    requires edits == init + [RequestedAt(declared, cs, ms, |cs| - 1).value]
    ensures Lists(declared, cs, ms, edits)
  {
    FrontRequests(declared, cs, ms);
    forall i | 0 <= i < |cs| ensures RequestedAt(declared, cs, ms, i) == Some(edits[i]) {
      if i < |init| {
        assert RequestedAt(declared, cs[..|cs| - 1], ms, i) == Some(init[i]);
      }
    }
  }

  /** A dictionary is applied exactly when each of its entries can be, and then entry by entry. */
  lemma {:induction false} AcceptedIs(declared: set<Var>, cs: seq<Counterfactual>, ms: Meanings)
    requires Donors(cs) <= ms.Keys
    ensures AllRequested(declared, cs, ms) ==> Accepted(declared, cs, ms).Some?
    ensures Accepted(declared, cs, ms).Some? ==> Lists(declared, cs, ms, Accepted(declared, cs, ms).value)
  {
    if cs != [] {
      var front := cs[..|cs| - 1];
      FrontRequests(declared, cs, ms);
      AcceptedIs(declared, front, ms);
      AcceptedUnfolds(declared, cs, ms);
      if Accepted(declared, cs, ms).Some? {
        ListsOneMore(declared, cs, ms, Accepted(declared, front, ms).value, Accepted(declared, cs, ms).value);
      }
    }
  }

  /** The same entries, in whatever order. */
  predicate SameEntries(cs: seq<Counterfactual>, ds: seq<Counterfactual>) {
    && (forall i {:trigger cs[i]} :: 0 <= i < |cs| ==> cs[i] in ds)
    && (forall i {:trigger ds[i]} :: 0 <= i < |ds| ==> ds[i] in cs)
  }

  lemma SameDonors(cs: seq<Counterfactual>, ds: seq<Counterfactual>)
    requires SameEntries(cs, ds)
    ensures Donors(cs) == Donors(ds)
  {
  }

  lemma StillAccepted(declared: set<Var>, cs: seq<Counterfactual>, ds: seq<Counterfactual>, ms: Meanings, i: nat)
    returns (j: nat)
    requires Donors(cs) <= ms.Keys && Donors(ds) <= ms.Keys && SameEntries(cs, ds) && i < |cs|
    ensures j < |ds| && RequestedAt(declared, ds, ms, j) == RequestedAt(declared, cs, ms, i)
  {
    assert cs[i] in ds;
    j :| 0 <= j < |ds| && ds[j] == cs[i];
  }

  lemma AcceptedInAnyOrder(declared: set<Var>, cs: seq<Counterfactual>, ds: seq<Counterfactual>, ms: Meanings)
    requires Donors(cs) <= ms.Keys && Donors(ds) <= ms.Keys && SameEntries(cs, ds) && Accepted(declared, cs, ms).Some?
    ensures Accepted(declared, ds, ms).Some?
    ensures forall e :: e in Accepted(declared, cs, ms).value ==> e in Accepted(declared, ds, ms).value
  {
    AcceptedIs(declared, cs, ms);
    AcceptedIs(declared, ds, ms);
    forall j | 0 <= j < |ds| ensures RequestedAt(declared, ds, ms, j).Some? {
      var i := StillAccepted(declared, ds, cs, ms, j);
    }
    var x, y := Accepted(declared, cs, ms).value, Accepted(declared, ds, ms).value;
    forall e | e in x ensures e in y {
      var i :| 0 <= i < |x| && x[i] == e;
      var j := StillAccepted(declared, cs, ds, ms, i);
      assert y[j] == e;
    }
  }

  lemma SameWrites(a: seq<Edit>, b: seq<Edit>)
    requires DistinctTargets(a) && DistinctTargets(b) && forall e :: e in a <==> e in b
    ensures LastWrites(a) == LastWrites(b)
  {
    LastWritesOfDistinct(a);
    LastWritesOfDistinct(b);
    forall v | v in LastWrites(a) ensures v in LastWrites(b) && LastWrites(b)[v] == LastWrites(a)[v] {
      var i :| 0 <= i < |a| && a[i].variable == v;
      assert a[i] in b;
      var j :| 0 <= j < |b| && b[j] == a[i];
    }
    forall v | v in LastWrites(b) ensures v in LastWrites(a) {
      var j :| 0 <= j < |b| && b[j].variable == v;
      assert b[j] in a;
      var i :| 0 <= i < |a| && a[i] == b[j];
    }
    SameMap(LastWrites(a), LastWrites(b));
  }

  /**
   When no two entries write one target, the order of the dictionary makes no difference: it is refused in every order
   or in none, and the surgery is the same.
   */
  lemma DictionaryOrder(start: Model, cs: seq<Counterfactual>, ds: seq<Counterfactual>, ms: Meanings)
    requires Donors(cs) <= ms.Keys && SameEntries(cs, ds)
    ensures Donors(ds) == Donors(cs)
    ensures var a, b := Accepted(start.m.Keys, cs, ms), Accepted(start.m.Keys, ds, ms);
            && a.Some? == b.Some?
            && (a.Some? && DistinctTargets(a.value) && DistinctTargets(b.value) ==>
                  Surgery(start, LastWrites(a.value)) == Surgery(start, LastWrites(b.value)))
  {
    SameDonors(cs, ds);
    var a, b := Accepted(start.m.Keys, cs, ms), Accepted(start.m.Keys, ds, ms);
    if a.Some? {
      AcceptedInAnyOrder(start.m.Keys, cs, ds, ms);
    }
    if b.Some? {
      AcceptedInAnyOrder(start.m.Keys, ds, cs, ms);
    }
    if a.Some? && DistinctTargets(a.value) && DistinctTargets(b.value) {
      SameWrites(a.value, b.value);
    }
  }

  // ---------------------------------------------------------------- what an interchange means

  /** The entry can be applied: its key asks for a declared target and a source the donor has a value for. */
  ghost predicate Applies(declared: set<Var>, c: Counterfactual, ms: Meanings)
    requires c.trace in ms
  {
    exists target, source {:trigger Asks(c.key, target, source)} ::
      Asks(c.key, target, source) && target in declared && source in ms[c.trace]
  }

  lemma RequestedIsAsked(key: string, donor: map<Var, Value>, target: Var, source: Var)
    ensures Asks(key, target, source) ==>
              Requested(key, donor) == if source in donor then Some(Edit(target, donor[source])) else None
  {
    ParsedIsAsked(key, target, source);
  }

  lemma AppliesIsRequested(declared: set<Var>, c: Counterfactual, ms: Meanings)
    requires c.trace in ms
    ensures var want := Requested(c.key, ms[c.trace]);
            Applies(declared, c, ms) <==> want.Some? && want.value.variable in declared
  {
    if target, source :| Asks(c.key, target, source) && target in declared && source in ms[c.trace] {
      RequestedIsAsked(c.key, ms[c.trace], target, source);
    }
    if ParseKey(c.key).Some? {
      ParsedIsAsked(c.key, ParseKey(c.key).value.0, ParseKey(c.key).value.1);
    }
  }

  ghost predicate AllApply(declared: set<Var>, cs: seq<Counterfactual>, ms: Meanings)
    requires Donors(cs) <= ms.Keys
  {
    forall i {:trigger cs[i]} :: 0 <= i < |cs| ==> cs[i].trace in Donors(cs) && Applies(declared, cs[i], ms)
  }

  /** A dictionary is accepted exactly when every entry can be applied. */
  lemma AcceptedWhen(declared: set<Var>, cs: seq<Counterfactual>, ms: Meanings)
    requires Donors(cs) <= ms.Keys
    ensures Accepted(declared, cs, ms).Some? <==> AllApply(declared, cs, ms)
  {
    AcceptedIs(declared, cs, ms);
    forall i | 0 <= i < |cs|
      ensures cs[i].trace in Donors(cs)
      ensures RequestedAt(declared, cs, ms, i).Some? <==> Applies(declared, cs[i], ms)
    {
      assert cs[i].trace in Donors(cs);
      AppliesIsRequested(declared, cs[i], ms);
    }
    if Accepted(declared, cs, ms).Some? {
      var edits := Accepted(declared, cs, ms).value;
      assert forall i :: 0 <= i < |cs| ==> RequestedAt(declared, cs, ms, i) == Some(edits[i]);
    }
  }

  /** No entry behind the i-th writes the target. */
  ghost predicate LastToWrite(cs: seq<Counterfactual>, i: nat, target: Var) {
    forall j, source {:trigger Asks(cs[j].key, target, source)} :: i < j < |cs| ==> !Asks(cs[j].key, target, source)
  }

  ghost predicate Unwritten(cs: seq<Counterfactual>, v: Var) {
    forall j, source {:trigger Asks(cs[j].key, v, source)} :: 0 <= j < |cs| ==> !Asks(cs[j].key, v, source)
  }

  /** The target means what the donor of the last entry that writes it meant at that entry's source. */
  ghost predicate TakesFrom(cs: seq<Counterfactual>, ms: Meanings, meaning: map<Var, Value>, i: nat, target: Var,
                            source: Var)
    requires i < |cs|
  {
    Asks(cs[i].key, target, source) && LastToWrite(cs, i, target) ==>
      && cs[i].trace in ms && source in ms[cs[i].trace]
      && target in meaning && meaning[target] == ms[cs[i].trace][source]
  }

  /**
   What the result of an interchange means: every target what its donor meant at the source, every variable that no
   entry writes what its own mechanism makes of its parents.
   */
  ghost predicate Interchanged(start: Model, cs: seq<Counterfactual>, ms: Meanings, meaning: map<Var, Value>) {
    && (forall i, target, source {:trigger Asks(cs[i].key, target, source)} :: 0 <= i < |cs| ==>
          TakesFrom(cs, ms, meaning, i, target, source))
    && (forall v {:trigger Unwritten(cs, v)} :: v in start.m && Unwritten(cs, v) ==>
          Lookup(meaning, v) == Rule(start, true, meaning, v))
  }

  lemma {:induction false} LastWriteIs(edits: seq<Edit>, i: nat)
    requires i < |edits| && forall j {:trigger edits[j]} :: i < j < |edits| ==> edits[j].variable != edits[i].variable
    ensures edits[i].variable in LastWrites(edits) && LastWrites(edits)[edits[i].variable] == edits[i].value
  {
    if i < |edits| - 1 {
      LastWriteIs(edits[..|edits| - 1], i);
    }
  }

  lemma {:induction false} WrittenBySome(edits: seq<Edit>, v: Var) returns (i: nat)
    requires v in LastWrites(edits)
    ensures i < |edits| && edits[i].variable == v
  {
    if edits[|edits| - 1].variable == v {
      i := |edits| - 1;
    } else {
      i := WrittenBySome(edits[..|edits| - 1], v);
    }
  }

  /** The edit of entry i is what its key asks for. */
  lemma EditIsAsked(declared: set<Var>, cs: seq<Counterfactual>, ms: Meanings, edits: seq<Edit>, i: nat)
    returns (source: Var)
    requires Donors(cs) <= ms.Keys && Lists(declared, cs, ms, edits) && i < |cs|
    ensures cs[i].trace in ms && Asks(cs[i].key, edits[i].variable, source) && source in ms[cs[i].trace]
    ensures edits[i].value == ms[cs[i].trace][source]
  {
    assert cs[i].trace in Donors(cs) && RequestedAt(declared, cs, ms, i) == Some(edits[i]);
    var key := ParseKey(cs[i].key).value;
    source := key.1;
    ParsedIsAsked(cs[i].key, key.0, key.1);
  }

  lemma OneAnswer(key: string, target: Var, source: Var, target': Var, source': Var)
    requires Asks(key, target, source) && Asks(key, target', source')
    ensures target == target' && source == source'
  {
    ParsedIsAsked(key, target, source);
    ParsedIsAsked(key, target', source');
  }

  lemma TargetTakes(declared: set<Var>, cs: seq<Counterfactual>, ms: Meanings, edits: seq<Edit>, i: nat, target: Var,
                    source: Var)
    requires Donors(cs) <= ms.Keys && Lists(declared, cs, ms, edits) && i < |cs|
    requires Asks(cs[i].key, target, source) && LastToWrite(cs, i, target)
    ensures cs[i].trace in ms && source in ms[cs[i].trace] && target in LastWrites(edits)
    ensures LastWrites(edits)[target] == ms[cs[i].trace][source]
  {
    var asked := EditIsAsked(declared, cs, ms, edits, i);
    OneAnswer(cs[i].key, target, source, edits[i].variable, asked);
    forall j | i < j < |edits| ensures edits[j].variable != target {
      var other := EditIsAsked(declared, cs, ms, edits, j);
    }
    LastWriteIs(edits, i);
  }

  lemma UnwrittenHasNoEdit(declared: set<Var>, cs: seq<Counterfactual>, ms: Meanings, edits: seq<Edit>, v: Var)
    requires Donors(cs) <= ms.Keys && Lists(declared, cs, ms, edits) && Unwritten(cs, v)
    ensures v !in LastWrites(edits)
  {
    if v in LastWrites(edits) {
      var i := WrittenBySome(edits, v);
      var source := EditIsAsked(declared, cs, ms, edits, i);
    }
  }

  /** A variable that was not edited obeys its own mechanism on the new values. */
  lemma UneditedObeys(start: Model, writes: map<Var, Value>, v: Var)
    requires Acyclic(start.m) && writes.Keys <= start.m.Keys && v in start.m
    ensures Acyclic(Surgery(start, writes).m)
    ensures var meaning := Solution(Surgery(start, writes), true);
            Lookup(meaning, v) == if v in writes then Some(writes[v]) else Rule(start, true, meaning, v)
  {
    SurgeryMeaning(start, writes, v);
    assert v !in writes ==> Surgery(start, writes).m[v] == start.m[v];
  }

  lemma {:induction false} WritesAreDeclared(edits: seq<Edit>, declared: set<Var>)
    requires forall e :: e in edits ==> e.variable in declared
    ensures LastWrites(edits).Keys <= declared
  {
    forall v | v in LastWrites(edits) ensures v in declared {
      var i := WrittenBySome(edits, v);
    }
  }

  /** The result of an accepted interchange means what its keys ask for. */
  lemma InterchangeMeans(start: Model, cs: seq<Counterfactual>, ms: Meanings, edits: seq<Edit>, after: Model)
    requires Acyclic(start.m) && Donors(cs) <= ms.Keys && Accepted(start.m.Keys, cs, ms) == Some(edits)
    requires after == Surgery(start, LastWrites(edits))
    ensures Acyclic(after.m) && Interchanged(start, cs, ms, Solution(after, true))
  {
    AcceptedIs(start.m.Keys, cs, ms);
    WritesAreDeclared(edits, start.m.Keys);
    var rank: map<Var, nat>, bound: nat :| Ranked(start.m, rank, bound);
    SurgeryKeepsRanking(start, LastWrites(edits), rank, bound);
    var meaning := Solution(after, true);
    forall i, target, source | 0 <= i < |cs| ensures TakesFrom(cs, ms, meaning, i, target, source) {
      if Asks(cs[i].key, target, source) && LastToWrite(cs, i, target) {
        TargetTakes(start.m.Keys, cs, ms, edits, i, target, source);
        UneditedObeys(start, LastWrites(edits), target);
      }
    }
    forall v | v in start.m && Unwritten(cs, v) ensures Lookup(meaning, v) == Rule(start, true, meaning, v) {
      UnwrittenHasNoEdit(start.m.Keys, cs, ms, edits, v);
      UneditedObeys(start, LastWrites(edits), v);
    }
  }

  // ---------------------------------------------------------------- the run

  ghost predicate DonorsMean(donors: set<CausalTrace>, meanings: Meanings)
    reads donors
  {
    forall d :: d in donors ==> d in meanings && d.Valid() && d.Meaning() == meanings[d]
  }

  /** The run in progress: the working trace is at `model` and the donors still mean what they meant. */
  ghost predicate Running(trace: CausalTrace, model: Model,
                          donors: set<CausalTrace>, meanings: Meanings)
    reads trace, donors
  {
    && trace !in donors && trace.Valid() && trace.Abstract() == model && trace.children.Keys == model.m.Keys
    && DonorsMean(donors, meanings)
  }

  method ReadDonor(donor: CausalTrace, v: Var, ghost trace: CausalTrace, ghost model: Model,
                   ghost donors: set<CausalTrace>, ghost meanings: Meanings)
    returns (x: Option<Value>)
    requires donor in donors && Running(trace, model, donors, meanings)
    modifies donor`values
    ensures Running(trace, model, donors, meanings)
    ensures x == Lookup(meanings[donor], v)
  {
    x := donor.Get(v);
  }

  method InterveneRunning(trace: CausalTrace, e: Edit, ghost model: Model,
                          ghost donors: set<CausalTrace>, ghost meanings: Meanings) returns (declared: bool)
    requires Running(trace, model, donors, meanings)
    modifies trace`values, trace`mechanisms
    ensures declared == (e.variable in model.m) && DonorsMean(donors, meanings)
    ensures declared ==> Running(trace, Intervened(model, e.variable, e.value), donors, meanings)
  {
    declared := trace.Intervene(e.variable, e.value);
  }

  method ApplyEntry(trace: CausalTrace, c: Counterfactual, ghost model: Model,
                    ghost donors: set<CausalTrace>, ghost meanings: Meanings)
    returns (edit: Option<Edit>)
    requires c.trace in donors && Running(trace, model, donors, meanings)
    modifies trace`values, trace`mechanisms, c.trace`values
    ensures edit == var want := Requested(c.key, meanings[c.trace]);
                    if want.Some? && want.value.variable in model.m then want else None
    ensures DonorsMean(donors, meanings)
    ensures edit.Some? ==> Running(trace, Intervened(model, edit.value.variable, edit.value.value), donors, meanings)
  {
    var key := ParseKey(c.key);
    edit := None;
    if key.Some? {
      var x := ReadDonor(c.trace, key.value.1, trace, model, donors, meanings);
      if x.Some? {
        var want := Edit(key.value.0, x.value);
        var declared := InterveneRunning(trace, want, model, donors, meanings);
        if declared {
          edit := Some(want);
        }
      }
    }
  }

  /** The loop of the interchange: every entry in turn, stopping at the first that cannot be applied. */
  method ApplyAll(trace: CausalTrace, cs: seq<Counterfactual>, ghost start: Model,
                  ghost donors: set<CausalTrace>, ghost meanings: Meanings) returns (ok: bool)
    requires donors == Donors(cs) <= meanings.Keys && Running(trace, start, donors, meanings)
    modifies trace`values, trace`mechanisms, donors
    ensures DonorsMean(donors, meanings)
    ensures var edits := Accepted(start.m.Keys, cs, meanings);
            ok == edits.Some? && (ok ==> Running(trace, InterveneAll(start, edits.value), donors, meanings))
  {
    ghost var edits: seq<Edit> := [];
    assert cs[..0] == [];
    for i := 0 to |cs|
      invariant InterveneAll(start, edits).m.Keys == start.m.Keys
      invariant Running(trace, InterveneAll(start, edits), donors, meanings)
      invariant AppliedUpTo(start.m.Keys, cs, meanings, i, edits)
    {
      var c := cs[i];
      assert c.trace in donors;
      var edit := ApplyEntry(trace, c, InterveneAll(start, edits), donors, meanings);
      AppliedOneMore(start.m.Keys, cs, meanings, i, edits, edit);
      if edit == None {
        return false;
      }
      InterveneOneMore(start, edits, edit.value);
      edits := edits + [edit.value];
    }
    AppliedToTheEnd(start.m.Keys, cs, meanings, edits);
    ok := true;
  }

  /**
   Interchange on a copy of the input trace: simultaneous surgery with the counterfactual values, or an error.
   Reading the counterfactual traces changes none of their values.
   */
  method RunInterchange(input: CausalTrace, counterfactuals: seq<Counterfactual>) returns (r: Option<CausalTrace>)
    requires input.Valid() && forall c :: c in counterfactuals ==> c.trace.Valid()
    modifies Donors(counterfactuals)
    ensures DonorsMean(Donors(counterfactuals), old(MeaningsOf(Donors(counterfactuals))))
    ensures var edits :=
              Accepted(old(input.mechanisms.Keys), counterfactuals, old(MeaningsOf(Donors(counterfactuals))));
            r.Some? == edits.Some?
            && (r.Some? ==> fresh(r.value) && r.value.Valid()
                            && r.value.Abstract() == Surgery(old(input.Abstract()), LastWrites(edits.value)))
    ensures r.Some? <==>
              AllApply(old(input.mechanisms.Keys), counterfactuals, old(MeaningsOf(Donors(counterfactuals))))
    ensures r.Some? ==> Interchanged(old(input.Abstract()), counterfactuals,
                                     old(MeaningsOf(Donors(counterfactuals))), r.value.Meaning())
  {
    ghost var donors := Donors(counterfactuals);
    ghost var meanings, start := MeaningsOf(donors), input.Abstract();
    WiredIsAcyclic(input.mechanisms, input.children);
    var trace := input.Copy();
    var ok := ApplyAll(trace, counterfactuals, start, donors, meanings);
    r := None;
    AcceptedWhen(start.m.Keys, counterfactuals, meanings);
    if ok {
      ghost var edits := Accepted(start.m.Keys, counterfactuals, meanings).value;
      SequentialIsSimultaneous(start, edits);
      InterchangeMeans(start, counterfactuals, meanings, edits, trace.Abstract());
      r := Some(trace);
    }
  }
}
