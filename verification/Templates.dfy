/** Filling a prompt template while tracking the character span of every substituted value. */
module Templates {
  import opened Wrappers

  /** A parsed template alternates literal text and variables. */
  datatype Part = Literal(text: string) | Variable(name: string)

  // ---------------------------------------------------------------- parsing a template

  /** The first closing brace at or after i. */
  function CloseAt(s: string, i: nat): (j: Option<nat>)
    requires i <= |s|
    ensures j.Some? ==> i <= j.value < |s| && s[j.value] == '}'
    ensures forall k {:trigger s[k]} :: i <= k < (if j.Some? then j.value else |s|) ==> s[k] != '}'
    decreases |s| - i
  {
    if i == |s| then None else if s[i] == '}' then Some(i) else CloseAt(s, i + 1)
  }

  /** A placeholder that opens at i: where its closing brace is, behind a name of at least one character. */
  function MatchAt(s: string, i: nat): (j: Option<nat>)
    requires i < |s|
  {
    if s[i] != '{' then None
    else
      var j := CloseAt(s, i + 1);
      if j.Some? && j.value > i + 1 then j else None
  }

  /** The first placeholder that opens at or after i. */
  function NextMatch(s: string, i: nat): (k: Option<nat>)
    requires i <= |s|
    ensures k.Some? ==> i <= k.value < |s| && MatchAt(s, k.value).Some?
    decreases |s| - i
  {
    if i == |s| then None else if MatchAt(s, i).Some? then Some(i) else NextMatch(s, i + 1)
  }

  function LiteralPart(text: string): seq<Part> {
    if text == "" then [] else [Literal(text)]
  }

  /** Just after the next placeholder. */
  function After(s: string, i: nat): (next: nat)
    requires i <= |s| && NextMatch(s, i).Some?
    ensures NextMatch(s, i).value + 2 < next <= |s|
  {
    MatchAt(s, NextMatch(s, i).value).value + 1
  }

  /** The text up to the next placeholder, and its variable. */
  function UpToNext(s: string, i: nat): seq<Part>
    requires i <= |s| && NextMatch(s, i).Some?
  {
    var k := NextMatch(s, i).value;
    LiteralPart(s[i..k]) + [Variable(s[k + 1..After(s, i) - 1])]
  }

  /** The parts from position i on: text up to the next placeholder, its variable, and so on. */
  function PartsFrom(s: string, i: nat): seq<Part>
    requires i <= |s|
    decreases |s| - i
  {
    if NextMatch(s, i) == None then LiteralPart(s[i..]) else UpToNext(s, i) + PartsFrom(s, After(s, i))
  }

  method ParseTemplate(s: string) returns (parts: seq<Part>)
    ensures parts == PartsFrom(s, 0)
  {
    parts := [];
    var lastEnd := 0;
    while NextMatch(s, lastEnd).Some?
      invariant lastEnd <= |s| && parts + PartsFrom(s, lastEnd) == PartsFrom(s, 0)
      decreases |s| - lastEnd
    {
      Reassociate(parts, UpToNext(s, lastEnd), PartsFrom(s, After(s, lastEnd)));
      parts := parts + UpToNext(s, lastEnd);
      lastEnd := After(s, lastEnd);
    }
    parts := parts + LiteralPart(s[lastEnd..]);
  }

  /** What a part was written as. */
  function Spelled(p: Part): string {
    match p
    case Literal(t) => t
    case Variable(n) => "{" + n + "}"
  }

  function SpelledAll(parts: seq<Part>): seq<string> {
    seq(|parts|, i requires 0 <= i < |parts| => Spelled(parts[i]))
  }

  function SpelledOut(parts: seq<Part>): string {
    Concat(SpelledAll(parts), |parts|)
  }

  lemma SpelledBoth(a: seq<Part>, b: seq<Part>)
    ensures SpelledOut(a + b) == SpelledOut(a) + SpelledOut(b)
  {
    SameElements(SpelledAll(a + b), SpelledAll(a) + SpelledAll(b));
    ConcatOfBoth(SpelledAll(a), SpelledAll(b), |b|);
  }

  lemma SpelledOne(p: Part)
    ensures SpelledOut([p]) == Spelled(p)
  {
    assert Concat(SpelledAll([p]), 0) == [];
  }

  lemma SpelledLiteral(text: string)
    ensures SpelledOut(LiteralPart(text)) == text
  {
    if text != "" {
      SpelledOne(Literal(text));
    }
  }

  predicate SoundPart(p: Part) {
    match p
    case Literal(t) => t != ""
    case Variable(n) => n != "" && '}' !in n
  }

  /** A placeholder's name is what stands between its braces, never empty, without a closing brace. */
  lemma NameIsSound(s: string, i: nat)
    requires i <= |s| && NextMatch(s, i).Some?
    ensures forall p :: p in UpToNext(s, i) ==> SoundPart(p)
  {
    var k, next := NextMatch(s, i).value, After(s, i);
    var name := s[k + 1..next - 1];
    forall c | c in name ensures c != '}' {
      var p :| 0 <= p < |name| && name[p] == c;
      assert s[k + 1 + p] == c;
    }
  }

  /** A placeholder and the text before it are spelled as they stand. */
  lemma UpToNextIsSpelled(s: string, i: nat)
    requires i <= |s| && NextMatch(s, i).Some?
    ensures SpelledOut(UpToNext(s, i)) == s[i..After(s, i)]
  {
    PiecesAreSpelled(s, i, NextMatch(s, i).value, After(s, i));
  }

  lemma PiecesAreSpelled(s: string, i: nat, k: nat, next: nat)
    requires i <= |s| && NextMatch(s, i) == Some(k) && next == After(s, i)
    ensures SpelledOut(UpToNext(s, i)) == s[i..next]
  {
    var text, name := s[i..k], s[k + 1..next - 1];
    UpToNextIs(s, i, k, next, text, name);
    SpelledPlaceholder(text, name);
    PlaceholderSlices(s, i, k, next - 1);
  }

  lemma SpelledPlaceholder(text: string, name: string)
    ensures SpelledOut(LiteralPart(text) + [Variable(name)]) == text + ("{" + name + "}")
  {
    SpelledBoth(LiteralPart(text), [Variable(name)]);
    SpelledLiteral(text);
    SpelledOne(Variable(name));
  }

  lemma PlaceholderSlices(s: string, i: nat, k: nat, j: nat)
    requires i <= k < j < |s| && s[k] == '{' && s[j] == '}'
    ensures s[i..k] + ("{" + s[k + 1..j] + "}") == s[i..j + 1]
  {
  }

  /** The parts, spelled out again, are the template; no name and no literal is empty. */
  lemma {:induction false} PartsAreTheTemplate(s: string, i: nat)
    requires i <= |s|
    ensures SpelledOut(PartsFrom(s, i)) == s[i..]
    ensures forall p :: p in PartsFrom(s, i) ==> SoundPart(p)
    decreases |s| - i
  {
    if NextMatch(s, i) == None {
      SpelledLiteral(s[i..]);
    } else {
      PartsAreTheTemplate(s, After(s, i));
      UpToNextIsSpelled(s, i);
      NameIsSound(s, i);
      SpelledBoth(UpToNext(s, i), PartsFrom(s, After(s, i)));
      SplitAt(s, i, After(s, i));
    }
  }

  lemma SplitAt(s: string, i: nat, j: nat)
    requires i <= j <= |s|
    ensures s[i..j] + s[j..] == s[i..]
  {
  }

  // ---------------------------------------------------------------- which parts a template has

  /**
   Literal text that holds no placeholder: a brace that opens is closed at once, or, at the end of the template, never.
   */
  predicate Stands(text: string, atEnd: bool) {
    forall p {:trigger text[p]} :: 0 <= p < |text| && text[p] == '{' ==>
      (p + 1 < |text| && text[p + 1] == '}') || (atEnd && '}' !in text[p..])
  }

  predicate StandsAt(parts: seq<Part>, i: nat)
    requires i < |parts|
  {
    && SoundPart(parts[i])
    && (parts[i].Literal? ==> Stands(parts[i].text, i == |parts| - 1) && (i + 1 < |parts| ==> parts[i + 1].Variable?))
  }

  /** Sound parts, no literal behind another, and no placeholder in a literal. */
  predicate Canonical(parts: seq<Part>) {
    forall i {:trigger StandsAt(parts, i)} :: 0 <= i < |parts| ==> StandsAt(parts, i)
  }

  function Shifted(k: Option<nat>, shift: nat): Option<nat> {
    if k == None then None else Some(shift + k.value)
  }

  /** Searching behind a text is searching what comes after it. */
  lemma {:induction false} CloseBehind(a: string, t: string, s: string, i: nat, at: nat)
    requires s == a + t && i <= |t| && at == |a| + i
    ensures CloseAt(s, at) == Shifted(CloseAt(t, i), |a|)
    decreases |t| - i
  {
    if i < |t| {
      assert s[at] == t[i];
      CloseBehind(a, t, s, i + 1, at + 1);
    }
  }

  lemma MatchBehind(a: string, t: string, s: string, i: nat, at: nat)
    requires s == a + t && i < |t| && at == |a| + i
    ensures MatchAt(s, at) == Shifted(MatchAt(t, i), |a|)
  {
    assert s[at] == t[i];
    CloseBehind(a, t, s, i + 1, at + 1);
  }

  lemma NextBehind(a: string, t: string, s: string, i: nat, at: nat)
    requires s == a + t && i <= |t| && at == |a| + i
    ensures NextMatch(s, at) == Shifted(NextMatch(t, i), |a|)
  {
    if NextMatch(t, i) == None {
      NoneBehind(a, t, s, i, at);
    } else {
      FirstBehind(a, t, s, i, at, NextMatch(t, i).value, |a| + NextMatch(t, i).value);
    }
  }

  lemma NoneBehind(a: string, t: string, s: string, i: nat, at: nat)
    requires s == a + t && i <= |t| && at == |a| + i && NextMatch(t, i) == None
    ensures NextMatch(s, at) == None
  {
    forall p | at <= p < |s| ensures MatchAt(s, p) == None {
      NoneBefore(t, i, p - |a|);
      MatchBehind(a, t, s, p - |a|, p);
    }
    NoneFrom(s, at);
  }

  lemma FirstBehind(a: string, t: string, s: string, i: nat, at: nat, k: nat, atK: nat)
    requires s == a + t && i <= |t| && at == |a| + i && NextMatch(t, i) == Some(k) && atK == |a| + k
    ensures NextMatch(s, at) == Some(atK)
  {
    forall p | at <= p < atK ensures MatchAt(s, p) == None {
      NoneBefore(t, i, p - |a|);
      MatchBehind(a, t, s, p - |a|, p);
    }
    MatchBehind(a, t, s, k, atK);
    NextIs(s, at, atK);
  }

  lemma SliceBehind(a: string, t: string, s: string, i: nat, j: nat, from: nat, to: nat)
    requires s == a + t && i <= j <= |t| && from == |a| + i && to == |a| + j
    ensures s[from..to] == t[i..j]
  {
  }

  lemma DropBehind(a: string, t: string, s: string, i: nat, from: nat)
    requires s == a + t && i <= |t| && from == |a| + i
    ensures s[from..] == t[i..]
  {
  }

  /** Where the next placeholder is, and just after it. */
  lemma PlacesBehind(a: string, t: string, s: string, i: nat, at: nat)
    requires s == a + t && i <= |t| && at == |a| + i && NextMatch(t, i).Some?
    ensures NextMatch(s, at) == Some(|a| + NextMatch(t, i).value) && After(s, at) == |a| + After(t, i)
  {
    NextBehind(a, t, s, i, at);
    MatchBehind(a, t, s, NextMatch(t, i).value, NextMatch(s, at).value);
  }

  lemma UpToNextIs(s: string, i: nat, k: nat, next: nat, text: string, name: string)
    requires i <= |s| && NextMatch(s, i) == Some(k) && next == After(s, i)
    requires i <= k && k + 1 < next && text == s[i..k] && name == s[k + 1..next - 1]
    ensures UpToNext(s, i) == LiteralPart(text) + [Variable(name)]
  {
  }

  lemma UpToNextBehind(a: string, t: string, s: string, i: nat, at: nat)
    requires s == a + t && i <= |t| && at == |a| + i && NextMatch(t, i).Some?
    ensures NextMatch(s, at).Some? && After(s, at) == |a| + After(t, i) && UpToNext(s, at) == UpToNext(t, i)
  {
    PlacesBehind(a, t, s, i, at);
    SamePieces(a, t, s, i, at, NextMatch(t, i).value, NextMatch(s, at).value, After(t, i), After(s, at));
  }

  lemma SamePieces(a: string, t: string, s: string, i: nat, at: nat, k: nat, atK: nat, next: nat, atNext: nat)
    requires s == a + t && i <= |t| && at == |a| + i && atK == |a| + k && atNext == |a| + next
    requires NextMatch(t, i) == Some(k) && next == After(t, i) && NextMatch(s, at) == Some(atK)
               && atNext == After(s, at)
    requires i <= k && k + 1 < next <= |t|
    ensures UpToNext(s, at) == UpToNext(t, i)
  {
    var text, name := t[i..k], t[k + 1..next - 1];
    SliceBehind(a, t, s, i, k, at, atK);
    SliceBehind(a, t, s, k + 1, next - 1, atK + 1, atNext - 1);
    UpToNextIs(t, i, k, next, text, name);
    UpToNextIs(s, at, atK, atNext, text, name);
  }

  lemma PartsUnfold(s: string, i: nat)
    requires i <= |s|
    ensures NextMatch(s, i) == None ==> PartsFrom(s, i) == LiteralPart(s[i..])
    ensures NextMatch(s, i).Some? ==> PartsFrom(s, i) == UpToNext(s, i) + PartsFrom(s, After(s, i))
  {
  }

  /** The parts behind a text are those of what comes after it. */
  lemma {:induction false} PartsBehind(a: string, t: string, s: string, i: nat, at: nat)
    requires s == a + t && i <= |t| && at == |a| + i
    ensures PartsFrom(s, at) == PartsFrom(t, i)
    decreases |t| - i
  {
    PartsUnfold(s, at);
    PartsUnfold(t, i);
    NextBehind(a, t, s, i, at);
    if NextMatch(t, i) == None {
      DropBehind(a, t, s, i, at);
    } else {
      UpToNextBehind(a, t, s, i, at);
      PartsBehind(a, t, s, After(t, i), After(s, at));
    }
  }

  /** The first match is where there is one and none before it. */
  lemma {:induction false} NextIs(s: string, i: nat, k: nat)
    requires i <= k < |s| && MatchAt(s, k).Some?
    requires forall p {:trigger MatchAt(s, p)} :: i <= p < k ==> MatchAt(s, p) == None
    ensures NextMatch(s, i) == Some(k)
    decreases k - i
  {
    if i < k {
      NextIs(s, i + 1, k);
    }
  }

  lemma {:induction false} CloseIs(s: string, i: nat, j: nat)
    requires i <= j < |s| && s[j] == '}' && forall p {:trigger s[p]} :: i <= p < j ==> s[p] != '}'
    ensures CloseAt(s, i) == Some(j)
    decreases j - i
  {
    if i < j {
      CloseIs(s, i + 1, j);
    }
  }

  /** A text that stands in front of a placeholder opens none of its own. */
  lemma NoMatchBefore(text: string, s: string, p: nat)
    requires text <= s && Stands(text, false) && p < |text|
    ensures MatchAt(s, p) == None
  {
    assert s[p] == text[p];
    if s[p] == '{' {
      assert text[p + 1] == '}' && s[p + 1] == text[p + 1];
      CloseIs(s, p + 1, p + 1);
    }
  }

  lemma PlaceholderMatches(text: string, name: string, rest: string, s: string)
    requires s == text + ("{" + name + "}") + rest && SoundPart(Variable(name))
    ensures MatchAt(s, |text|) == Some(|text| + |name| + 1)
  {
    var j := |text| + |name| + 1;
    assert s[|text|] == '{' && s[j] == '}';
    forall p | |text| < p < j ensures s[p] != '}' {
      assert s[p] == name[p - |text| - 1];
    }
    CloseIs(s, |text| + 1, j);
  }

  /** Text that stands, a placeholder, and the rest: parsed one after the other. */
  lemma OnePlaceholder(text: string, name: string, rest: string, s: string)
    requires s == text + ("{" + name + "}") + rest && Stands(text, false) && SoundPart(Variable(name))
    ensures PartsFrom(s, 0) == LiteralPart(text) + [Variable(name)] + PartsFrom(rest, 0)
  {
    PlaceholderMatches(text, name, rest, s);
    forall p | 0 <= p < |text| ensures MatchAt(s, p) == None {
      NoMatchBefore(text, s, p);
    }
    NextIs(s, 0, |text|);
    PlaceholderSlices(s, 0, |text|, |text| + |name| + 1);
    FirstParts(text, name, text + ("{" + name + "}"), rest, s);
  }

  lemma FirstParts(text: string, name: string, front: string, rest: string, s: string)
    requires front == text + ("{" + name + "}") && s == front + rest
    requires NextMatch(s, 0) == Some(|text|) && MatchAt(s, |text|) == Some(|text| + |name| + 1)
    ensures PartsFrom(s, 0) == LiteralPart(text) + [Variable(name)] + PartsFrom(rest, 0)
  {
    NameSlice(text, name, front, rest, s);
    PartsUnfold(s, 0);
    UpToNextIs(s, 0, |text|, |front|, text, name);
    PartsBehind(front, rest, s, 0, |front|);
  }

  lemma NameSlice(text: string, name: string, front: string, rest: string, s: string)
    requires front == text + ("{" + name + "}") && s == front + rest
    ensures |front| == |text| + |name| + 2 && s[0..|text|] == text && s[|text| + 1..|front| - 1] == name
  {
  }

  lemma NoMatchAtEnd(text: string, p: nat)
    requires Stands(text, true) && p < |text|
    ensures MatchAt(text, p) == None
  {
    if text[p] == '{' {
      var j := CloseAt(text, p + 1);
      if j.Some? {
        assert text[p..][j.value - p] == '}';
        CloseIs(text, p + 1, p + 1);
      }
    }
  }

  lemma {:induction false} NoneFrom(s: string, i: nat)
    requires i <= |s| && forall p {:trigger MatchAt(s, p)} :: i <= p < |s| ==> MatchAt(s, p) == None
    ensures NextMatch(s, i) == None
    decreases |s| - i
  {
    if i < |s| {
      NoneFrom(s, i + 1);
    }
  }

  lemma OnlyText(text: string)
    requires Stands(text, true)
    ensures PartsFrom(text, 0) == LiteralPart(text)
  {
    forall p | 0 <= p < |text| ensures MatchAt(text, p) == None {
      NoMatchAtEnd(text, p);
    }
    NoneFrom(text, 0);
    assert text[0..] == text;
  }

  lemma CanonicalBehind(parts: seq<Part>, n: nat)
    requires Canonical(parts) && n <= |parts|
    ensures Canonical(parts[n..])
  {
    var rest := parts[n..];
    forall i | 0 <= i < |rest| ensures StandsAt(rest, i) {
      assert StandsAt(parts, n + i);
    }
  }

  lemma SpelledFirst(parts: seq<Part>)
    requires parts != []
    ensures SpelledOut(parts) == Spelled(parts[0]) + SpelledOut(parts[1..])
  {
    assert parts == [parts[0]] + parts[1..];
    SpelledBoth([parts[0]], parts[1..]);
    SpelledOne(parts[0]);
  }

  /** Parsing what canonical parts are spelled as gives those parts back. */
  lemma {:induction false} ParsesBack(parts: seq<Part>)
    requires Canonical(parts)
    ensures PartsFrom(SpelledOut(parts), 0) == parts
    decreases |parts|
  {
    if parts == [] {
      assert SpelledOut(parts) == "";
    } else {
      assert StandsAt(parts, 0);
      SpelledFirst(parts);
      if parts[0].Variable? {
        CanonicalBehind(parts, 1);
        ParsesBack(parts[1..]);
        VariableFirst(parts);
      } else if |parts| == 1 {
        assert SpelledOut(parts[1..]) == "" && SpelledOut(parts) == parts[0].text;
        OnlyText(parts[0].text);
      } else {
        assert StandsAt(parts, 1);
        CanonicalBehind(parts, 2);
        ParsesBack(parts[2..]);
        LiteralFirst(parts);
      }
    }
  }

  lemma VariableFirst(parts: seq<Part>)
    requires parts != [] && parts[0].Variable? && SoundPart(parts[0])
    requires PartsFrom(SpelledOut(parts[1..]), 0) == parts[1..]
    ensures PartsFrom(SpelledOut(parts), 0) == parts
  {
    var name, rest := parts[0].name, SpelledOut(parts[1..]);
    SpelledFirst(parts);
    AfterNothing("{" + name + "}", rest);
    OnePlaceholder("", name, rest, SpelledOut(parts));
  }

  lemma AfterNothing(a: string, b: string)
    ensures "" + a + b == a + b
  {
  }

  lemma LiteralFirst(parts: seq<Part>)
    requires |parts| > 1 && parts[0].Literal? && parts[1].Variable? && SoundPart(parts[0]) && SoundPart(parts[1])
    requires Stands(parts[0].text, false) && PartsFrom(SpelledOut(parts[2..]), 0) == parts[2..]
    ensures PartsFrom(SpelledOut(parts), 0) == parts
  {
    var text, name, rest := parts[0].text, parts[1].name, SpelledOut(parts[2..]);
    SpelledFirst(parts);
    SpelledFirst(parts[1..]);
    assert parts[1..][1..] == parts[2..];
    Reassociate(text, "{" + name + "}", rest);
    OnePlaceholder(text, name, rest, SpelledOut(parts));
    assert parts == [parts[0]] + [parts[1]] + parts[2..];
  }

  /** Before the first match there is none. */
  lemma {:induction false} NoneBefore(s: string, i: nat, p: nat)
    requires i <= p < |s| && (NextMatch(s, i).Some? ==> p < NextMatch(s, i).value)
    ensures MatchAt(s, p) == None
    decreases |s| - i
  {
    if i < p {
      NoneBefore(s, i + 1, p);
    }
  }

  /** Text before the next placeholder stands; so does text behind the last one. */
  lemma TextStands(s: string, i: nat, k: nat, atEnd: bool)
    requires i <= k <= |s| && (atEnd <==> k == |s|) && (!atEnd ==> MatchAt(s, k).Some?)
    requires forall p {:trigger MatchAt(s, p)} :: i <= p < k ==> MatchAt(s, p) == None
    ensures Stands(s[i..k], atEnd)
  {
    var text := s[i..k];
    forall p | 0 <= p < |text| && text[p] == '{'
      ensures (p + 1 < |text| && text[p + 1] == '}') || (atEnd && '}' !in text[p..])
    {
      assert MatchAt(s, i + p) == None && s[i + p] == '{';
      ClosedAtOnce(s, i + p, k, atEnd);
      if CloseAt(s, i + p + 1) == None {
        assert forall q {:trigger text[p..][q]} :: 0 <= q < |text[p..]| ==> text[p..][q] == s[i + p + q];
      } else {
        assert text[p + 1] == s[i + p + 1];
      }
    }
  }

  lemma ClosedAtOnce(s: string, p: nat, k: nat, atEnd: bool)
    requires p < k <= |s| && s[p] == '{' && MatchAt(s, p) == None && (atEnd <==> k == |s|)
    requires !atEnd ==> MatchAt(s, k).Some?
    ensures CloseAt(s, p + 1) == None ==> atEnd
    ensures CloseAt(s, p + 1).Some? ==> p + 1 < k && s[p + 1] == '}'
  {
    if !atEnd {
      var j := MatchAt(s, k).value;
      assert s[j] == '}' && p + 1 <= j;
    }
  }

  lemma CanonicalFront(text: string, name: string, rest: seq<Part>)
    requires Stands(text, false) && SoundPart(Variable(name)) && Canonical(rest)
    ensures Canonical(LiteralPart(text) + [Variable(name)] + rest)
  {
    var front := LiteralPart(text) + [Variable(name)];
    var parts := front + rest;
    forall i | 0 <= i < |parts| ensures StandsAt(parts, i) {
      if i >= |front| {
        assert StandsAt(rest, i - |front|);
      }
    }
  }

  lemma {:induction false} ParsedIsCanonical(s: string, i: nat)
    requires i <= |s|
    ensures Canonical(PartsFrom(s, i))
    decreases |s| - i
  {
    PartsUnfold(s, i);
    if NextMatch(s, i) == None {
      RestIsCanonical(s, i);
    } else {
      ParsedIsCanonical(s, After(s, i));
      FrontIsCanonical(s, i, NextMatch(s, i).value, After(s, i), PartsFrom(s, After(s, i)));
    }
  }

  lemma RestIsCanonical(s: string, i: nat)
    requires i <= |s| && NextMatch(s, i) == None
    ensures Canonical(LiteralPart(s[i..]))
  {
    forall p | i <= p < |s| ensures MatchAt(s, p) == None {
      NoneBefore(s, i, p);
    }
    TextStands(s, i, |s|, true);
    assert s[i..|s|] == s[i..];
  }

  lemma FrontIsCanonical(s: string, i: nat, k: nat, next: nat, rest: seq<Part>)
    requires i <= |s| && NextMatch(s, i) == Some(k) && next == After(s, i) && Canonical(rest)
    ensures Canonical(UpToNext(s, i) + rest)
  {
    var text, name := s[i..k], s[k + 1..next - 1];
    forall p | i <= p < k ensures MatchAt(s, p) == None {
      NoneBefore(s, i, p);
    }
    TextStands(s, i, k, false);
    UpToNextIs(s, i, k, next, text, name);
    NameIsSound(s, i);
    assert Variable(name) in UpToNext(s, i);
    CanonicalFront(text, name, rest);
  }

  /** A template's parts are the one canonical list that is spelled like it. */
  lemma ParsedIs(s: string, parts: seq<Part>)
    ensures parts == PartsFrom(s, 0) <==> Canonical(parts) && SpelledOut(parts) == s
  {
    ParsedIsCanonical(s, 0);
    PartsAreTheTemplate(s, 0);
    assert s[0..] == s;
    if Canonical(parts) {
      ParsesBack(parts);
    }
  }

  // ---------------------------------------------------------------- filling

  /** An example: the rendered value of each variable, and the prompt the model actually runs, if it has one. */
  datatype Example = Example(values: map<string, string>, rawInput: Option<string>)

  /** One substitution: the characters [start, end) of the filled text hold the value. */
  datatype Span = Span(start: nat, end: nat, value: string)

  /** The variables among the first n parts. */
  function NamesIn(parts: seq<Part>, n: nat): set<string>
    requires n <= |parts|
  {
    set i | 0 <= i < n && parts[i].Variable? :: parts[i].name
  }

  function Names(parts: seq<Part>): set<string> {
    NamesIn(parts, |parts|)
  }

  /** A parsed template never has an unnamed variable. */
  lemma ParsedNamesAreNotEmpty(s: string)
    ensures "" !in Names(PartsFrom(s, 0))
  {
    PartsAreTheTemplate(s, 0);
    var parts := PartsFrom(s, 0);
    forall i | 0 <= i < |parts| && parts[i].Variable? ensures parts[i].name != "" {
      assert parts[i] in parts;
    }
  }

  /** What one part contributes; a missing value contributes nothing (filling refuses it). */
  function PieceOf(p: Part, values: map<string, string>): string {
    match p
    case Literal(t) => t
    case Variable(n) => if n in values then values[n] else ""
  }

  /** The text of the first n parts. */
  function TextOf(parts: seq<Part>, values: map<string, string>, n: nat): string
    requires n <= |parts|
  {
    if n == 0 then "" else TextOf(parts, values, n - 1) + PieceOf(parts[n - 1], values)
  }

  /** The spans of one variable in the first n parts, in order. */
  function SpansOf(parts: seq<Part>, values: map<string, string>, name: string, n: nat): seq<Span>
    requires n <= |parts|
  {
    if n == 0 then []
    else if parts[n - 1] == Variable(name) then
      var start := |TextOf(parts, values, n - 1)|;
      var value := PieceOf(parts[n - 1], values);
      SpansOf(parts, values, name, n - 1) + [Span(start, start + |value|, value)]
    else SpansOf(parts, values, name, n - 1)
  }

  /** What filling yields: the text, and every variable's spans. */
  datatype Filled = Filled(text: string, positions: map<string, seq<Span>>)

  /** The text the model runs, when the example has one, is the filled text. */
  predicate RunsAs(ex: Example, text: string) {
    ex.rawInput.Some? ==> ex.rawInput.value == text
  }

  function SpanMap(parts: seq<Part>, values: map<string, string>, n: nat): map<string, seq<Span>>
    requires n <= |parts|
  {
    map name | name in NamesIn(parts, n) :: SpansOf(parts, values, name, n)
  }

  /** Filling as a value; None when a value is missing or the example's own prompt differs. */
  function FillSpec(parts: seq<Part>, ex: Example): Option<Filled> {
    if Names(parts) <= ex.values.Keys && RunsAs(ex, TextOf(parts, ex.values, |parts|)) then
      Some(Filled(TextOf(parts, ex.values, |parts|), SpanMap(parts, ex.values, |parts|)))
    else None
  }

  /** What can be filled: every variable has a value, and the example runs no other prompt than the filled text. */
  lemma FillsWhen(parts: seq<Part>, ex: Example)
    ensures FillSpec(parts, ex).Some? <==>
              && (forall i {:trigger parts[i]} :: 0 <= i < |parts| && parts[i].Variable? ==> parts[i].name in ex.values)
              && (ex.rawInput == None || ex.rawInput == Some(TextOf(parts, ex.values, |parts|)))
  {
    if Names(parts) <= ex.values.Keys {
      forall i | 0 <= i < |parts| && parts[i].Variable? ensures parts[i].name in ex.values {
        assert parts[i].name in Names(parts);
      }
    }
  }

  /** Append part by part, keeping the running position; refuse a missing value, then a divergent prompt. */
  method FillWithPositions(parts: seq<Part>, ex: Example) returns (r: Option<Filled>)
    ensures r == FillSpec(parts, ex)
  {
    var positions: map<string, seq<Span>> := map[];
    var currentPos: nat := 0;
    var text := "";
    for i := 0 to |parts|
      invariant NamesIn(parts, i) <= ex.values.Keys
      invariant text == TextOf(parts, ex.values, i) && currentPos == |text|
      invariant positions == SpanMap(parts, ex.values, i)
    {
      OneMorePart(parts, ex.values, i);
      OneMoreName(parts, i);
      match parts[i]
      case Literal(t) =>
        text := text + t;
        currentPos := currentPos + |t|;
      case Variable(name) =>
        if name !in ex.values {
          return None;
        }
        var value := ex.values[name];
        positions := WithSpan(positions, name, currentPos, value);
        text := text + value;
        currentPos := currentPos + |value|;
    }
    if ex.rawInput.Some? && ex.rawInput.value != text {
      return None;
    }
    r := Some(Filled(text, positions));
  }

  /** What one more variable adds to the spans. */
  function WithSpan(positions: map<string, seq<Span>>, name: string, start: nat,
                    value: string): map<string, seq<Span>> {
    positions[name := (if name in positions then positions[name] else []) + [Span(start, start + |value|, value)]]
  }

  lemma OneMoreName(parts: seq<Part>, i: nat)
    requires i < |parts|
    ensures parts[i].Literal? ==> NamesIn(parts, i + 1) == NamesIn(parts, i)
    ensures parts[i].Variable? ==>
              NamesIn(parts, i + 1) == NamesIn(parts, i) + {parts[i].name} && parts[i].name in Names(parts)
  {
  }

  lemma SpansStep(parts: seq<Part>, values: map<string, string>, name: string, i: nat)
    requires i < |parts|
    ensures parts[i] != Variable(name) ==> SpansOf(parts, values, name, i + 1) == SpansOf(parts, values, name, i)
    ensures parts[i] == Variable(name) ==>
              var start, value := |TextOf(parts, values, i)|, PieceOf(parts[i], values);
              SpansOf(parts, values, name, i + 1)
                == SpansOf(parts, values, name, i) + [Span(start, start + |value|, value)]
  {
  }

  /** What one more part adds to the names and the spans. */
  lemma OneMorePart(parts: seq<Part>, values: map<string, string>, i: nat)
    requires i < |parts|
    ensures parts[i].Literal? ==> SpanMap(parts, values, i + 1) == SpanMap(parts, values, i)
    ensures parts[i].Variable? ==>
              SpanMap(parts, values, i + 1)
              == WithSpan(SpanMap(parts, values, i), parts[i].name, |TextOf(parts, values, i)|,
                          PieceOf(parts[i], values))
  {
    OneMoreName(parts, i);
    if parts[i].Variable? && parts[i].name !in NamesIn(parts, i) {
      NoSpansBefore(parts, values, parts[i].name, i);
    }
    var want := if parts[i].Literal? then SpanMap(parts, values, i)
                else WithSpan(SpanMap(parts, values, i), parts[i].name, |TextOf(parts, values, i)|,
                              PieceOf(parts[i], values));
    forall name | name in want ensures want[name] == SpanMap(parts, values, i + 1)[name] {
      SpansStep(parts, values, name, i);
    }
    SameMap(want, SpanMap(parts, values, i + 1));
  }

  lemma {:induction false} NoSpansBefore(parts: seq<Part>, values: map<string, string>, name: string, n: nat)
    requires n <= |parts| && name !in NamesIn(parts, n)
    ensures SpansOf(parts, values, name, n) == []
  {
    if n > 0 {
      assert NamesIn(parts, n - 1) <= NamesIn(parts, n);
      assert parts[n - 1].Variable? ==> parts[n - 1].name in NamesIn(parts, n);
      NoSpansBefore(parts, values, name, n - 1);
    }
  }

  lemma {:induction false} TextGrows(parts: seq<Part>, values: map<string, string>, n: nat, k: nat)
    requires n <= k <= |parts|
    ensures TextOf(parts, values, n) <= TextOf(parts, values, k)
  {
    if n < k {
      TextGrows(parts, values, n, k - 1);
    }
  }

  /** How often a variable is substituted among the first n parts. */
  function Occurrences(parts: seq<Part>, name: string, n: nat): nat
    requires n <= |parts|
  {
    if n == 0 then 0 else Occurrences(parts, name, n - 1) + if parts[n - 1] == Variable(name) then 1 else 0
  }

  predicate Slices(text: string, span: Span) {
    span.start <= span.end <= |text| && text[span.start..span.end] == span.value
  }

  lemma SlicesLonger(text: string, longer: string, span: Span)
    requires Slices(text, span) && text <= longer
    ensures Slices(longer, span)
  {
    assert longer[span.start..span.end] == text[span.start..span.end];
  }

  /** Spans in text order, pairwise disjoint, all before position `upTo`. */
  predicate Ordered(spans: seq<Span>, upTo: nat) {
    && (forall k :: 0 <= k < |spans| ==> spans[k].end <= upTo)
    && (forall j, k :: 0 <= j < k < |spans| ==> spans[j].end <= spans[k].start)
  }

  predicate SliceTo(text: string, spans: seq<Span>, value: string) {
    forall k :: 0 <= k < |spans| ==> Slices(text, spans[k]) && spans[k].value == value
  }

  /** One more piece of text: older spans still slice it, and the new one slices exactly the piece. */
  lemma SliceOneMore(before: string, piece: string, spans: seq<Span>, value: string)
    requires SliceTo(before, spans, value)
    ensures SliceTo(before + piece, spans, value)
    ensures Slices(before + piece, Span(|before|, |before| + |piece|, piece))
  {
    AppendSlices(before, piece);
    forall k | 0 <= k < |spans| ensures Slices(before + piece, spans[k]) {
      SlicesLonger(before, before + piece, spans[k]);
    }
  }

  lemma {:induction false} SpansAreOrdered(parts: seq<Part>, values: map<string, string>, name: string, n: nat)
    requires n <= |parts|
    ensures |SpansOf(parts, values, name, n)| == Occurrences(parts, name, n)
    ensures Ordered(SpansOf(parts, values, name, n), |TextOf(parts, values, n)|)
  {
    if n > 0 {
      SpansAreOrdered(parts, values, name, n - 1);
    }
  }

  /**
   The spans of a variable are one per occurrence, in text order and disjoint, and each slices the filled text
   to exactly the substituted value.
   */
  lemma {:induction false} SpansSliceTheText(parts: seq<Part>, values: map<string, string>, name: string, n: nat)
    requires n <= |parts| && name in values
    ensures |SpansOf(parts, values, name, n)| == Occurrences(parts, name, n)
    ensures Ordered(SpansOf(parts, values, name, n), |TextOf(parts, values, n)|)
    ensures SliceTo(TextOf(parts, values, n), SpansOf(parts, values, name, n), values[name])
  {
    SpansAreOrdered(parts, values, name, n);
    if n > 0 {
      SpansSliceTheText(parts, values, name, n - 1);
      SliceOneMore(TextOf(parts, values, n - 1), PieceOf(parts[n - 1], values),
                   SpansOf(parts, values, name, n - 1), values[name]);
    }
  }

  /** The first n parts contribute texts of the same length for either example. */
  predicate SameLengths(parts: seq<Part>, a: map<string, string>, b: map<string, string>, n: nat)
    requires n <= |parts|
  {
    forall i :: 0 <= i < n ==> |PieceOf(parts[i], a)| == |PieceOf(parts[i], b)|
  }

  lemma {:induction false} SameLengthsAddUp(parts: seq<Part>, a: map<string, string>, b: map<string, string>, n: nat)
    requires n <= |parts| && SameLengths(parts, a, b, n)
    ensures |TextOf(parts, a, n)| == |TextOf(parts, b, n)|
  {
    if n > 0 {
      SameLengthsAddUp(parts, a, b, n - 1);
    }
  }

  lemma SameConcat(a: string, b: string, x: string, y: string)
    requires |a| == |b| && a + x == b + y
    ensures a == b && x == y
  {
    assert a == (a + x)[..|a|] && b == (b + y)[..|b|];
    assert x == (a + x)[|a|..] && y == (b + y)[|b|..];
  }

  /** Where values of the same lengths fill a template to the same text, they fill it at the same spans. */
  lemma {:induction false} SameLengthsSameSpans(parts: seq<Part>, a: map<string, string>, b: map<string, string>,
                                                name: string, n: nat)
    requires n <= |parts| && TextOf(parts, a, n) == TextOf(parts, b, n) && SameLengths(parts, a, b, n)
    ensures SpansOf(parts, a, name, n) == SpansOf(parts, b, name, n)
  {
    if n > 0 {
      SameFront(parts, a, b, n - 1, n);
      SameLengthsSameSpans(parts, a, b, name, n - 1);
      SameNextSpan(parts, a, b, name, n - 1, n);
    }
  }

  lemma SameNextSpan(parts: seq<Part>, a: map<string, string>, b: map<string, string>, name: string, before: nat,
                     n: nat)
    requires before < n == before + 1 <= |parts| && SpansOf(parts, a, name, before) == SpansOf(parts, b, name, before)
    requires TextOf(parts, a, before) == TextOf(parts, b, before)
    requires PieceOf(parts[before], a) == PieceOf(parts[before], b)
    ensures SpansOf(parts, a, name, n) == SpansOf(parts, b, name, n)
  {
    NextSpan(parts, a, name, before, n);
    NextSpan(parts, b, name, before, n);
  }

  lemma NextSpan(parts: seq<Part>, values: map<string, string>, name: string, before: nat, n: nat)
    requires before < n == before + 1 <= |parts|
    ensures var start, value := |TextOf(parts, values, before)|, PieceOf(parts[before], values);
            SpansOf(parts, values, name, n) == SpansOf(parts, values, name, before)
              + if parts[before] == Variable(name) then [Span(start, start + |value|, value)] else []
  {
  }

  lemma SameFront(parts: seq<Part>, a: map<string, string>, b: map<string, string>, before: nat, n: nat)
    requires before < n == before + 1 <= |parts| && TextOf(parts, a, n) == TextOf(parts, b, n)
    requires SameLengths(parts, a, b, n)
    ensures TextOf(parts, a, before) == TextOf(parts, b, before)
    ensures PieceOf(parts[before], a) == PieceOf(parts[before], b)
  {
    SameLengthsAddUp(parts, a, b, before);
    SameConcat(TextOf(parts, a, before), TextOf(parts, b, before), PieceOf(parts[before], a),
               PieceOf(parts[before], b));
  }

  /** Two examples whose values have the same lengths, variable by variable. */
  predicate AlikeInLength(parts: seq<Part>, a: Example, b: Example)
    requires Names(parts) <= a.values.Keys && Names(parts) <= b.values.Keys
  {
    forall name :: name in Names(parts) ==> |a.values[name]| == |b.values[name]|
  }

  /** Equal text and equal value lengths give equal spans. */
  lemma AlikeFillAlike(parts: seq<Part>, a: Example, b: Example)
    requires FillSpec(parts, a).Some? && FillSpec(parts, b).Some? && AlikeInLength(parts, a, b)
    requires FillSpec(parts, a).value.text == FillSpec(parts, b).value.text
    ensures FillSpec(parts, a).value.positions == FillSpec(parts, b).value.positions
  {
    forall i | 0 <= i < |parts| ensures |PieceOf(parts[i], a.values)| == |PieceOf(parts[i], b.values)| {
      if parts[i].Variable? {
        assert parts[i].name in Names(parts);
      }
    }
    var x, y := SpanMap(parts, a.values, |parts|), SpanMap(parts, b.values, |parts|);
    forall name | name in x ensures x[name] == y[name] {
      SameLengthsSameSpans(parts, a.values, b.values, name, |parts|);
    }
    SameMap(x, y);
  }
}
