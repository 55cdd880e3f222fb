/** Dictionary keys as text: what encoding keeps, and exactly which keys decode to themselves. */
module NestedKeys {
  import opened Decimals
  import opened Wrappers

  /**
   One part of a tuple key. A float is named by the text the language shows it as; any other part is known only by
   the text it is written as, and is never read back.
   */
  datatype Part = IntPart(n: int) | FloatPart(shown: string) | TextPart(text: string) | OtherPart(text: string)

  /** A dictionary key: text, a tuple, or any other scalar, known by the text it is written as. */
  datatype Key = Str(text: string) | Tuple(parts: seq<Part>) | Other(text: string)

  /** How the language reads numbers: the integer a text spells, and the float, by the text that float is shown as. */
  datatype Numbers = Numbers(asInt: string -> Option<int>, asFloat: string -> Option<string>)

  /** What the language promises: integers are read as they are written, floats are shown as they are read. */
  ghost predicate Sound(num: Numbers) {
    && (forall n: int {:trigger IntText(n)} :: num.asInt(IntText(n)) == Some(n))
    && (forall shown: string {:trigger num.asFloat(shown)} :: num.asFloat(shown) == Some(shown) ==>
          num.asInt(shown) == None && ',' !in shown)
  }

  const ESCAPE: string := "%2F"

  /** Every '/' becomes "%2F". */
  function Escape(s: string): string {
    if s == "" then "" else (if s[0] == '/' then ESCAPE else [s[0]]) + Escape(s[1..])
  }

  /** Every "%2F", from the left, becomes '/'. */
  function Unescape(s: string): string {
    if EscapeAt(s, 0) then "/" + Unescape(s[3..])
    else if s == "" then ""
    else [s[0]] + Unescape(s[1..])
  }

  predicate EscapeAt(s: string, i: nat) {
    i + 3 <= |s| && s[i] == '%' && s[i + 1] == '2' && s[i + 2] == 'F'
  }

  /** The text already holds "%2F". */
  predicate Escaped(s: string) {
    exists i :: 0 <= i < |s| && EscapeAt(s, i)
  }

  function IntText(n: int): string {
    if n < 0 then "-" + Decimal(-n) else Decimal(n)
  }

  /** An integer is written in decimal, a negative one behind a sign. */
  lemma IntTextReads(n: int)
    ensures n >= 0 ==> ParseDecimal(IntText(n)) == Some(n)
    ensures n < 0 ==> IntText(n) != "" && IntText(n)[0] == '-' && ParseDecimal(IntText(n)[1..]) == Some(-n)
  {
    DecimalRoundTrip(if n < 0 then -n else n);
  }

  function PartText(p: Part): string {
    match p
    case IntPart(n) => IntText(n)
    case FloatPart(shown) => shown
    case TextPart(text) => text
    case OtherPart(text) => text
  }

  function PartTexts(parts: seq<Part>): seq<string> {
    seq(|parts|, i requires 0 <= i < |parts| => PartText(parts[i]))
  }

  function JoinTexts(texts: seq<string>): string {
    if texts == [] then "" else if |texts| == 1 then texts[0]
    else JoinTexts(texts[..|texts| - 1]) + "," + texts[|texts| - 1]
  }

  /** Joined texts are put together with one comma between any two. */
  lemma {:induction false} JoinedByCommas(a: seq<string>, b: seq<string>)
    requires a != [] && b != []
    ensures JoinTexts([]) == "" && JoinTexts([a[0]]) == a[0] && JoinTexts(a + b) == JoinTexts(a) + "," + JoinTexts(b)
    decreases |b|
  {
    var n := |b| - 1;
    assert (a + b)[..|a + b| - 1] == a + b[..n] && (a + b)[|a + b| - 1] == b[n];
    if n == 0 {
      assert a + b[..n] == a;
    } else {
      JoinedByCommas(a, b[..n]);
      Associate(JoinTexts(a), ",", JoinTexts(b[..n]), ",", b[n]);
    }
  }

  lemma Associate(a: string, b: string, c: string, d: string, e: string)
    ensures a + b + c + d + e == a + b + (c + d + e)
  {
  }

  /** A tuple's parts are not escaped. */
  function EncodeKey(k: Key): string {
    match k
    case Str(s) => Escape(s)
    case Tuple(parts) => JoinTexts(PartTexts(parts))
    case Other(text) => Escape(text)
  }

  predicate IsTuple(k: Key) {
    k.Tuple?
  }

  /** The pieces between commas. */
  function SplitCommas(s: string): (pieces: seq<string>)
    ensures |pieces| > 0
  {
    SplitFrom(s, |s|)
  }

  /** The pieces of s[..n], the last one ending at n. */
  function SplitFrom(s: string, n: nat): (pieces: seq<string>)
    requires n <= |s|
    ensures |pieces| > 0
    decreases n
  {
    var c := LastComma(s, n);
    if c == None then [s[..n]] else SplitFrom(s, c.value) + [s[c.value + 1..n]]
  }

  function LastComma(s: string, n: nat): (c: Option<nat>)
    requires n <= |s|
    ensures c.Some? ==> c.value < n && s[c.value] == ','
  {
    if n == 0 then None else if s[n - 1] == ',' then Some(n - 1) else LastComma(s, n - 1)
  }

  /** Behind the last comma there is none. */
  lemma {:induction false} LastCommaIsLast(s: string, n: nat, i: nat)
    requires i < n <= |s| && s[i] == ','
    ensures LastComma(s, n).Some? && i <= LastComma(s, n).value
    decreases n
  {
    if s[n - 1] != ',' {
      LastCommaIsLast(s, n - 1, i);
    }
  }

  /** Each piece by itself: an integer if it spells one, otherwise a float if it spells one, otherwise text. */
  function DecodePart(num: Numbers, piece: string): Part {
    if num.asInt(piece).Some? then IntPart(num.asInt(piece).value)
    else if num.asFloat(piece).Some? then FloatPart(num.asFloat(piece).value)
    else TextPart(piece)
  }

  function DecodeParts(num: Numbers, pieces: seq<string>): seq<Part> {
    seq(|pieces|, i requires 0 <= i < |pieces| => DecodePart(num, pieces[i]))
  }

  function DecodeKey(num: Numbers, s: string, wasTuple: bool): Key {
    if wasTuple then Tuple(DecodeParts(num, SplitCommas(s))) else Str(Unescape(s))
  }

  // ---------------------------------------------------------------- escaping

  /** The first character of escaped text, unless it was a slash. */
  lemma EscapeHead(s: string, c: char)
    requires c != '%' && c != '/'
    ensures Escape(s) != "" && Escape(s)[0] == c <==> s != "" && s[0] == c
  {
  }

  lemma {:induction false} NoSlash(s: string)
    ensures '/' !in Escape(s) && (Escape(s) == "" <==> s == "")
  {
    if s != "" {
      NoSlash(s[1..]);
    }
  }

  lemma EscapedTail(s: string)
    requires s != ""
    ensures Escaped(s) <==> EscapeAt(s, 0) || Escaped(s[1..])
  {
    if i :| 0 < i < |s| && EscapeAt(s, i) {
      assert EscapeAt(s[1..], i - 1);
    }
    if i :| 0 <= i < |s[1..]| && EscapeAt(s[1..], i) {
      assert EscapeAt(s, i + 1);
    }
  }

  /** Escaping makes no new "%2F" out of a text that does not start with a slash. */
  lemma StartsEscaped(s: string)
    requires s != "" && s[0] != '/'
    ensures EscapeAt(Escape(s), 0) <==> EscapeAt(s, 0)
  {
    var rest := Escape(s[1..]);
    assert Escape(s) == [s[0]] + rest;
    EscapeHead(s[1..], '2');
    if |s| >= 2 && s[1] == '2' {
      EscapeHead(s[2..], 'F');
      assert s[1..][1..] == s[2..];
      assert rest == ['2'] + Escape(s[2..]);
    }
  }

  /** Unescaping undoes escaping exactly on text without "%2F". */
  lemma {:induction false} EscapeRoundTrip(s: string)
    ensures Unescape(Escape(s)) == s <==> !Escaped(s)
  {
    if s != "" {
      var rest := s[1..];
      EscapeRoundTrip(rest);
      EscapedTail(s);
      if s[0] == '/' {
        assert EscapeAt(Escape(s), 0) && Escape(s)[3..] == Escape(rest);
        assert s == "/" + rest;
      } else {
        assert Escape(s)[1..] == Escape(rest);
        assert s == [s[0]] + rest;
        StartsEscaped(s);
      }
    }
  }

  // ---------------------------------------------------------------- splitting what was joined

  lemma IntTextIsPlain(n: int)
    ensures IntText(n) != "" && ',' !in IntText(n) && '/' !in IntText(n)
  {
    var m := if n < 0 then -n else n;
    DecimalRoundTrip(m);
    if n < 0 {
      assert IntText(n)[1..] == Decimal(m);
    }
  }

  /** From `at` on, behind a comma, s holds `last`. */
  predicate Behind(s: string, at: nat, last: string) {
    0 < at <= |s| && s[at - 1] == ',' && s[at..] == last
  }

  /** Behind a comma the search for the last one sees only what follows it. */
  lemma {:induction false} LastCommaBehind(s: string, at: nat, last: string, n: nat, hi: nat)
    requires Behind(s, at, last) && n <= |last| && hi == at + n
    ensures LastComma(s, hi) == Some(if LastComma(last, n).Some? then at + LastComma(last, n).value else at - 1)
    decreases n
  {
    if n > 0 {
      assert s[hi - 1] == last[n - 1];
      LastCommaBehind(s, at, last, n - 1, hi - 1);
    }
  }

  lemma {:induction false} LastCommaBefore(s: string, more: string, n: nat)
    requires n <= |s|
    ensures LastComma(s + more, n) == LastComma(s, n)
  {
    if n > 0 {
      LastCommaBefore(s, more, n - 1);
    }
  }

  lemma {:induction false} SplitBefore(s: string, more: string, n: nat)
    requires n <= |s|
    ensures SplitFrom(s + more, n) == SplitFrom(s, n)
    decreases n
  {
    LastCommaBefore(s, more, n);
    var c := LastComma(s, n);
    if c.Some? {
      SplitBefore(s, more, c.value);
      assert (s + more)[c.value + 1..n] == s[c.value + 1..n];
    } else {
      assert (s + more)[..n] == s[..n];
    }
  }

  lemma SliceBehind(s: string, at: nat, last: string, i: nat, n: nat, lo: nat, hi: nat)
    requires Behind(s, at, last) && i <= n <= |last| && lo == at + i && hi == at + n
    ensures s[lo..hi] == last[i..n]
  {
  }

  lemma SplitAt(s: string, n: nat, c: nat)
    requires c < n <= |s| && LastComma(s, n) == Some(c)
    ensures SplitFrom(s, n) == SplitFrom(s, c) + [s[c + 1..n]]
  {
  }

  lemma PiecesTogether(all: seq<string>, some: seq<string>, before: seq<string>, behind: seq<string>, more: seq<string>,
                       piece: string)
    requires all == some + [piece] && some == before + behind && more == behind + [piece]
    ensures all == before + more
  {
  }

  lemma NoCommaBehind(s: string, at: nat, last: string, n: nat, hi: nat)
    requires Behind(s, at, last) && n <= |last| && hi == at + n && LastComma(last, n) == None
    ensures SplitFrom(s, hi) == SplitFrom(s, at - 1) + SplitFrom(last, n)
  {
    LastCommaBehind(s, at, last, n, hi);
    SplitAt(s, hi, at - 1);
    SliceBehind(s, at, last, 0, n, at, hi);
  }

  /** A comma of `last` cuts the same last piece off both. */
  lemma CommaBehind(s: string, at: nat, last: string, n: nat, c: nat, lo: nat, hi: nat, piece: string)
    requires Behind(s, at, last) && c < n <= |last| && LastComma(last, n) == Some(c)
    requires lo == at + c && hi == at + n && piece == last[c + 1..n]
    ensures SplitFrom(s, hi) == SplitFrom(s, lo) + [piece]
  {
    LastCommaBehind(s, at, last, n, hi);
    SplitAt(s, hi, lo);
    SliceBehind(s, at, last, c + 1, n, lo + 1, hi);
  }

  lemma {:induction false} SplitBehind(s: string, at: nat, last: string, n: nat, hi: nat, before: seq<string>)
    requires Behind(s, at, last) && n <= |last| && hi == at + n && before == SplitFrom(s, at - 1)
    ensures SplitFrom(s, hi) == before + SplitFrom(last, n)
    decreases n
  {
    var comma := LastComma(last, n);
    if comma == None {
      NoCommaBehind(s, at, last, n, hi);
    } else {
      var c, piece := comma.value, last[comma.value + 1..n];
      SplitBehind(s, at, last, c, at + c, before);
      CommaBehind(s, at, last, n, c, at + c, hi, piece);
      SplitAt(last, n, c);
      PiecesTogether(SplitFrom(s, hi), SplitFrom(s, at + c), before, SplitFrom(last, c), SplitFrom(last, n), piece);
    }
  }

  /** Texts put together with a comma split into the pieces of both. */
  lemma SplitTogether(front: string, last: string)
    ensures SplitCommas(front + "," + last) == SplitCommas(front) + SplitCommas(last)
  {
    var s := front + "," + last;
    Reassociate(front, ",", last);
    SplitBefore(front, "," + last, |front|);
    SplitBehind(s, |front| + 1, last, |last|, |s|, SplitCommas(front));
  }

  /** Text splits into itself exactly when it holds no comma. */
  lemma SplitOne(s: string)
    ensures ',' !in s <==> |SplitCommas(s)| == 1
    ensures ',' !in s ==> SplitCommas(s) == [s]
  {
    assert s[..|s|] == s;
    if ',' in s {
      var i :| 0 <= i < |s| && s[i] == ',';
      LastCommaIsLast(s, |s|, i);
    }
  }

  predicate NoCommas(texts: seq<string>) {
    forall i {:trigger texts[i]} :: 0 <= i < |texts| ==> ',' !in texts[i]
  }

  /** Pieces of a joined text, for the texts it was joined from. */
  predicate SplitsInto(pieces: seq<string>, texts: seq<string>) {
    && |pieces| >= |texts| && (|pieces| == |texts| <==> NoCommas(texts)) && (NoCommas(texts) ==> pieces == texts)
  }

  lemma OneMoreText(pieces: seq<string>, front: seq<string>, last: string)
    requires SplitsInto(pieces, front)
    ensures SplitsInto(pieces + SplitCommas(last), front + [last])
  {
    SplitOne(last);
    var texts := front + [last];
    if NoCommas(texts) {
      forall i | 0 <= i < |front| ensures ',' !in front[i] {
        assert texts[i] == front[i];
      }
      assert texts[|front|] == last;
    }
    if NoCommas(front) && ',' !in last {
      assert NoCommas(texts);
    }
  }

  /** Joined texts split into no fewer pieces, and into themselves exactly when none of them holds a comma. */
  lemma {:induction false} SplitJoined(texts: seq<string>)
    requires texts != []
    ensures SplitsInto(SplitCommas(JoinTexts(texts)), texts)
    decreases |texts|
  {
    var n := |texts|;
    FrontAndLast(texts);
    if n == 1 {
      SplitOne(texts[0]);
      assert NoCommas(texts) <==> ',' !in texts[0];
      assert texts == [texts[0]];
    } else {
      var front := texts[..n - 1];
      SplitJoined(front);
      SplitTogether(JoinTexts(front), texts[n - 1]);
      OneMoreText(SplitCommas(JoinTexts(front)), front, texts[n - 1]);
    }
  }

  // ---------------------------------------------------------------- which keys survive

  /** A part that is read back as what it was. */
  predicate PartSurvives(num: Numbers, p: Part) {
    match p
    case IntPart(_) => true
    case FloatPart(shown) => num.asFloat(shown) == Some(shown)
    case TextPart(text) => ',' !in text && num.asInt(text) == None && num.asFloat(text) == None
    case OtherPart(_) => false
  }

  /**
   The keys that survive encoding: text without "%2F", and nonempty tuples of integers, floats and texts that hold no
   comma and spell no number.
   */
  predicate Survives(num: Numbers, k: Key) {
    match k
    case Str(s) => !Escaped(s)
    case Tuple(parts) => parts != [] && forall i {:trigger parts[i]} :: 0 <= i < |parts| ==> PartSurvives(num, parts[i])
    case Other(_) => false
  }

  lemma PartRoundTrip(num: Numbers, p: Part)
    requires Sound(num)
    ensures PartSurvives(num, p) <==> ',' !in PartText(p) && DecodePart(num, PartText(p)) == p
  {
    if p.IntPart? {
      IntTextIsPlain(p.n);
    }
  }

  lemma {:induction false} TupleRoundTrip(num: Numbers, parts: seq<Part>)
    requires Sound(num)
    ensures DecodeParts(num, SplitCommas(JoinTexts(PartTexts(parts)))) == parts <==> Survives(num, Tuple(parts))
  {
    var texts := PartTexts(parts);
    var decoded := DecodeParts(num, SplitCommas(JoinTexts(texts)));
    if parts != [] {
      SplitJoined(texts);
      forall i | 0 <= i < |parts|
        ensures PartSurvives(num, parts[i]) <==> ',' !in texts[i] && DecodePart(num, texts[i]) == parts[i]
      {
        PartRoundTrip(num, parts[i]);
      }
      if Survives(num, Tuple(parts)) {
        SameElements(decoded, parts);
      }
      if decoded == parts {
        forall i | 0 <= i < |parts| ensures PartSurvives(num, parts[i]) {
          assert decoded[i] == DecodePart(num, texts[i]);
        }
      }
    }
  }

  /** A key decodes to itself if and only if it survives. */
  lemma KeyRoundTrip(num: Numbers, k: Key)
    requires Sound(num)
    ensures DecodeKey(num, EncodeKey(k), IsTuple(k)) == k <==> Survives(num, k)
  {
    match k
    case Str(s) => EscapeRoundTrip(s);
    case Tuple(parts) => TupleRoundTrip(num, parts);
    case Other(_) =>
  }

  /** Text keys and tuples of integers never bring a slash into a path. */
  lemma {:induction false} IntegersHaveNoSlash(texts: seq<string>)
    requires forall i {:trigger texts[i]} :: 0 <= i < |texts| ==> '/' !in texts[i]
    ensures '/' !in JoinTexts(texts)
    decreases |texts|
  {
    if |texts| > 1 {
      IntegersHaveNoSlash(texts[..|texts| - 1]);
    }
  }

  /** Where a part spells a number although it is text, another key comes back. */
  lemma TextThatSpellsANumber(num: Numbers)
    requires Sound(num) && num.asInt("a") == None && num.asFloat("a") == None
    ensures DecodeKey(num, EncodeKey(Tuple([TextPart("a"), TextPart("1")])), true) == Tuple([TextPart("a"), IntPart(1)])
  {
    var texts := PartTexts([TextPart("a"), TextPart("1")]);
    assert IntText(1) == "1";
    SplitJoined(texts);
    assert texts == ["a", "1"];
    assert DecodeParts(num, texts) == [TextPart("a"), IntPart(1)];
  }
}
