/**
 The append-only event stream: a writer that continues whatever stream it finds, a reader that refuses any stream that
 was rewritten, and a remote sink that cannot change what is written.
 */
module Events {
  import opened Wrappers

  const SCHEMA_VERSION: int := 1

  const EVENTS: seq<string> :=
    ["phase_started", "progress", "metric", "warning", "result_committed", "phase_completed", "campaign_terminal"]

  const FIXED_KEYS: set<string> := {"schema_version", "event", "seq", "ts", "payload"}

  /** What a line carries: the caller's payload, or the writer's note that the sink raised on another line. */
  datatype Payload = Given(text: string) | SinkFailed(event: string, at: int)

  datatype Record = Record(version: int, event: string, seqNumber: Option<int>, identity: map<string, string>,
                           payload: Payload)

  /** A line of the file: the record it parses to, if any, and whether it is terminated. */
  datatype Line = Line(record: Option<Record>, terminated: bool)

  // ---------------------------------------------------------------- reading

  predicate WellFormed(line: Line) {
    && line.terminated && line.record.Some?
    && line.record.value.version == SCHEMA_VERSION && line.record.value.event in EVENTS
  }

  /** Line i is well formed and numbered i. */
  predicate ReadableAt(lines: seq<Line>, i: nat)
    requires i < |lines|
  {
    WellFormed(lines[i]) && lines[i].record.value.seqNumber == Some(i)
  }

  predicate Readable(lines: seq<Line>) {
    forall i {:trigger ReadableAt(lines, i)} :: 0 <= i < |lines| ==> ReadableAt(lines, i)
  }

  function Records(lines: seq<Line>): seq<Record>
    requires Readable(lines)
  {
    seq(|lines|, i requires 0 <= i < |lines| => assert ReadableAt(lines, i); lines[i].record.value)
  }

  /** What a readable line is, spelled out. */
  lemma ReadableMeans(lines: seq<Line>)
    ensures Readable(lines) <==>
              forall i {:trigger lines[i]} :: 0 <= i < |lines| ==>
                && lines[i].terminated && lines[i].record.Some?
                && lines[i].record.value.version == 1 && lines[i].record.value.seqNumber == Some(i)
                && lines[i].record.value.event in
                     ["phase_started", "progress", "metric", "warning", "result_committed", "phase_completed",
                      "campaign_terminal"]
  {
    if Readable(lines) {
      forall i | 0 <= i < |lines| ensures WellFormed(lines[i]) && lines[i].record.value.seqNumber == Some(i) {
        assert ReadableAt(lines, i);
      }
    }
  }

  /** Read line after line, threading the previous number. */
  method ReadEvents(lines: seq<Line>) returns (r: Option<seq<Record>>)
    ensures r == if Readable(lines) then Some(Records(lines)) else None
  {
    var prev := -1;
    var records := [];
    for i := 0 to |lines|
      invariant prev == i - 1 && |records| == i
      invariant forall k {:trigger ReadableAt(lines, k)} :: 0 <= k < i ==> ReadableAt(lines, k)
      invariant forall k {:trigger records[k]} :: 0 <= k < i ==> lines[k].record == Some(records[k])
    {
      var line := lines[i];
      if !WellFormed(line) || line.record.value.seqNumber != Some(prev + 1) {
        assert !ReadableAt(lines, i);
        return None;
      }
      prev := prev + 1;
      records := records + [line.record.value];
    }
    SameElements(records, Records(lines));
    r := Some(records);
  }

  /** A finished run: the stream reads, and its last line is the terminal event. */
  method Terminal(lines: seq<Line>) returns (r: Option<bool>)
    ensures r == if !Readable(lines) then None
                 else Some(lines != [] && Records(lines)[|lines| - 1].event == "campaign_terminal")
  {
    var records := ReadEvents(lines);
    if records == None {
      return None;
    }
    r := Some(records.value != [] && records.value[|records.value| - 1].event == "campaign_terminal");
  }

  /**
   Any stream made of a readable stream's lines (some deleted, some repeated, in any order) is readable if and only
   if it is a prefix of it: only cutting whole lines off the end goes unnoticed.
   */
  lemma RewritingIsNoticed(lines: seq<Line>, other: seq<Line>)
    requires Readable(lines) && forall k :: 0 <= k < |other| ==> other[k] in lines
    ensures Readable(other) <==> other <= lines
  {
    if Readable(other) {
      forall k | 0 <= k < |other| ensures k < |lines| && other[k] == lines[k] {
        assert ReadableAt(other, k) && other[k] in lines;
        var i :| 0 <= i < |lines| && lines[i] == other[k];
        assert ReadableAt(lines, i);
      }
      if other != [] {
        assert other[|other| - 1] in lines;
      }
    }
    if other <= lines {
      PrefixReads(lines, other);
    }
  }

  lemma PrefixReads(lines: seq<Line>, prefix: seq<Line>)
    requires Readable(lines) && prefix <= lines
    ensures Readable(prefix)
  {
    forall k | 0 <= k < |prefix| ensures ReadableAt(prefix, k) {
      assert ReadableAt(lines, k) && prefix[k] == lines[k];
    }
  }

  /** Deleting a line is noticed exactly when it is not the last one. */
  lemma DeletionIsNoticed(lines: seq<Line>, i: nat)
    requires Readable(lines) && i < |lines|
    ensures Readable(lines[..i] + lines[i + 1..]) <==> i == |lines| - 1
  {
    var other := lines[..i] + lines[i + 1..];
    forall k | 0 <= k < |other| ensures other[k] in lines {
      assert other[k] == if k < i then lines[k] else lines[k + 1];
    }
    RewritingIsNoticed(lines, other);
    assert ReadableAt(lines, i);
    if i < |lines| - 1 {
      assert ReadableAt(lines, i + 1) && other[i] == lines[i + 1] != lines[i];
    }
  }

  /** Repeating a line anywhere is always noticed. */
  lemma DuplicationIsNoticed(lines: seq<Line>, i: nat, at: nat)
    requires Readable(lines) && i < |lines| && at <= |lines|
    ensures !Readable(lines[..at] + [lines[i]] + lines[at..])
  {
    var other := lines[..at] + [lines[i]] + lines[at..];
    forall k | 0 <= k < |other| ensures other[k] in lines {
      assert other[k] == if k < at then lines[k] else if k == at then lines[i] else lines[k - 1];
    }
    RewritingIsNoticed(lines, other);
  }

  // ---------------------------------------------------------------- writing, as a state machine

  /** A sink, as far as the stream is concerned: on which records it raises. */
  type Sink = Record -> bool

  function NewLine(lines: seq<Line>, identity: map<string, string>, event: string, payload: Payload): Line {
    Line(Some(Record(SCHEMA_VERSION, event, Some(|lines|), identity, payload)), true)
  }

  /** What one emission appends: its line, and a warning after it when there is a sink and it raises. */
  function Emitted(lines: seq<Line>, identity: map<string, string>, sink: Option<Sink>, event: string, text: string)
    : seq<Line>
  {
    var line := NewLine(lines, identity, event, Given(text));
    if sink.Some? && sink.value(line.record.value) then
      lines + [line] + [NewLine(lines + [line], identity, "warning", SinkFailed(event, |lines|))]
    else lines + [line]
  }

  /** One step of a run: opening a log with an identity and a sink, or emitting through the log open at the time. */
  datatype Step = Open(identity: map<string, string>, sink: Option<Sink>) | Emit(event: string, text: string)

  /** The log open after a run, and where its opening found the stream. */
  datatype State = State(lines: seq<Line>, identity: map<string, string>, sink: Option<Sink>, openedAt: nat)

  /** A run over a stream that starts out empty; an emission of an unknown event is refused and writes nothing. */
  function Run(steps: seq<Step>, n: nat): State
    requires n <= |steps|
  {
    if n == 0 then State([], map[], None, 0)
    else
      var s := Run(steps, n - 1);
      match steps[n - 1]
      case Open(identity, sink) => State(s.lines, identity, sink, |s.lines|)
      case Emit(event, text) =>
        if event in EVENTS then s.(lines := Emitted(s.lines, s.identity, s.sink, event, text)) else s
  }

  /** The events and payloads of a stream, the writer's own sink warnings erased. */
  function Erased(lines: seq<Line>): seq<(string, Payload)> {
    if lines == [] then []
    else
      var last := lines[|lines| - 1];
      Erased(lines[..|lines| - 1])
      + if last.record.Some? && last.record.value.payload.Given? then
        [(last.record.value.event, last.record.value.payload)]
        else []
  }

  /** The known events a run emits, in order. */
  function Emissions(steps: seq<Step>, n: nat): seq<(string, Payload)>
    requires n <= |steps|
  {
    if n == 0 then []
    else Emissions(steps, n - 1)
         + if steps[n - 1].Emit? && steps[n - 1].event in EVENTS then
           [(steps[n - 1].event, Given(steps[n - 1].text))] else []
  }

  lemma ErasedSnoc(lines: seq<Line>, line: Line)
    ensures Erased(lines + [line])
         == Erased(lines) + if line.record.Some? && line.record.value.payload.Given?
                            then [(line.record.value.event, line.record.value.payload)] else []
  {
    assert (lines + [line])[..|lines|] == lines;
  }

  lemma ReadableSnoc(lines: seq<Line>, line: Line)
    requires Readable(lines) && WellFormed(line) && line.record.value.seqNumber == Some(|lines|)
    ensures Readable(lines + [line])
  {
    forall i | 0 <= i < |lines| + 1 ensures ReadableAt(lines + [line], i) {
      if i < |lines| {
        assert ReadableAt(lines, i);
      }
    }
  }

  /**
   What an emission appends: the next line, whose record holds the event and its text under the log's identity; and one
   more when there is a sink that raises on that record, a warning that names the event and its number.
   */
  lemma EmissionAppends(lines: seq<Line>, identity: map<string, string>, sink: Option<Sink>, event: string,
                        text: string)
    ensures var after, n := Emitted(lines, identity, sink, event, text), |lines|;
            && |after| == n + (if sink.Some? && sink.value(after[n].record.value) then 2 else 1)
            && after[..n] == lines && after[n].terminated
            && after[n].record == Some(Record(1, event, Some(n), identity, Given(text)))
            && (|after| == n + 2 ==>
                  after[n + 1] == Line(Some(Record(1, "warning", Some(n + 1), identity, SinkFailed(event, n))), true))
  {
  }

  /** One emission: the stream stays readable, grows at its end, and gains one event whatever the sink does. */
  lemma EmissionKeeps(lines: seq<Line>, identity: map<string, string>, sink: Option<Sink>, event: string, text: string)
    requires Readable(lines) && event in EVENTS
    ensures Readable(Emitted(lines, identity, sink, event, text))
              && lines <= Emitted(lines, identity, sink, event, text)
    ensures Erased(Emitted(lines, identity, sink, event, text)) == Erased(lines) + [(event, Given(text))]
  {
    var line := NewLine(lines, identity, event, Given(text));
    var warning := NewLine(lines + [line], identity, "warning", SinkFailed(event, |lines|));
    ReadableSnoc(lines, line);
    ErasedSnoc(lines, line);
    assert EVENTS[3] == "warning";
    ReadableSnoc(lines + [line], warning);
    ErasedSnoc(lines + [line], warning);
  }

  /**
   Over any run of openings, emissions and sink failures: the stream is readable, numbered without a gap, and erasing
   the sink warnings leaves exactly the events emitted, as if there had been no sink.
   */
  lemma {:induction false} EveryRun(steps: seq<Step>, n: nat)
    requires n <= |steps|
    ensures Readable(Run(steps, n).lines) && Erased(Run(steps, n).lines) == Emissions(steps, n)
    ensures Run(steps, n).openedAt <= |Run(steps, n).lines|
    decreases n
  {
    if n > 0 {
      EveryRun(steps, n - 1);
      var s := Run(steps, n - 1);
      if steps[n - 1].Emit? && steps[n - 1].event in EVENTS {
        EmissionKeeps(s.lines, s.identity, s.sink, steps[n - 1].event, steps[n - 1].text);
      }
    }
  }

  /** Line i of a readable stream carries the number i. */
  lemma LinesAreNumbered(lines: seq<Line>, i: nat)
    requires Readable(lines) && i < |lines|
    ensures lines[i].record.Some? && lines[i].record.value.seqNumber == Some(i)
  {
    assert ReadableAt(lines, i);
  }

  lemma EmissionOnly(steps: seq<Step>, n: nat, s: State)
    requires n < |steps| && steps[n].Emit? && s == Run(steps, n) && Readable(s.lines)
    ensures s.lines <= Run(steps, n + 1).lines && Run(steps, n + 1).openedAt == s.openedAt
  {
    if steps[n].event in EVENTS {
      EmissionKeeps(s.lines, s.identity, s.sink, steps[n].event, steps[n].text);
    }
  }

  predicate EmitsAt(steps: seq<Step>, k: nat)
    requires k < |steps|
  {
    steps[k].Emit?
  }

  /** What was there when a log opened is still there, and the log still knows where its own lines begin. */
  lemma {:induction false} OpeningKeeps(steps: seq<Step>, m: nat, n: nat)
    requires m < n <= |steps| && steps[m].Open? && forall k {:trigger EmitsAt(steps, k)} :: m < k < n ==>
               EmitsAt(steps, k)
    ensures Run(steps, n).openedAt == |Run(steps, m).lines| && Run(steps, m).lines <= Run(steps, n).lines
    decreases n
  {
    if m < n - 1 {
      OpeningKeeps(steps, m, n - 1);
      EveryRun(steps, n - 1);
      assert EmitsAt(steps, n - 1);
      EmissionOnly(steps, n - 1, Run(steps, n - 1));
    }
  }

  /**
   The lines numbered from `openedAt` on are exactly those the current opening wrote: what was there when it opened
   is still there, before them.
   */
  lemma OpeningOwnsItsLines(steps: seq<Step>, m: nat, n: nat, i: nat)
    requires m < n <= |steps| && steps[m].Open? && forall k {:trigger EmitsAt(steps, k)} :: m < k < n ==>
               EmitsAt(steps, k)
    requires i < |Run(steps, n).lines|
    ensures Run(steps, m).lines <= Run(steps, n).lines
    ensures var line := Run(steps, n).lines[i];
            && line.record.Some? && line.record.value.seqNumber == Some(i)
            && (Run(steps, n).openedAt <= i <==> i >= |Run(steps, m).lines|)
  {
    OpeningKeeps(steps, m, n);
    EveryRun(steps, n);
    LinesAreNumbered(Run(steps, n).lines, i);
  }

  // ---------------------------------------------------------------- the writer

  /** The file every opening appends to. */
  class Stream {
    var lines: seq<Line>

    constructor (lines: seq<Line>)
      ensures this.lines == lines
    {
      this.lines := lines;
    }
  }

  class EventLog {
    const stream: Stream
    const identity: map<string, string>
    const sink: Option<Sink>
    const openedAt: nat
    var last: int

    /** The stream reads, and the log knows its last number. */
    ghost predicate Valid()
      reads this, stream
    {
      Readable(stream.lines) && last == |stream.lines| - 1 && openedAt <= |stream.lines|
    }

    constructor (stream: Stream, identity: map<string, string>, sink: Option<Sink>)
      requires Readable(stream.lines)
      ensures Valid() && this.stream == stream && this.identity == identity && this.sink == sink
      ensures openedAt == |stream.lines| && stream.lines == old(stream.lines)
    {
      this.stream, this.identity, this.sink := stream, identity, sink;
      openedAt, last := |stream.lines|, |stream.lines| - 1;
    }

    method Write(event: string, payload: Payload) returns (record: Record)
      modifies this`last, stream
      ensures last == old(last) + 1
      ensures record == Record(SCHEMA_VERSION, event, Some(last), identity, payload)
      ensures stream.lines == old(stream.lines) + [Line(Some(record), true)]
    {
      last := last + 1;
      record := Record(SCHEMA_VERSION, event, Some(last), identity, payload);
      stream.lines := stream.lines + [Line(Some(record), true)];
    }

    /** Append a line, then hand it to the sink; what the sink raises becomes one more line and goes no further. */
    method Emit(event: string, text: string) returns (written: Option<Record>)
      requires Valid()
      modifies this`last, stream
      ensures Valid()
      ensures event !in EVENTS ==> written == None && stream.lines == old(stream.lines) && last == old(last)
      ensures event in EVENTS ==>
                && stream.lines == Emitted(old(stream.lines), identity, sink, event, text)
                && written == NewLine(old(stream.lines), identity, event, Given(text)).record
    {
      if event !in EVENTS {
        return None;
      }
      EmissionKeeps(stream.lines, identity, sink, event, text);
      var record := Write(event, Given(text));
      if sink.Some? && sink.value(record) {
        var warning := Write("warning", SinkFailed(event, record.seqNumber.value));
      }
      written := Some(record);
    }
  }

  /** Opening refuses an identity that shadows a line's own keys and a stream that does not read. */
  method OpenLog(stream: Stream, identity: map<string, string>, sink: Option<Sink>) returns (log: Option<EventLog>)
    ensures log.Some? <==>
              identity.Keys !! {"schema_version", "event", "seq", "ts", "payload"} && Readable(stream.lines)
    ensures log.Some? ==> fresh(log.value) && log.value.Valid() && log.value.stream == stream
    ensures log.Some? ==>
              log.value.openedAt == |stream.lines| && log.value.identity == identity && log.value.sink == sink
  {
    var existing := ReadEvents(stream.lines);
    if !(identity.Keys !! FIXED_KEYS) || existing == None {
      return None;
    }
    var opening := new EventLog(stream, identity, sink);
    log := Some(opening);
  }
}
