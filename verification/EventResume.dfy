/** Reading a turn's event stream across reconnects in `eval_run.py`. The server is a contract: asked for
    the events behind a sequence number it sends the durable events of its log behind that number, in
    order, with events that carry no sequence anywhere between them, and may stop at any point. */
module EventResume {
  import opened Wrappers

  /** The `sequence` field of an event: absent or null, a boolean, a number, or text that may parse. */
  datatype Raw = Absent | Flag(b: bool) | Number(n: int) | Text(parsed: Option<int>)

  datatype Event = Event(kind: string, raw: Raw)

  /** `_durable_sequence`: none for live events. */
  function DurableSequence(e: Event): Option<int> {
    match e.raw
    case Absent => None
    case Flag(b) => if b then Some(1) else None
    case Number(n) => Some(n)
    case Text(parsed) => parsed
  }

  function Sequences(records: seq<Event>): seq<int> {
    if records == [] then [] else
      var front := Sequences(records[..|records| - 1]);
      match DurableSequence(records[|records| - 1])
      case None => front
      case Some(s) => front + [s]
  }

  function MaxOf(xs: seq<int>): int
    requires xs != []
  {
    var last := xs[|xs| - 1];
    if |xs| == 1 then last else
      var front := MaxOf(xs[..|xs| - 1]);
      if front >= last then front else last
  }

  /** `_max_event_sequence`: the cursor for the next connection. */
  function Cursor(records: seq<Event>): int {
    if Sequences(records) == [] then 0 else MaxOf(Sequences(records))
  }

  function Kinds(records: seq<Event>): (r: seq<string>)
    ensures |r| == |records| && forall i :: 0 <= i < |r| ==> r[i] == records[i].kind
  {
    seq(|records|, i requires 0 <= i < |records| => records[i].kind)
  }

  // ---------------------------------------------------------------- one connection

  /** The events of a stream up to and including the first of a stopping kind. */
  function TakeUntil(stream: seq<Event>, stop: set<string>): seq<Event> {
    if stream == [] then []
    else if stream[0].kind in stop then [stream[0]]
    else [stream[0]] + TakeUntil(stream[1..], stop)
  }

  /** No event is recorded behind a stopping event, and everything up to it is. */
  lemma {:induction false} TakeUntilExact(stream: seq<Event>, stop: set<string>)
    ensures TakeUntil(stream, stop) <= stream
    ensures var r := TakeUntil(stream, stop);
            && (forall i :: 0 <= i < |r| - 1 ==> r[i].kind !in stop)
            && (r != stream ==> r != [] && r[|r| - 1].kind in stop)
  {
    if stream != [] && stream[0].kind !in stop {
      TakeUntilExact(stream[1..], stop);
      assert stream == [stream[0]] + stream[1..];
    }
  }

  /** Reading stops behind the n-th event. */
  lemma {:induction false} TakeUntilIs(stream: seq<Event>, stop: set<string>, n: nat)
    requires n <= |stream| && forall j :: 0 <= j < n - 1 ==> stream[j].kind !in stop
    requires n == |stream| || (n > 0 && stream[n - 1].kind in stop)
    ensures TakeUntil(stream, stop) == stream[..n]
  {
    if stream == [] {
    } else if stream[0].kind in stop {
      assert n == 1;
    } else {
      TakeUntilIs(stream[1..], stop, n - 1);
      assert stream[..n] == [stream[0]] + stream[1..][..n - 1];
    }
  }

  /** The reading loop of `stream_until_event`. */
  method StreamUntilEvent(stream: seq<Event>, afterKind: string, terminal: set<string>)
    returns (records: seq<Event>, done: bool)
    ensures records == TakeUntil(stream, terminal + {afterKind})
    ensures done <==> records != [] && records[|records| - 1].kind == afterKind
  {
    hide TakeUntil;
    records, done := [], false;
    var i := 0;
    while i < |stream|
      invariant i <= |stream| && records == stream[..i]
      invariant forall j :: 0 <= j < i - 1 ==> stream[j].kind !in terminal + {afterKind}
      invariant i > 0 ==> stream[i - 1].kind !in terminal
      invariant done <==> i > 0 && stream[i - 1].kind == afterKind
    {
      if done {
        break;
      }
      var event := stream[i];
      records := records + [event];
      i := i + 1;
      if event.kind == afterKind {
        done := true;
      }
      if event.kind in terminal {
        break;
      }
    }
    TakeUntilIs(stream, terminal + {afterKind}, i);
  }

  /** The reading loop of `_collect_sse_event_records_once`. */
  method CollectOnce(stream: seq<Event>, terminal: set<string>, stopAfter: Option<string>)
    returns (events: seq<Event>)
    ensures events == TakeUntil(stream, terminal + if stopAfter.Some? then {stopAfter.value} else {})
  {
    hide TakeUntil;
    ghost var stop := terminal + if stopAfter.Some? then {stopAfter.value} else {};
    events := [];
    var i := 0;
    while i < |stream|
      invariant i <= |stream| && events == stream[..i]
      invariant forall j :: 0 <= j < i ==> stream[j].kind !in stop
    {
      var event := stream[i];
      events := events + [event];
      i := i + 1;
      if stopAfter.Some? && event.kind == stopAfter.value {
        break;
      }
      if event.kind in terminal {
        break;
      }
    }
    TakeUntilIs(stream, stop, i);
  }

  // ---------------------------------------------------------------- the server

  predicate Increasing(log: seq<int>) {
    (forall i :: 0 <= i < |log| ==> log[i] > 0) && forall i, j :: 0 <= i < j < |log| ==> log[i] < log[j]
  }

  /** The durable events behind a sequence number. */
  function Behind(log: seq<int>, since: int): seq<int> {
    if log == [] then [] else if log[0] > since then log else Behind(log[1..], since)
  }

  /** The stream of the i-th connection for a `since` cursor. */
  type Server = (nat, int) -> seq<Event>

  ghost predicate Contract(log: seq<int>, server: Server) {
    Increasing(log) && forall i, since :: Sequences(server(i, since)) <= Behind(log, since)
  }

  // ---------------------------------------------------------------- runs

  /** A connection that is read until an event of a stopping kind or its end, or one that fails and whose
      events are thrown away. */
  datatype Step = Read(stop: set<string>) | Lost

  /** The merged records after some connections, each resuming behind the largest recorded sequence. */
  function RunOf(server: Server, steps: seq<Step>): seq<Event> {
    if steps == [] then [] else
      var n := |steps| - 1;
      var before := RunOf(server, steps[..n]);
      match steps[n]
      case Lost => before
      case Read(stop) => before + TakeUntil(server(n, Cursor(before)), stop)
  }

  /** A case under evaluation: the two lists that `merge_sse_records` extends. */
  class CaseRun {
    var events: seq<string>
    var eventRecords: seq<Event>

    constructor ()
      ensures events == [] && eventRecords == []
    {
      events, eventRecords := [], [];
    }

    /** `merge_sse_records` */
    method Merge(records: seq<Event>)
      modifies this
      ensures eventRecords == old(eventRecords) + records && events == old(events) + Kinds(records)
    {
      eventRecords := eventRecords + records;
      events := events + Kinds(records);
    }

    /** A cancel or approval resume: read behind the cursor and merge. */
    method Resume(server: Server, connection: nat, stop: set<string>)
      modifies this
      ensures var batch := TakeUntil(server(connection, Cursor(old(eventRecords))), stop);
              eventRecords == old(eventRecords) + batch && events == old(events) + Kinds(batch)
    {
      var since := Cursor(eventRecords);
      var records := CollectOnce(server(connection, since), stop, None);
      assert stop + {} == stop;
      Merge(records);
    }

    /** Any run of connections, failed ones included. */
    method Run(server: Server, steps: seq<Step>)
      requires events == [] && eventRecords == []
      modifies this
      ensures eventRecords == RunOf(server, steps) && events == Kinds(eventRecords)
    {
      var i := 0;
      while i < |steps|
        invariant i <= |steps|
        invariant eventRecords == RunOf(server, steps[..i]) && events == Kinds(eventRecords)
      {
        assert steps[..i + 1][..i] == steps[..i];
        match steps[i] {
          case Lost =>
          case Read(stop) => Resume(server, i, stop);
        }
        i := i + 1;
      }
      assert steps[..|steps|] == steps;
    }
  }

  // ---------------------------------------------------------------- exactly once

  lemma {:induction false} SequencesAppend(a: seq<Event>, b: seq<Event>)
    ensures Sequences(a + b) == Sequences(a) + Sequences(b)
    decreases |b|
  {
    hide DurableSequence;
    if b == [] {
      assert a + b == a;
    } else {
      var s := a + b;
      assert s[..|s| - 1] == a + b[..|b| - 1];
      SequencesAppend(a, b[..|b| - 1]);
    }
  }

  lemma SequencesPrefix(a: seq<Event>, b: seq<Event>)
    requires a <= b
    ensures Sequences(a) <= Sequences(b)
  {
    assert b == a + b[|a|..];
    SequencesAppend(a, b[|a|..]);
  }

  lemma {:induction false} BehindPrefix(log: seq<int>, k: nat)
    requires Increasing(log) && k <= |log|
    ensures Behind(log, if k == 0 then 0 else log[k - 1]) == log[k..]
  {
    if k > 0 {
      assert log[0] <= log[k - 1];
      if k == 1 {
        assert |log| > 1 ==> log[1] > log[0];
        assert Behind(log[1..], log[0]) == log[1..];
      } else {
        BehindPrefix(log[1..], k - 1);
        assert log[1..][k - 1..] == log[k..];
      }
    }
  }

  lemma {:induction false} MaxOfIncreasing(xs: seq<int>)
    requires Increasing(xs) && xs != []
    ensures MaxOf(xs) == xs[|xs| - 1]
  {
    if |xs| > 1 {
      MaxOfIncreasing(xs[..|xs| - 1]);
    }
  }

  /** The records hold exactly the first k durable events of the log, each once and in order. */
  predicate IsPrefix(log: seq<int>, records: seq<Event>, k: nat) {
    k <= |log| && Sequences(records) == log[..k]
  }

  lemma CursorOfPrefix(log: seq<int>, records: seq<Event>, k: nat)
    requires Increasing(log) && IsPrefix(log, records, k)
    ensures Cursor(records) == if k == 0 then 0 else log[k - 1]
  {
    if k > 0 {
      MaxOfIncreasing(log[..k]);
    }
  }

  /** One more connection, cut anywhere, appends the next durable events and nothing else. */
  lemma BatchExact(log: seq<int>, records: seq<Event>, k: nat, stream: seq<Event>, batch: seq<Event>)
    requires Increasing(log) && IsPrefix(log, records, k)
    requires Sequences(stream) <= Behind(log, Cursor(records)) && batch <= stream
    ensures IsPrefix(log, records + batch, k + |Sequences(batch)|)
  {
    hide Cursor, Behind, Increasing, Sequences;
    CursorOfPrefix(log, records, k);
    BehindPrefix(log, k);
    SequencesPrefix(batch, stream);
    SequencesAppend(records, batch);
    var s := Sequences(batch);
    assert s <= log[k..];
    assert log[..k] + s == log[..k + |s|];
  }

  /** Exactly-once resume: after any run of partial reads, reconnects and failed connections, the recorded
      durable sequences are exactly a prefix of the server's log. */
  lemma {:induction false} RunExact(log: seq<int>, server: Server, steps: seq<Step>)
    requires Contract(log, server)
    ensures IsPrefix(log, RunOf(server, steps), |Sequences(RunOf(server, steps))|)
  {
    hide Cursor, Behind, TakeUntil, Increasing;
    if steps == [] {
      assert log[..0] == [];
    } else {
      var n := |steps| - 1;
      var before := RunOf(server, steps[..n]);
      RunExact(log, server, steps[..n]);
      match steps[n]
      case Lost =>
      case Read(stop) =>
        var stream := server(n, Cursor(before));
        var batch := TakeUntil(stream, stop);
        TakeUntilExact(stream, stop);
        SequencesAppend(before, batch);
        BatchExact(log, before, |Sequences(before)|, stream, batch);
    }
  }

  /** The recorded durable sequences are strictly increasing, so none is recorded twice. */
  lemma RunIncreasing(log: seq<int>, server: Server, steps: seq<Step>)
    requires Contract(log, server)
    ensures Increasing(Sequences(RunOf(server, steps)))
  {
    hide RunOf, Sequences;
    RunExact(log, server, steps);
  }

  /** A connection that delivers everything behind the cursor and is read to its end completes the log. */
  lemma RunCompletes(log: seq<int>, server: Server, steps: seq<Step>, stop: set<string>)
    requires Contract(log, server)
    requires var since := Cursor(RunOf(server, steps));
             var stream := server(|steps|, since);
             Sequences(stream) == Behind(log, since) && TakeUntil(stream, stop) == stream
    ensures Sequences(RunOf(server, steps + [Read(stop)])) == log
  {
    hide Cursor, Behind, TakeUntil, Sequences;
    var before := RunOf(server, steps);
    var k := |Sequences(before)|;
    assert (steps + [Read(stop)])[..|steps|] == steps;
    RunExact(log, server, steps);
    CursorOfPrefix(log, before, k);
    BehindPrefix(log, k);
    SequencesAppend(before, server(|steps|, Cursor(before)));
    assert log[..k] + log[k..] == log;
  }

  // ---------------------------------------------------------------- reconnecting

  datatype Outcome = Types(kinds: seq<string>) | TimedOut | NoEvents | Duplicates | OrderBroken

  predicate HasDuplicates(xs: seq<int>) {
    exists i, j :: 0 <= i < j < |xs| && xs[i] == xs[j]
  }

  predicate NonDecreasing(xs: seq<int>) {
    forall i, j :: 0 <= i < j < |xs| ==> xs[i] <= xs[j]
  }

  /** The event to reconnect after ends the records of the first connection. */
  predicate Reached(first: seq<Event>, reconnectAfter: string) {
    first != [] && first[|first| - 1].kind == reconnectAfter
  }

  /** What the two checks say of the merged records. */
  function Checked(merged: seq<Event>): Outcome {
    if HasDuplicates(Sequences(merged)) then Duplicates
    else if !NonDecreasing(Sequences(merged)) then OrderBroken
    else Types(Kinds(merged))
  }

  /** `collect_sse_with_reconnect`, for any server: it times out exactly when the first stream ends, or reaches a
      terminal event, without the event to reconnect after. */
  method CollectWithReconnect(server: Server, reconnectAfter: string, terminal: set<string>)
    returns (outcome: Outcome)
    ensures var steps := [Read(terminal + {reconnectAfter}), Read(terminal)];
            outcome == if Reached(RunOf(server, steps[..1]), reconnectAfter) then Checked(RunOf(server, steps))
                       else TimedOut
  {
    hide TakeUntil, Sequences, Cursor, HasDuplicates, NonDecreasing;
    var first, done := StreamUntilEvent(server(0, 0), reconnectAfter, terminal);
    RunOfTwo(server, terminal + {reconnectAfter}, terminal);
    if !done {
      return TimedOut;
    }
    if first == [] {
      return NoEvents;
    }
    var second := CollectOnce(server(1, Cursor(first)), terminal, None);
    assert terminal + {} == terminal;
    var merged := first + second;
    var sequences := Sequences(merged);
    if HasDuplicates(sequences) {
      return Duplicates;
    }
    if !NonDecreasing(sequences) {
      return OrderBroken;
    }
    return Types(Kinds(merged));
  }

  /** Under the server's contract the checks never fail: the outcome is the kinds of the merged records. */
  lemma ChecksNeverFail(log: seq<int>, server: Server, steps: seq<Step>)
    requires Contract(log, server)
    ensures Checked(RunOf(server, steps)) == Types(Kinds(RunOf(server, steps)))
  {
    hide RunOf, Sequences, Increasing, HasDuplicates, NonDecreasing;
    RunIncreasing(log, server, steps);
    IncreasingChecks(Sequences(RunOf(server, steps)));
  }

  lemma IncreasingChecks(xs: seq<int>)
    requires Increasing(xs)
    ensures !HasDuplicates(xs) && NonDecreasing(xs)
  {}

  lemma RunOfTwo(server: Server, stop0: set<string>, stop1: set<string>)
    ensures var steps := [Read(stop0), Read(stop1)];
            var first := TakeUntil(server(0, 0), stop0);
            && RunOf(server, steps[..1]) == first
            && RunOf(server, steps) == first + TakeUntil(server(1, Cursor(first)), stop1)
  {}
}
