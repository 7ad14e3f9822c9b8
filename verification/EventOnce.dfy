/** Exactly-once reading in `eval_run.py` on the raw `sequence` fields of the events: which events are durable, what the
    cursor is, and what is recorded over any run of connections. */
module EventOnce {
  import opened Wrappers
  import opened EventResume

  // ---------------------------------------------------------------- durable events

  /** The `sequence` field is the number, or text for it; `true` counts as 1. */
  predicate Carries(e: Event, n: int) {
    e.raw == Number(n) || e.raw == Text(Some(n)) || (e.raw == Flag(true) && n == 1)
  }

  /** The field is missing, `false`, or text that is no number. */
  predicate IsLive(e: Event) {
    e.raw == Absent || e.raw == Flag(false) || e.raw == Text(None)
  }

  /** Every event is live or carries one number. */
  lemma LiveOrDurable(e: Event)
    ensures IsLive(e) <==> forall n :: !Carries(e, n)
    ensures forall m, n :: Carries(e, m) && Carries(e, n) ==> m == n
  {
    match e.raw
    case Number(n) => assert Carries(e, n);
    case Flag(b) => assert b ==> Carries(e, 1);
    case Text(parsed) => assert parsed.Some? ==> Carries(e, parsed.value);
    case Absent =>
  }

  /** The numbers that the events carry, in order. */
  function Numbers(records: seq<Event>): seq<int> {
    if records == [] then [] else
      (match records[0].raw
       case Absent => []
       case Flag(b) => if b then [1] else []
       case Number(n) => [n]
       case Text(parsed) => if parsed.Some? then [parsed.value] else []) + Numbers(records[1..])
  }

  lemma {:induction false} NumbersRead(records: seq<Event>)
    ensures Sequences(records) == Numbers(records)
  {
    if records == [] {
    } else {
      NumbersRead(records[1..]);
      assert records == [records[0]] + records[1..];
      SequencesAppend([records[0]], records[1..]);
      assert [records[0]][..0] == [];
    }
  }

  lemma {:induction false} NumbersExact(records: seq<Event>, n: int)
    ensures n in Numbers(records) <==> exists i :: 0 <= i < |records| && Carries(records[i], n)
  {
    if records == [] {
    } else {
      var rest := records[1..];
      NumbersExact(rest, n);
      assert Numbers(records) == Numbers([records[0]]) + Numbers(rest) by { assert [records[0]][1..] == []; }
      assert n in Numbers([records[0]]) <==> Carries(records[0], n) by { assert [records[0]][1..] == []; }
      if i :| 0 <= i < |records| && Carries(records[i], n) {
        assert i == 0 || records[i] == rest[i - 1];
      }
      if i :| 0 <= i < |rest| && Carries(rest[i], n) {
        assert records[i + 1] == rest[i];
      }
    }
  }

  // ---------------------------------------------------------------- the cursor

  lemma {:induction false} MaxOfExact(xs: seq<int>)
    requires xs != []
    ensures MaxOf(xs) in xs && forall i :: 0 <= i < |xs| ==> xs[i] <= MaxOf(xs)
  {
    if |xs| == 1 {
    } else {
      MaxOfExact(xs[..|xs| - 1]);
    }
  }

  /** The cursor is the largest number that a record carries, and 0 when none carries one. */
  lemma CursorExact(records: seq<Event>)
    ensures forall i, n :: 0 <= i < |records| && Carries(records[i], n) ==> n <= Cursor(records)
    ensures (exists i :: 0 <= i < |records| && Carries(records[i], Cursor(records))) ||
            (Cursor(records) == 0 && forall i :: 0 <= i < |records| ==> IsLive(records[i]))
  {
    hide Carries, IsLive, Numbers, Sequences;
    var xs := Numbers(records);
    NumbersRead(records);
    forall i, n | 0 <= i < |records| && Carries(records[i], n)
      ensures n <= Cursor(records)
    {
      NumbersExact(records, n);
      MaxOfExact(xs);
      var k :| 0 <= k < |xs| && xs[k] == n;
    }
    if xs == [] {
      forall i | 0 <= i < |records|
        ensures IsLive(records[i])
      {
        LiveOrDurable(records[i]);
        forall n
          ensures !Carries(records[i], n)
        {
          NumbersExact(records, n);
        }
      }
    } else {
      MaxOfExact(xs);
      NumbersExact(records, MaxOf(xs));
    }
  }

  lemma {:induction false} LiveHaveNone(live: seq<Event>)
    requires forall i :: 0 <= i < |live| ==> IsLive(live[i])
    ensures Sequences(live) == []
  {
    if live == [] {
    } else {
      LiveHaveNone(live[..|live| - 1]);
    }
  }

  /** Live events between the records change neither the recorded numbers nor the cursor. */
  lemma LiveChangesNothing(before: seq<Event>, live: seq<Event>, behind: seq<Event>)
    requires forall i :: 0 <= i < |live| ==> IsLive(live[i])
    ensures Numbers(before + live + behind) == Numbers(before + behind)
    ensures Cursor(before + live + behind) == Cursor(before + behind)
  {
    hide Sequences, Numbers;
    LiveHaveNone(live);
    SequencesAppend(before + live, behind);
    SequencesAppend(before, live);
    SequencesAppend(before, behind);
    NumbersRead(before + live + behind);
    NumbersRead(before + behind);
  }

  // ---------------------------------------------------------------- exactly once

  /** What is behind a sequence number: the larger numbers of the log, in order. */
  lemma {:induction false} BehindExact(log: seq<int>, since: int)
    requires Increasing(log)
    ensures var r := Behind(log, since); |r| <= |log| && log[|log| - |r|..] == r
    ensures forall n :: n in Behind(log, since) <==> n in log && n > since
  {
    if log == [] {
    } else if log[0] > since {
      assert log[0..] == log;
    } else {
      var rest := log[1..];
      BehindExact(rest, since);
      var r := Behind(rest, since);
      assert log[|log| - |r|..] == rest[|rest| - |r|..];
      assert log == [log[0]] + rest;
    }
  }

  /** The server's contract: asked for what is behind a number, it sends events that carry the next numbers of its
      log, one after the other, and any live events between them. */
  ghost predicate Serves(log: seq<int>, server: Server) {
    Increasing(log) && forall i, since :: Numbers(server(i, since)) <= Behind(log, since)
  }

  lemma ServesMeans(log: seq<int>, server: Server)
    ensures Serves(log, server) <==> Contract(log, server)
  {
    forall i, since
      ensures Sequences(server(i, since)) == Numbers(server(i, since))
    {
      NumbersRead(server(i, since));
    }
  }

  lemma {:induction false} NumbersAppend(a: seq<Event>, b: seq<Event>)
    ensures Numbers(a + b) == Numbers(a) + Numbers(b)
  {
    hide Numbers, Sequences;
    NumbersRead(a);
    NumbersRead(b);
    NumbersRead(a + b);
    SequencesAppend(a, b);
  }

  /** Over any run of reads, reconnects and failed connections: the numbers that the records carry are a prefix of the
      log, and an earlier record never carries the same number as a later one, or a larger one. */
  lemma RunOnce(log: seq<int>, server: Server, steps: seq<Step>, i: nat, j: nat, m: int, n: int)
    requires Serves(log, server)
    ensures var records := RunOf(server, steps);
            && Numbers(records) <= log
            && (i < j < |records| && Carries(records[i], m) && Carries(records[j], n) ==> m < n)
  {
    hide RunOf, Numbers, Carries, Increasing;
    var records := RunOf(server, steps);
    ServesMeans(log, server);
    RunExact(log, server, steps);
    RunIncreasing(log, server, steps);
    NumbersRead(records);
    if i < j < |records| && Carries(records[i], m) && Carries(records[j], n) {
      var a, b := records[..i + 1], records[i + 1..];
      assert records == a + b;
      NumbersAppend(a, b);
      assert a[i] == records[i] && b[j - i - 1] == records[j];
      NumbersExact(a, m);
      NumbersExact(b, n);
      InOrder(Numbers(a), Numbers(b), m, n);
    }
  }

  lemma InOrder(xs: seq<int>, ys: seq<int>, m: int, n: int)
    requires Increasing(xs + ys) && m in xs && n in ys
    ensures m < n
  {
    var i :| 0 <= i < |xs| && xs[i] == m;
    var j :| 0 <= j < |ys| && ys[j] == n;
    assert (xs + ys)[i] == m && (xs + ys)[|xs| + j] == n;
  }

  // ---------------------------------------------------------------- the checks behind a reconnect

  /** An earlier record and a later one carry numbers that are related. */
  ghost predicate Related(records: seq<Event>, p: (int, int) -> bool) {
    exists i, j, m, n :: 0 <= i < j < |records| && Carries(records[i], m) && Carries(records[j], n) && p(m, n)
  }

  predicate RelatedNumbers(xs: seq<int>, p: (int, int) -> bool) {
    exists i, j :: 0 <= i < j < |xs| && p(xs[i], xs[j])
  }

  predicate Across(xs: seq<int>, ys: seq<int>, p: (int, int) -> bool) {
    exists i, j :: 0 <= i < |xs| && 0 <= j < |ys| && p(xs[i], ys[j])
  }

  lemma RelatedCons(xs: seq<int>, ys: seq<int>, p: (int, int) -> bool)
    requires |xs| <= 1
    ensures RelatedNumbers(xs + ys, p) <==> RelatedNumbers(ys, p) || Across(xs, ys, p)
  {
    var all := xs + ys;
    if i, j :| 0 <= i < j < |all| && p(all[i], all[j]) {
      if i < |xs| {
        assert p(xs[i], ys[j - |xs|]);
      } else {
        assert p(ys[i - |xs|], ys[j - |xs|]);
      }
    }
    if i, j :| 0 <= i < j < |ys| && p(ys[i], ys[j]) {
      assert p(all[|xs| + i], all[|xs| + j]);
    }
    if i, j :| 0 <= i < |xs| && 0 <= j < |ys| && p(xs[i], ys[j]) {
      assert p(all[i], all[|xs| + j]);
    }
  }

  lemma AcrossMeans(xs: seq<int>, ys: seq<int>, p: (int, int) -> bool)
    ensures Across(xs, ys, p) <==> exists m, n :: m in xs && n in ys && p(m, n)
  {
    if i, j :| 0 <= i < |xs| && 0 <= j < |ys| && p(xs[i], ys[j]) {
      var m, n := xs[i], ys[j];
      assert m in xs && n in ys && p(m, n);
    }
    if m, n :| m in xs && n in ys && p(m, n) {
      var i :| 0 <= i < |xs| && xs[i] == m;
      var j :| 0 <= j < |ys| && ys[j] == n;
      assert p(xs[i], ys[j]);
    }
  }

  lemma RelatedFirst(e: Event, rest: seq<Event>, p: (int, int) -> bool)
    ensures Related([e] + rest, p) <==>
            Related(rest, p) || exists j, m, n :: 0 <= j < |rest| && Carries(e, m) && Carries(rest[j], n) && p(m, n)
  {
    hide Carries;
    var all := [e] + rest;
    if i, j, m, n :| 0 <= i < j < |all| && Carries(all[i], m) && Carries(all[j], n) && p(m, n) {
      if i > 0 {
        assert Carries(rest[i - 1], m) && Carries(rest[j - 1], n);
      } else {
        assert Carries(e, m) && Carries(rest[j - 1], n);
      }
    }
    if i, j, m, n :| 0 <= i < j < |rest| && Carries(rest[i], m) && Carries(rest[j], n) && p(m, n) {
      assert Carries(all[i + 1], m) && Carries(all[j + 1], n);
    }
    if j, m, n :| 0 <= j < |rest| && Carries(e, m) && Carries(rest[j], n) && p(m, n) {
      assert Carries(all[0], m) && Carries(all[j + 1], n);
    }
  }

  lemma {:induction false} RelatedExact(records: seq<Event>, p: (int, int) -> bool)
    ensures RelatedNumbers(Numbers(records), p) <==> Related(records, p)
  {
    if records == [] {
    } else {
      hide Numbers, Carries, Related, RelatedNumbers, Across;
      var e, rest := records[0], records[1..];
      assert records == [e] + rest;
      RelatedExact(rest, p);
      NumbersAppend([e], rest);
      OneNumber(e);
      RelatedCons(Numbers([e]), Numbers(rest), p);
      AcrossMeans(Numbers([e]), Numbers(rest), p);
      RelatedFirst(e, rest, p);
      forall n
        ensures n in Numbers(rest) <==> exists j :: 0 <= j < |rest| && Carries(rest[j], n)
      {
        NumbersExact(rest, n);
      }
    }
  }

  lemma OneNumber(e: Event)
    ensures |Numbers([e])| <= 1 && forall n :: n in Numbers([e]) <==> Carries(e, n)
  {
    assert [e][1..] == [];
  }

  /** The checks fail exactly when two merged records carry the same number, or else when an earlier one carries a
      larger number than a later one. */
  lemma ChecksExact(merged: seq<Event>)
    ensures Checked(merged) ==
            if Related(merged, (m: int, n: int) => m == n) then Duplicates
            else if Related(merged, (m: int, n: int) => m > n) then OrderBroken
            else Types(Kinds(merged))
  {
    hide Sequences, Related, Numbers;
    NumbersRead(merged);
    RelatedExact(merged, (m: int, n: int) => m == n);
    RelatedExact(merged, (m: int, n: int) => m > n);
  }
}
