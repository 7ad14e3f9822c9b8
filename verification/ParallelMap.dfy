/** `map_queries` and `map_queries_process` of `parallel.py`. Completions are steps that come in any order:
    `order` lists the items in the order in which they complete. */
module ParallelMap {
  import opened Dicts

  // ---------------------------------------------------------------- the collected map

  /** An order in which all of n items complete, each once. */
  predicate IsOrder(order: seq<nat>, n: nat) {
    |order| == n && Distinct(order) && forall i :: 0 <= i < n ==> order[i] < n
  }

  function InTurn(n: nat): (r: seq<nat>)
    ensures IsOrder(r, n)
  {
    seq(n, i => i)
  }

  /** What is collected after the items in `order` have completed: later results replace earlier ones. */
  function Collected<R>(results: seq<(string, R)>, order: seq<nat>): map<string, R>
    requires forall i :: 0 <= i < |order| ==> order[i] < |results|
  {
    if order == [] then map[] else
      var last := results[order[|order| - 1]];
      Collected(results, order[..|order| - 1])[last.0 := last.1]
  }

  // ---------------------------------------------------------------- progress

  function Percent(done: nat, n: nat): nat
    requires n > 0
  {
    100 * done / n
  }

  function LastPercent(reports: seq<(nat, nat, nat)>): int {
    if reports == [] then -1 else reports[|reports| - 1].2
  }

  /** The reports made while the first `done` of n items complete. */
  function Reports(done: nat, n: nat): seq<(nat, nat, nat)>
    requires n > 0
  {
    if done == 0 then [] else
      var before := Reports(done - 1, n);
      if Percent(done, n) >= LastPercent(before) + 10 || done == n then before + [(done, n, Percent(done, n))]
      else before
  }

  // ---------------------------------------------------------------- the two maps

  /** The loop over completions, which both versions share. */
  method Collect<R>(results: seq<(string, R)>, order: seq<nat>)
    returns (out: map<string, R>, reports: seq<(nat, nat, nat)>)
    requires IsOrder(order, |results|) && results != []
    ensures out == Collected(results, order) && reports == Reports(|results|, |results|)
  {
    hide Distinct, Percent;
    var n := |results|;
    out, reports := map[], [];
    var done := 0;
    var lastPct: int := -1;
    while done < n
      invariant done <= n
      invariant out == Collected(results, order[..done])
      invariant reports == Reports(done, n) && lastPct == LastPercent(reports)
    {
      var (qid, result) := results[order[done]];
      assert order[..done + 1][..done] == order[..done];
      out := out[qid := result];
      done := done + 1;
      var pct := Percent(done, n);
      if pct >= lastPct + 10 || done == n {
        lastPct := pct;
        reports := reports + [(done, n, pct)];
      }
    }
    assert order[..n] == order;
  }

  /** `map_queries_process`: with one worker or one item, the items complete in turn. */
  method MapQueriesProcess<T, R>(items: seq<(string, T)>, worker: ((string, T)) -> (string, R), workers: nat,
                                 order: seq<nat>)
    returns (out: map<string, R>, reports: seq<(nat, nat, nat)>)
    requires IsOrder(order, |items|)
    ensures var inTurn := workers <= 1 || |items| == 1;
            out == Collected(Worked(items, worker), if inTurn then InTurn(|items|) else order)
    ensures reports == if items == [] then [] else Reports(|items|, |items|)
  {
    if items == [] {
      return map[], [];
    }
    var inTurn := workers <= 1 || |items| == 1;
    out, reports := Collect(Worked(items, worker), if inTurn then InTurn(|items|) else order);
  }

  /** `map_queries`: every item keeps its id. */
  method MapQueries<T, R>(items: seq<(string, T)>, fn: (string, T) -> R, workers: nat, order: seq<nat>)
    returns (out: map<string, R>, reports: seq<(nat, nat, nat)>)
    requires IsOrder(order, |items|)
    ensures var inTurn := workers <= 1 || |items| == 1;
            out == Collected(Worked(items, KeepId(fn)), if inTurn then InTurn(|items|) else order)
    ensures reports == if items == [] then [] else Reports(|items|, |items|)
  {
    out, reports := MapQueriesProcess(items, KeepId(fn), workers, order);
  }

  function KeepId<T, R>(fn: (string, T) -> R): ((string, T)) -> (string, R) {
    (item: (string, T)) => (item.0, fn(item.0, item.1))
  }

  function Worked<T, R>(items: seq<(string, T)>, worker: ((string, T)) -> (string, R)): (r: seq<(string, R)>)
    ensures |r| == |items| && forall i :: 0 <= i < |r| ==> r[i] == worker(items[i])
  {
    seq(|items|, i requires 0 <= i < |items| => worker(items[i]))
  }

  // ---------------------------------------------------------------- any order, one map

  /** Items with the same id have the same result; in particular when all ids differ. */
  ghost predicate Agree<R>(results: seq<(string, R)>) {
    forall i, j :: 0 <= i < |results| && 0 <= j < |results| && results[i].0 == results[j].0 ==>
      results[i].1 == results[j].1
  }

  lemma {:induction false} CollectedKeys<R>(results: seq<(string, R)>, order: seq<nat>, q: string)
    requires forall i :: 0 <= i < |order| ==> order[i] < |results|
    ensures q in Collected(results, order) <==> exists i :: 0 <= i < |order| && results[order[i]].0 == q
    ensures q in Collected(results, order) ==>
              exists i :: 0 <= i < |order| && results[order[i]] == (q, Collected(results, order)[q])
  {
    if order == [] {
    } else {
      var n := |order| - 1;
      var front := order[..n];
      CollectedKeys(results, front, q);
      assert forall i :: 0 <= i < n ==> front[i] == order[i];
      if results[order[n]].0 == q {
        assert results[order[n]] == (q, Collected(results, order)[q]);
      } else if q in Collected(results, front) {
        var i :| 0 <= i < n && results[front[i]] == (q, Collected(results, front)[q]);
        assert results[order[i]] == (q, Collected(results, order)[q]);
      }
    }
  }

  /** Every item is in every order. */
  lemma OrderHitsAll(order: seq<nat>, n: nat, k: nat)
    requires IsOrder(order, n) && k < n
    ensures k in order
  {
    hide Distinct;
    DistinctCount(order);
    if k !in order {
      SubsetCount(Elements(order), Upto(n) - {k});
      assert false;
    }
  }

  /** When items with equal ids agree, the collected map holds exactly the results, whatever the order. */
  lemma CollectedIsResults<R>(results: seq<(string, R)>, order: seq<nat>)
    requires IsOrder(order, |results|) && Agree(results)
    ensures forall q :: q in Collected(results, order) <==> exists i :: 0 <= i < |results| && results[i].0 == q
    ensures forall i :: 0 <= i < |results| ==>
              results[i].0 in Collected(results, order) && Collected(results, order)[results[i].0] == results[i].1
  {
    hide Distinct, Collected;
    var out := Collected(results, order);
    forall i: nat | i < |results|
      ensures results[i].0 in out && out[results[i].0] == results[i].1
    {
      OrderHitsAll(order, |results|, i);
      var j :| 0 <= j < |order| && order[j] == i;
      CollectedKeys(results, order, results[i].0);
    }
    forall q | q in out
      ensures exists i :: 0 <= i < |results| && results[i].0 == q
    {
      CollectedKeys(results, order, q);
      var i :| 0 <= i < |order| && results[order[i]].0 == q;
    }
  }

  /** `order` with item i moved to the end. */
  function MovedLast(n: nat, i: nat): (r: seq<nat>)
    requires i < n
    ensures IsOrder(r, n) && r[n - 1] == i
  {
    var r := InTurn(n)[..i] + InTurn(n)[i + 1..] + [i];
    assert forall j :: 0 <= j < n - 1 ==> r[j] == if j < i then j else j + 1;
    r
  }

  /** For pairwise distinct ids and any completion order, `map_queries` gives every id the result of its own item, and
      has no other ids. */
  lemma EveryItemMapped<T, R>(items: seq<(string, T)>, fn: (string, T) -> R, order: seq<nat>)
    requires IsOrder(order, |items|) && forall i, j :: 0 <= i < j < |items| ==> items[i].0 != items[j].0
    ensures var out := Collected(Worked(items, KeepId(fn)), order);
            && (forall q :: q in out <==> exists i :: 0 <= i < |items| && items[i].0 == q)
            && forall i :: 0 <= i < |items| ==> items[i].0 in out && out[items[i].0] == fn(items[i].0, items[i].1)
  {
    hide Collected, Distinct;
    var results := Worked(items, KeepId(fn));
    assert forall i :: 0 <= i < |items| ==> results[i] == (items[i].0, fn(items[i].0, items[i].1));
    CollectedIsResults(results, order);
  }

  lemma LastWins<R>(results: seq<(string, R)>, order: seq<nat>)
    requires IsOrder(order, |results|) && order != []
    ensures var last := results[order[|order| - 1]];
            last.0 in Collected(results, order) && Collected(results, order)[last.0] == last.1
  {}

  /** Every completion order gives the map of the sequential branch exactly when items with the same id have
      the same result; so always when the ids are pairwise distinct. */
  lemma OrderIrrelevantIff<R>(results: seq<(string, R)>)
    ensures Agree(results) <==>
            forall order :: IsOrder(order, |results|) ==>
              Collected(results, order) == Collected(results, InTurn(|results|))
  {
    hide Collected, MovedLast, InTurn, Distinct;
    var n := |results|;
    if Agree(results) {
      forall order | IsOrder(order, n)
        ensures Collected(results, order) == Collected(results, InTurn(n))
      {
        CollectedIsResults(results, order);
        CollectedIsResults(results, InTurn(n));
        SameMap(results, Collected(results, order), Collected(results, InTurn(n)));
      }
    } else {
      var i, j :| 0 <= i < n && 0 <= j < n && results[i].0 == results[j].0 && results[i].1 != results[j].1;
      LastWins(results, MovedLast(n, i));
      LastWins(results, MovedLast(n, j));
      assert IsOrder(MovedLast(n, i), n) && IsOrder(MovedLast(n, j), n);
    }
  }

  /** Two items with the same id and different results: the map depends on which completes last. */
  lemma OrderCanMatter()
    ensures var results := [("q", 1), ("q", 2)];
            IsOrder([1, 0], 2) && Collected(results, [1, 0]) != Collected(results, InTurn(2))
  {
    hide Collected;
    var results := [("q", 1), ("q", 2)];
    LastWins(results, [1, 0]);
    LastWins(results, InTurn(2));
  }

  lemma SameMap<R>(results: seq<(string, R)>, a: map<string, R>, b: map<string, R>)
    requires forall q :: q in a <==> exists i :: 0 <= i < |results| && results[i].0 == q
    requires forall q :: q in b <==> exists i :: 0 <= i < |results| && results[i].0 == q
    requires forall i :: 0 <= i < |results| ==> results[i].0 in a && a[results[i].0] == results[i].1
    requires forall i :: 0 <= i < |results| ==> results[i].0 in b && b[results[i].0] == results[i].1
    ensures a == b
  {}

  lemma DistinctIdsAgree<R>(results: seq<(string, R)>)
    requires forall i, j :: 0 <= i < j < |results| ==> results[i].0 != results[j].0
    ensures Agree(results)
  {}

  // ---------------------------------------------------------------- throttling

  /** Reports whose counts rise, whose percentages are those of the counts, and lie ten points apart. */
  predicate Throttled(reports: seq<(nat, nat, nat)>, n: nat)
    requires n > 0
  {
    && (forall k :: 0 <= k < |reports| ==>
          0 < reports[k].0 <= n && reports[k].1 == n && reports[k].2 == Percent(reports[k].0, n))
    && (forall k :: 0 < k < |reports| ==> reports[k - 1].0 < reports[k].0)
    && (forall k :: 0 < k < |reports| && reports[k].0 < n ==> reports[k].2 >= reports[k - 1].2 + 10)
  }

  lemma WholePercent(n: nat)
    requires n > 0
    ensures Percent(n, n) == 100
  {}

  lemma PercentBelow(done: nat, n: nat)
    requires done < n
    ensures Percent(done, n) <= 99
  {}

  /** What also holds of the reports so far: the first comes at nine percent or more, and each before the
      last item leaves room for fewer. */
  predicate Bounded(reports: seq<(nat, nat, nat)>, done: nat, n: nat)
    requires n > 0
  {
    && (reports != [] ==> reports[|reports| - 1].0 <= done)
    && (done < n ==> 10 * |reports| - 1 <= LastPercent(reports) <= 99)
  }

  lemma AddReport(before: seq<(nat, nat, nat)>, done: nat, n: nat)
    requires 0 < done <= n && Throttled(before, n) && Bounded(before, done - 1, n)
    requires Percent(done, n) >= LastPercent(before) + 10 || done == n
    ensures Throttled(before + [(done, n, Percent(done, n))], n)
    ensures Bounded(before + [(done, n, Percent(done, n))], done, n)
  {
    hide Percent;
    if done < n {
      PercentBelow(done, n);
    }
  }

  lemma {:induction false} ReportsThrottled(done: nat, n: nat)
    requires n > 0 && done <= n
    ensures Throttled(Reports(done, n), n) && Bounded(Reports(done, n), done, n)
  {
    hide Percent, Throttled;
    if done > 0 {
      ReportsThrottled(done - 1, n);
      var before := Reports(done - 1, n);
      if Percent(done, n) >= LastPercent(before) + 10 || done == n {
        AddReport(before, done, n);
      }
    } else {
      NoReports(n);
    }
  }

  lemma NoReports(n: nat)
    requires n > 0
    ensures Throttled([], n) && Bounded([], 0, n)
  {}

  /** For any number of items: the counts strictly increase, percentages before the last report lie at least
      ten apart, the last report is (n, n, 100), and there are at most eleven. */
  lemma ProgressLaws(n: nat)
    requires n > 0
    ensures var r := Reports(n, n);
            Throttled(r, n) && 1 <= |r| <= 11 && r[|r| - 1] == (n, n, 100)
  {
    hide Throttled, Percent;
    ReportsThrottled(n, n);
    ReportsThrottled(n - 1, n);
    WholePercent(n);
  }

  /** The reports made up to `d` are those with a count of at most `d`. */
  lemma {:induction false} EarlierReports(d: nat, done: nat, n: nat)
    requires n > 0 && d <= done <= n
    ensures Reports(d, n) <= Reports(done, n)
    ensures forall k :: |Reports(d, n)| <= k < |Reports(done, n)| ==> Reports(done, n)[k].0 > d
    ensures forall k :: 0 <= k < |Reports(d, n)| ==> Reports(d, n)[k].0 <= d
  {
    hide Percent;
    if done == 0 {
    } else if d == done {
      EarlierReports(d - 1, d - 1, n);
    } else {
      EarlierReports(d, done - 1, n);
    }
  }

  lemma PercentGrows(d: nat, e: nat, n: nat)
    requires d <= e && n > 0
    ensures Percent(d, n) <= Percent(e, n)
  {
    var p, q := 100 * d / n, 100 * e / n;
    assert 100 * d < (p + 1) * n && p * n <= 100 * d && 100 * e < (q + 1) * n;
    assert (q + 1 - p) * n == (q + 1) * n - p * n;
    PositiveFactor(q + 1 - p, n);
  }

  lemma PositiveFactor(x: int, n: nat)
    requires x * n > 0
    ensures x > 0
  {}

  lemma {:induction false} CountsRise(reports: seq<(nat, nat, nat)>, n: nat, i: nat, j: nat)
    requires n > 0 && Throttled(reports, n) && i <= j < |reports|
    ensures reports[i].0 <= reports[j].0 && reports[i].2 <= reports[j].2
  {
    hide Percent;
    if i < j {
      CountsRise(reports, n, i, j - 1);
      PercentGrows(reports[j - 1].0, reports[j].0, n);
    }
  }

  lemma NinePercent(d: nat, n: nat)
    requires n > 0
    ensures Percent(d, n) >= 9 <==> 100 * d >= 9 * n
  {
    var p := 100 * d / n;
    assert p * n <= 100 * d < (p + 1) * n;
    if p >= 9 {
      assert p * n >= 9 * n;
    } else {
      assert (p + 1) * n <= 9 * n;
    }
  }

  /** Which completions are reported: the last one, and each at nine percent or more that lies ten points or more above
      every report before it. */
  lemma ReportedExact(d: nat, n: nat)
    requires 0 < d <= n
    ensures var r := Reports(n, n);
            (exists k :: 0 <= k < |r| && r[k].0 == d) <==>
            || d == n
            || (100 * d >= 9 * n && forall k :: 0 <= k < |r| && r[k].0 < d ==> r[k].2 + 10 <= 100 * d / n)
  {
    hide Throttled, Percent;
    var r, before := Reports(n, n), Reports(d - 1, n);
    EarlierReports(d - 1, n, n);
    EarlierReports(d, n, n);
    ReportsThrottled(d - 1, n);
    NinePercent(d, n);
    PercentMeans(d, n);
    forall k | 0 <= k < |before|
      ensures before[k].2 <= LastPercent(before)
    {
      CountsRise(before, n, k, |before| - 1);
    }
    var reported := Percent(d, n) >= LastPercent(before) + 10 || d == n;
    assert Reports(d, n) == if reported then before + [(d, n, Percent(d, n))] else before;
    if reported {
      assert r[|before|] == Reports(d, n)[|before|];
    }
    assert forall k :: 0 <= k < |r| && r[k].0 < d <==> 0 <= k < |before|;
    assert forall k :: 0 <= k < |before| ==> r[k] == before[k];
    if before != [] {
      assert r[|before| - 1].2 == LastPercent(before);
    }
  }

  lemma PercentMeans(d: nat, n: nat)
    requires n > 0
    ensures Percent(d, n) == 100 * d / n
  {}
}
