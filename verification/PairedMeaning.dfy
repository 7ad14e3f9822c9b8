/** What the paired comparison of `baseline.py` says about the two runs themselves: which cases are compared, by which
    values, and what gains and losses do to the report. */
module PairedMeaning {
  import opened Wrappers
  import opened PyText
  import opened Ordering
  import opened Numbers
  import opened PairedStats
  import opened PairedStatsLaws
  import SignTest

  // ---------------------------------------------------------------- the compared cases

  predicate HoldsNumber(m: Case, metric: string) {
    metric in m && m[metric].Num?
  }

  /** The case is read as `x`: the value under the first of the metric names that holds a number. */
  predicate Reads(m: Case, metrics: seq<string>, x: real) {
    exists i ::
      && 0 <= i < |metrics| && HoldsNumber(m, metrics[i]) && m[metrics[i]].x == x
      && forall j :: 0 <= j < i ==> !HoldsNumber(m, metrics[j])
  }

  lemma {:induction false} ValExact(m: Case, metrics: seq<string>, x: real)
    ensures Val(m, metrics) == Some(x) <==> Reads(m, metrics, x)
  {
    if metrics == [] {
    } else if HoldsNumber(m, metrics[0]) {
      assert m[metrics[0]].x == x ==> Reads(m, metrics, x);
    } else {
      var rest := metrics[1..];
      ValExact(m, rest, x);
      if Reads(m, rest, x) {
        var i :| 0 <= i < |rest| && HoldsNumber(m, rest[i]) && m[rest[i]].x == x
                 && forall j :: 0 <= j < i ==> !HoldsNumber(m, rest[j]);
        assert forall j :: 0 < j < i + 1 ==> metrics[j] == rest[j - 1];
        assert HoldsNumber(m, metrics[i + 1]);
      }
      if Reads(m, metrics, x) {
        var i :| 0 <= i < |metrics| && HoldsNumber(m, metrics[i]) && m[metrics[i]].x == x
                 && forall j :: 0 <= j < i ==> !HoldsNumber(m, metrics[j]);
        assert metrics[i] == rest[i - 1];
        assert forall j :: 0 <= j < i - 1 ==> rest[j] == metrics[j + 1];
      }
    }
  }

  /** The id of a case of both runs that is not the roll-up of a data set. */
  ghost predicate IsShared(base: Cases, latest: Cases, id: string) {
    id in base && id in latest && !exists dataset :: id == dataset + ".agent"
  }

  /** A compared case: both runs hold a number, and the difference is the latest one less the base one. */
  ghost predicate IsPaired(base: Cases, latest: Cases, metrics: seq<string>, c: PairedCase) {
    && IsShared(base, latest, c.id)
    && Reads(base[c.id], metrics, c.base) && Reads(latest[c.id], metrics, c.latest)
    && c.delta == c.latest - c.base
  }

  lemma RollUpExact(id: string)
    ensures HasSuffix(id, ".agent") <==> exists dataset :: id == dataset + ".agent"
  {
    if HasSuffix(id, ".agent") {
      assert id == id[..|id| - 6] + ".agent";
    }
    if dataset :| id == dataset + ".agent" {
      assert id[|id| - 6..] == ".agent";
    }
  }

  lemma PairExact(base: Cases, latest: Cases, metrics: seq<string>, id: string, c: PairedCase)
    requires IsShared(base, latest, id)
    ensures PairOf(base, latest, metrics, id) == Some(c) <==> c.id == id && IsPaired(base, latest, metrics, c)
  {
    hide Val, Reads;
    ValExact(base[id], metrics, c.base);
    ValExact(latest[id], metrics, c.latest);
  }

  /** The shared ids, read from the front. */
  ghost function SharedIds(base: Cases, latest: Cases, ids: seq<string>): seq<string> {
    if ids == [] then []
    else (if IsShared(base, latest, ids[0]) then [ids[0]] else []) + SharedIds(base, latest, ids[1..])
  }

  lemma {:induction false} SharedIdsSnoc(base: Cases, latest: Cases, ids: seq<string>, id: string)
    ensures SharedIds(base, latest, ids + [id]) ==
            SharedIds(base, latest, ids) + if IsShared(base, latest, id) then [id] else []
  {
    hide IsShared;
    if ids == [] {
      assert ([] + [id])[1..] == [];
    } else {
      SharedIdsSnoc(base, latest, ids[1..], id);
      assert (ids + [id])[1..] == ids[1..] + [id] && (ids + [id])[0] == ids[0];
    }
  }

  lemma {:induction false} SharedExact(base: Cases, latest: Cases, ids: seq<string>)
    ensures Shared(base, latest, ids) == SharedIds(base, latest, ids)
  {
    if ids == [] {
    } else {
      hide HasSuffix, IsShared;
      var n := |ids| - 1;
      SharedExact(base, latest, ids[..n]);
      SharedIdsSnoc(base, latest, ids[..n], ids[n]);
      SharedMeans(base, latest, ids[n]);
      assert ids == ids[..n] + [ids[n]];
    }
  }

  lemma SharedMeans(base: Cases, latest: Cases, id: string)
    ensures IsShared(base, latest, id) <==> id in base && id in latest && !HasSuffix(id, ".agent")
  {
    RollUpExact(id);
  }

  ghost predicate HasPair(base: Cases, latest: Cases, metrics: seq<string>, id: string) {
    exists c: PairedCase :: c.id == id && IsPaired(base, latest, metrics, c)
  }

  /** The compared cases, one for each shared id with numbers in both runs, in the order of the ids. */
  ghost predicate ListsPairs(base: Cases, latest: Cases, metrics: seq<string>, shared: seq<string>,
                             cs: seq<PairedCase>)
  {
    if shared == [] then cs == []
    else if HasPair(base, latest, metrics, shared[0]) then
      && cs != [] && cs[0].id == shared[0] && IsPaired(base, latest, metrics, cs[0])
      && ListsPairs(base, latest, metrics, shared[1..], cs[1..])
    else ListsPairs(base, latest, metrics, shared[1..], cs)
  }

  lemma {:induction false} PairsCons(base: Cases, latest: Cases, metrics: seq<string>, id: string,
                                     shared: seq<string>)
    ensures Pairs(base, latest, metrics, [id] + shared) ==
            (match PairOf(base, latest, metrics, id) case None => [] case Some(c) => [c]) +
            Pairs(base, latest, metrics, shared)
    decreases |shared|
  {
    hide PairOf;
    var all := [id] + shared;
    if shared == [] {
      assert all[..0] == [] && all[0] == id;
    } else {
      var n := |shared| - 1;
      PairsCons(base, latest, metrics, id, shared[..n]);
      assert all[..|all| - 1] == [id] + shared[..n] && all[|all| - 1] == shared[n];
    }
  }

  lemma {:induction false} PairsListed(base: Cases, latest: Cases, metrics: seq<string>, shared: seq<string>)
    requires forall id :: id in shared ==> IsShared(base, latest, id)
    ensures ListsPairs(base, latest, metrics, shared, Pairs(base, latest, metrics, shared))
  {
    if shared == [] {
    } else {
      hide Pairs, PairOf, IsPaired, IsShared;
      var id, rest := shared[0], shared[1..];
      assert shared == [id] + rest;
      PairsListed(base, latest, metrics, rest);
      PairsCons(base, latest, metrics, id, rest);
      forall c
        ensures PairOf(base, latest, metrics, id) == Some(c) <==> c.id == id && IsPaired(base, latest, metrics, c)
      {
        PairExact(base, latest, metrics, id, c);
      }
      var cs := Pairs(base, latest, metrics, shared);
      match PairOf(base, latest, metrics, id)
      case None => assert cs == Pairs(base, latest, metrics, rest);
      case Some(c) => assert cs[0] == c && cs[1..] == Pairs(base, latest, metrics, rest);
    }
  }

  lemma {:induction false} SharedIdsShared(base: Cases, latest: Cases, ids: seq<string>)
    ensures var shared := SharedIds(base, latest, ids);
            forall id :: id in shared ==> IsShared(base, latest, id) && id in ids
  {
    hide IsShared;
    if ids == [] {
    } else {
      SharedIdsShared(base, latest, ids[1..]);
      assert ids == [ids[0]] + ids[1..];
    }
  }

  /** The report of a comparison, over the case ids in any order. */
  ghost function Comparison(base: Cases, latest: Cases, metrics: seq<string>, ids: seq<string>, top: nat,
                            draws: seq<seq<nat>>): Report
    requires EnoughDraws(draws, |Pairs(base, latest, metrics, Shared(base, latest, ids))|)
  {
    var shared := Shared(base, latest, ids);
    ReportOf(Pairs(base, latest, metrics, shared), |shared|, top, draws)
  }

  /** Exactly the shared ids are counted, and exactly those with numbers in both runs are compared, in order. */
  lemma CasesExact(base: Cases, latest: Cases, metrics: seq<string>, ids: seq<string>, top: nat,
                   draws: seq<seq<nat>>)
    requires EnoughDraws(draws, |Pairs(base, latest, metrics, Shared(base, latest, ids))|)
    ensures var r := Comparison(base, latest, metrics, ids, top, draws);
            && ListsPairs(base, latest, metrics, SharedIds(base, latest, ids), r.cases)
            && r.shared == |SharedIds(base, latest, ids)| && r.n == |r.cases|
  {
    hide Shared, Pairs, CountOf, Mean, Median, Interval, VerdictOf, Improvements, Regressions, IsShared, ListsPairs;
    SharedExact(base, latest, ids);
    SharedIdsShared(base, latest, ids);
    PairsListed(base, latest, metrics, SharedIds(base, latest, ids));
  }

  ghost predicate AllHavePairs(base: Cases, latest: Cases, metrics: seq<string>, shared: seq<string>) {
    forall i :: 0 <= i < |shared| ==> HasPair(base, latest, metrics, shared[i])
  }

  lemma {:induction false} ListedPaired(base: Cases, latest: Cases, metrics: seq<string>, shared: seq<string>,
                                        cs: seq<PairedCase>)
    requires ListsPairs(base, latest, metrics, shared, cs)
    ensures |cs| <= |shared|
    ensures forall i :: 0 <= i < |cs| ==> IsPaired(base, latest, metrics, cs[i]) && cs[i].id in shared
    ensures AllHavePairs(base, latest, metrics, shared) ==> |cs| == |shared|
  {
    hide IsPaired;
    if shared == [] {
    } else if HasPair(base, latest, metrics, shared[0]) {
      ListedPaired(base, latest, metrics, shared[1..], cs[1..]);
      assert forall i :: 0 < i < |cs| ==> cs[i] == cs[1..][i - 1];
      assert forall i :: 0 <= i < |shared[1..]| ==> shared[1..][i] == shared[i + 1];
    } else {
      ListedPaired(base, latest, metrics, shared[1..], cs);
    }
  }

  // ---------------------------------------------------------------- gains, losses and ties

  predicate Gained(c: PairedCase) {
    c.latest - c.base >= 0.000000000001
  }

  predicate Lost(c: PairedCase) {
    c.base - c.latest >= 0.000000000001
  }

  function Number(cs: seq<PairedCase>, p: PairedCase -> bool): nat {
    if cs == [] then 0 else (if p(cs[0]) then 1 else 0) + Number(cs[1..], p)
  }

  lemma {:induction false} NumberSnoc(cs: seq<PairedCase>, c: PairedCase, p: PairedCase -> bool)
    ensures Number(cs + [c], p) == Number(cs, p) + if p(c) then 1 else 0
  {
    if cs == [] {
      assert ([] + [c])[1..] == [];
    } else {
      NumberSnoc(cs[1..], c, p);
      assert (cs + [c])[1..] == cs[1..] + [c];
    }
  }

  lemma {:induction false} OutcomesCounted(cs: seq<PairedCase>)
    requires forall i :: 0 <= i < |cs| ==> cs[i].delta == cs[i].latest - cs[i].base
    ensures CountOf(Win, Deltas(cs)) == Number(cs, Gained) && CountOf(Loss, Deltas(cs)) == Number(cs, Lost)
  {
    if cs == [] {
    } else {
      var n := |cs| - 1;
      OutcomesCounted(cs[..n]);
      NumberSnoc(cs[..n], cs[n], Gained);
      NumberSnoc(cs[..n], cs[n], Lost);
      CountNext(Win, Deltas(cs[..n]), cs[n].delta);
      CountNext(Loss, Deltas(cs[..n]), cs[n].delta);
      assert cs == cs[..n] + [cs[n]] && Deltas(cs) == Deltas(cs[..n]) + [cs[n].delta];
    }
  }

  /** A win is a case that gained at least 1e-12 over the base run, a loss one that lost as much, any other a tie. */
  lemma OutcomesExact(base: Cases, latest: Cases, metrics: seq<string>, ids: seq<string>, top: nat,
                      draws: seq<seq<nat>>)
    requires EnoughDraws(draws, |Pairs(base, latest, metrics, Shared(base, latest, ids))|)
    ensures var r := Comparison(base, latest, metrics, ids, top, draws);
            && r.wins == Number(r.cases, Gained) && r.losses == Number(r.cases, Lost)
            && r.wins + r.losses + r.ties == r.n
  {
    hide Shared, Pairs, CountOf, Mean, Median, Interval, VerdictOf, Improvements, Regressions, ListsPairs, SharedIds;
    var r := Comparison(base, latest, metrics, ids, top, draws);
    CasesExact(base, latest, metrics, ids, top, draws);
    ListedPaired(base, latest, metrics, SharedIds(base, latest, ids), r.cases);
    OutcomesCounted(r.cases);
    OutcomesAddUp(Deltas(r.cases));
  }

  // ---------------------------------------------------------------- mean and median

  function Latests(cs: seq<PairedCase>): (r: seq<real>)
    ensures |r| == |cs| && forall i :: 0 <= i < |r| ==> r[i] == cs[i].latest
  {
    seq(|cs|, i requires 0 <= i < |cs| => cs[i].latest)
  }

  function Bases(cs: seq<PairedCase>): (r: seq<real>)
    ensures |r| == |cs| && forall i :: 0 <= i < |r| ==> r[i] == cs[i].base
  {
    seq(|cs|, i requires 0 <= i < |cs| => cs[i].base)
  }

  lemma {:induction false} SumOfDeltas(cs: seq<PairedCase>)
    requires forall i :: 0 <= i < |cs| ==> cs[i].delta == cs[i].latest - cs[i].base
    ensures Sum(Deltas(cs)) == Sum(Latests(cs)) - Sum(Bases(cs))
  {
    if cs == [] {
    } else {
      var n := |cs| - 1;
      SumOfDeltas(cs[..n]);
      assert Deltas(cs)[..n] == Deltas(cs[..n]) && Latests(cs)[..n] == Latests(cs[..n]);
      assert Bases(cs)[..n] == Bases(cs[..n]);
    }
  }

  /** The middle of a list, or the mean of the two middle elements, when its elements are put in order. */
  lemma MedianExact(ds: seq<real>, s: seq<real>)
    requires ds != [] && multiset(s) == multiset(ds) && |s| == |ds|
    requires forall i, j :: 0 <= i < j < |s| ==> s[i] <= s[j]
    ensures Median(ds) == (s[(|s| - 1) / 2] + s[|s| / 2]) / 2.0
  {
    SortSorts(ds, Rising);
    AscendingUnique(Ascending(ds), s);
  }

  /** The median of a report, given its differences in order. */
  lemma MedianOfReport(base: Cases, latest: Cases, metrics: seq<string>, ids: seq<string>, top: nat,
                       draws: seq<seq<nat>>, s: seq<real>)
    requires EnoughDraws(draws, |Pairs(base, latest, metrics, Shared(base, latest, ids))|)
    requires var ds := Deltas(Comparison(base, latest, metrics, ids, top, draws).cases);
             |s| == |ds| && multiset(s) == multiset(ds) && forall i, j :: 0 <= i < j < |s| ==> s[i] <= s[j]
    ensures Comparison(base, latest, metrics, ids, top, draws).median ==
            if s == [] then None else Some((s[(|s| - 1) / 2] + s[|s| / 2]) / 2.0)
  {
    hide Shared, Pairs, CountOf, Mean, Median, Interval, VerdictOf, Improvements, Regressions;
    var ds := Deltas(Comparison(base, latest, metrics, ids, top, draws).cases);
    if ds != [] {
      MedianExact(ds, s);
    }
  }

  // ---------------------------------------------------------------- highlights

  lemma SwapMember(cs: seq<PairedCase>, c: PairedCase)
    ensures SwappedCase(c) in SwapAll(cs) <==> c in cs
  {
    if c in cs {
      var i :| 0 <= i < |cs| && cs[i] == c;
      assert SwapAll(cs)[i] == SwappedCase(c);
    }
    if SwappedCase(c) in SwapAll(cs) {
      var i :| 0 <= i < |cs| && SwapAll(cs)[i] == SwappedCase(c);
      assert SwappedCase(SwappedCase(c)) == c && SwappedCase(SwappedCase(cs[i])) == cs[i];
    }
  }

  lemma RegressionsBest(cs: seq<PairedCase>, top: nat, c: PairedCase)
    ensures var r := Regressions(cs, top);
            && (forall i, j :: 0 <= i < j < |r| ==> r[i].delta <= r[j].delta)
            && (c in r ==> c in cs && c.delta < -EPS)
            && (c in cs && c.delta < -EPS && c !in r ==> |r| == top && forall d :: d in r ==> d.delta <= c.delta)
  {
    hide Improvements, Regressions;
    var r := Regressions(cs, top);
    SwapHighlights(cs, top);
    ImprovementsBest(SwapAll(cs), top, SwappedCase(c));
    SwapMember(cs, c);
    SwapMember(r, c);
    forall d | d in r
      ensures SwappedCase(d) in SwapAll(r)
    {
      SwapMember(r, d);
    }
    assert forall i :: 0 <= i < |r| ==> SwapAll(r)[i].delta == -r[i].delta;
  }

  /** The improvements are the largest gains of more than 1e-12, largest first, and the regressions the largest losses,
      each as many as asked for or all. */
  lemma HighlightsExact(base: Cases, latest: Cases, metrics: seq<string>, ids: seq<string>, top: nat,
                        draws: seq<seq<nat>>, c: PairedCase)
    requires EnoughDraws(draws, |Pairs(base, latest, metrics, Shared(base, latest, ids))|)
    ensures var r := Comparison(base, latest, metrics, ids, top, draws);
            && |r.improvements| <= top && |r.regressions| <= top
            && (forall i, j :: 0 <= i < j < |r.improvements| ==> r.improvements[i].delta >= r.improvements[j].delta)
            && (forall i, j :: 0 <= i < j < |r.regressions| ==> r.regressions[i].delta <= r.regressions[j].delta)
            && (c in r.improvements ==> c in r.cases && c.delta > 0.000000000001)
            && (c in r.regressions ==> c in r.cases && c.delta < -0.000000000001)
            && (c in r.cases && c.delta > 0.000000000001 && c !in r.improvements ==>
                  |r.improvements| == top && forall d :: d in r.improvements ==> d.delta >= c.delta)
            && (c in r.cases && c.delta < -0.000000000001 && c !in r.regressions ==>
                  |r.regressions| == top && forall d :: d in r.regressions ==> d.delta <= c.delta)
  {
    hide Shared, Pairs, CountOf, Mean, Median, Interval, VerdictOf, Sort, Better, Worse;
    var cs := Comparison(base, latest, metrics, ids, top, draws).cases;
    ImprovementsBest(cs, top, c);
    RegressionsBest(cs, top, c);
  }

  // ---------------------------------------------------------------- totals and verdict

  /** The mean difference is the total of the latest values less the total of the base values, over the compared
      cases. */
  lemma MeanOfTotals(base: Cases, latest: Cases, metrics: seq<string>, ids: seq<string>, top: nat,
                     draws: seq<seq<nat>>)
    requires EnoughDraws(draws, |Pairs(base, latest, metrics, Shared(base, latest, ids))|)
    ensures var r := Comparison(base, latest, metrics, ids, top, draws);
            if r.n == 0 then r.mean == None
            else r.mean.Some? && r.mean.value * r.n as real == Sum(Latests(r.cases)) - Sum(Bases(r.cases))
  {
    hide Shared, Pairs, CountOf, Sum, Median, Interval, VerdictOf, Improvements, Regressions, ListsPairs, SharedIds;
    var r := Comparison(base, latest, metrics, ids, top, draws);
    CasesExact(base, latest, metrics, ids, top, draws);
    ListedPaired(base, latest, metrics, SharedIds(base, latest, ids), r.cases);
    SumOfDeltas(r.cases);
  }

  /** Fewer than five cases decide nothing. Otherwise the verdict is neutral when 0 lies in the interval, ends included,
      and else follows the sign of the mean. The sign test takes wins and losses only. */
  lemma VerdictExact(base: Cases, latest: Cases, metrics: seq<string>, ids: seq<string>, top: nat,
                     draws: seq<seq<nat>>)
    requires EnoughDraws(draws, |Pairs(base, latest, metrics, Shared(base, latest, ids))|)
    ensures var r := Comparison(base, latest, metrics, ids, top, draws);
            && (r.interval.Some? <==> r.n >= 2) && (r.mean.Some? <==> r.n >= 1)
            && r.verdict == (if r.n < 5 then InsufficientPairs
                             else if r.interval.value.0 <= 0.0 && 0.0 <= r.interval.value.1 then NoStableDelta
                             else if r.mean.value > 0.0 then Positive
                             else Negative)
            && r.signP == if r.wins + r.losses == 0 then None else Some(SignTest.SignP(r.wins, r.losses))
  {
    hide Shared, Pairs, CountOf, Mean, Median, Interval, Improvements, Regressions, SignTest.SignP;
  }

  // ---------------------------------------------------------------- gains everywhere, losses everywhere

  /** Both runs hold a number for every shared id, and the latest one is larger by 1e-12 or more. */
  ghost predicate AllGained(base: Cases, latest: Cases, metrics: seq<string>, ids: seq<string>) {
    forall id :: id in ids && IsShared(base, latest, id) ==>
      exists b, l :: Reads(base[id], metrics, b) && Reads(latest[id], metrics, l) && l - b >= 0.000000000001
  }

  ghost predicate AllLost(base: Cases, latest: Cases, metrics: seq<string>, ids: seq<string>) {
    forall id :: id in ids && IsShared(base, latest, id) ==>
      exists b, l :: Reads(base[id], metrics, b) && Reads(latest[id], metrics, l) && b - l >= 0.000000000001
  }

  lemma ReadsOne(m: Case, metrics: seq<string>, x: real, y: real)
    requires Reads(m, metrics, x) && Reads(m, metrics, y)
    ensures x == y
  {
    ValExact(m, metrics, x);
    ValExact(m, metrics, y);
  }

  /** All compared cases have a property of the two values when every shared id has it. */
  lemma EveryCase(base: Cases, latest: Cases, metrics: seq<string>, ids: seq<string>, cs: seq<PairedCase>,
                  p: (real, real) -> bool)
    requires ListsPairs(base, latest, metrics, SharedIds(base, latest, ids), cs)
    requires forall id :: id in ids && IsShared(base, latest, id) ==>
               exists b, l :: Reads(base[id], metrics, b) && Reads(latest[id], metrics, l) && p(b, l)
    ensures |cs| == |SharedIds(base, latest, ids)|
    ensures forall i :: 0 <= i < |cs| ==> p(cs[i].base, cs[i].latest) && cs[i].delta == cs[i].latest - cs[i].base
  {
    hide Reads, ListsPairs, IsShared;
    var shared := SharedIds(base, latest, ids);
    SharedIdsShared(base, latest, ids);
    forall i | 0 <= i < |shared|
      ensures HasPair(base, latest, metrics, shared[i])
    {
      var id := shared[i];
      SharedMeans(base, latest, id);
      var b, l :| Reads(base[id], metrics, b) && Reads(latest[id], metrics, l) && p(b, l);
      assert IsPaired(base, latest, metrics, PairedCase(id, b, l, l - b));
    }
    ListedPaired(base, latest, metrics, shared, cs);
    assert AllHavePairs(base, latest, metrics, shared);
    forall i | 0 <= i < |cs|
      ensures p(cs[i].base, cs[i].latest)
    {
      var id := cs[i].id;
      SharedMeans(base, latest, id);
      var b, l :| Reads(base[id], metrics, b) && Reads(latest[id], metrics, l) && p(b, l);
      ReadsOne(base[id], metrics, b, cs[i].base);
      ReadsOne(latest[id], metrics, l, cs[i].latest);
    }
  }

  lemma {:induction false} AllOf(cs: seq<PairedCase>, p: PairedCase -> bool)
    requires forall i :: 0 <= i < |cs| ==> p(cs[i])
    ensures Number(cs, p) == |cs|
  {
    if cs == [] {
    } else {
      AllOf(cs[1..], p);
    }
  }

  /** Gains in every shared case: as many wins as shared ids, a positive mean, and with five or more cases the verdict
      "positive", whatever is drawn. */
  lemma GainsArePositive(base: Cases, latest: Cases, metrics: seq<string>, ids: seq<string>, top: nat,
                         draws: seq<seq<nat>>)
    requires EnoughDraws(draws, |Pairs(base, latest, metrics, Shared(base, latest, ids))|)
    requires AllGained(base, latest, metrics, ids)
    ensures var r := Comparison(base, latest, metrics, ids, top, draws);
            && r.wins == r.n == r.shared == |SharedIds(base, latest, ids)| && r.losses == r.ties == 0
            && (r.n > 0 ==> r.mean.Some? && r.mean.value >= 0.000000000001)
            && r.verdict == if r.n >= 5 then Positive else InsufficientPairs
  {
    hide Shared, Pairs, CountOf, Mean, Median, Interval, Improvements, Regressions, ListsPairs, Reads, IsShared;
    hide SharedIds;
    var r := Comparison(base, latest, metrics, ids, top, draws);
    CasesExact(base, latest, metrics, ids, top, draws);
    EveryCase(base, latest, metrics, ids, r.cases, (b: real, l: real) => l - b >= 0.000000000001);
    OutcomesExact(base, latest, metrics, ids, top, draws);
    AllOf(r.cases, Gained);
    var ds := Deltas(r.cases);
    if r.n > 0 {
      var lo, hi := Extremes(ds);
      MeanBetween(ds, 0.000000000001, hi);
    }
    if r.n >= 5 {
      OneSidedVerdict(ds, draws);
    }
  }

  /** Losses in every shared case, the other way round. */
  lemma LossesAreNegative(base: Cases, latest: Cases, metrics: seq<string>, ids: seq<string>, top: nat,
                          draws: seq<seq<nat>>)
    requires EnoughDraws(draws, |Pairs(base, latest, metrics, Shared(base, latest, ids))|)
    requires AllLost(base, latest, metrics, ids)
    ensures var r := Comparison(base, latest, metrics, ids, top, draws);
            && r.losses == r.n == r.shared == |SharedIds(base, latest, ids)| && r.wins == r.ties == 0
            && (r.n > 0 ==> r.mean.Some? && r.mean.value <= -0.000000000001)
            && r.verdict == if r.n >= 5 then Negative else InsufficientPairs
  {
    hide Shared, Pairs, CountOf, Mean, Median, Interval, Improvements, Regressions, ListsPairs, Reads, IsShared;
    hide SharedIds;
    var r := Comparison(base, latest, metrics, ids, top, draws);
    CasesExact(base, latest, metrics, ids, top, draws);
    EveryCase(base, latest, metrics, ids, r.cases, (b: real, l: real) => b - l >= 0.000000000001);
    OutcomesExact(base, latest, metrics, ids, top, draws);
    AllOf(r.cases, Lost);
    var ds := Deltas(r.cases);
    if r.n > 0 {
      var lo, hi := Extremes(ds);
      MeanBetween(ds, lo, -0.000000000001);
    }
    if r.n >= 5 {
      OneSidedVerdict(ds, draws);
    }
  }
}
