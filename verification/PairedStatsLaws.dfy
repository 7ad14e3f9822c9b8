/** What the paired comparison of `baseline.py` promises: how it mirrors when the two runs are swapped, and
    where its bootstrap interval can lie. */
module PairedStatsLaws {
  import opened Wrappers
  import opened Ordering
  import opened Numbers
  import opened PairedStats
  import SignTest

  // ---------------------------------------------------------------- conservation

  /** Every pair is a win, a loss or a tie. */
  lemma {:induction false} OutcomesAddUp(ds: seq<real>)
    ensures CountOf(Win, ds) + CountOf(Loss, ds) + CountOf(Tie, ds) == |ds|
  {
    if ds == [] {
    } else {
      OutcomesAddUp(ds[..|ds| - 1]);
    }
  }

  // ---------------------------------------------------------------- swapping the runs

  function Neg(xs: seq<real>): (r: seq<real>)
    ensures |r| == |xs| && forall i :: 0 <= i < |xs| ==> r[i] == -xs[i]
  {
    seq(|xs|, i requires 0 <= i < |xs| => -xs[i])
  }

  function Reverse(xs: seq<real>): (r: seq<real>)
    ensures |r| == |xs| && forall i :: 0 <= i < |xs| ==> r[i] == xs[|xs| - 1 - i]
  {
    seq(|xs|, i requires 0 <= i < |xs| => xs[|xs| - 1 - i])
  }

  /** A paired case of the swapped comparison. */
  function SwappedCase(c: PairedCase): PairedCase {
    PairedCase(c.id, c.latest, c.base, -c.delta)
  }

  function SwapAll(cs: seq<PairedCase>): (r: seq<PairedCase>)
    ensures |r| == |cs| && forall i :: 0 <= i < |r| ==> r[i] == SwappedCase(cs[i])
  {
    seq(|cs|, i requires 0 <= i < |cs| => SwappedCase(cs[i]))
  }

  lemma {:induction false} SharedBothWays(base: Cases, latest: Cases, ids: seq<string>)
    ensures Shared(latest, base, ids) == Shared(base, latest, ids)
  {
    if ids == [] {
    } else {
      SharedBothWays(base, latest, ids[..|ids| - 1]);
    }
  }

  /** Swapping the two runs swaps the values of every pair and negates every difference. */
  lemma {:induction false} SwapPairs(base: Cases, latest: Cases, metrics: seq<string>, shared: seq<string>)
    ensures var cs := Pairs(base, latest, metrics, shared);
            Pairs(latest, base, metrics, shared) == SwapAll(cs) && Deltas(SwapAll(cs)) == Neg(Deltas(cs))
  {
    if shared == [] {
    } else {
      hide PairOf;
      var front, id := shared[..|shared| - 1], shared[|shared| - 1];
      SwapPairs(base, latest, metrics, front);
      SwapPair(base, latest, metrics, id);
      if PairOf(base, latest, metrics, id).Some? {
        SwapSnoc(Pairs(base, latest, metrics, front), PairOf(base, latest, metrics, id).value);
      }
    }
  }

  lemma SwapPair(base: Cases, latest: Cases, metrics: seq<string>, id: string)
    ensures PairOf(latest, base, metrics, id) ==
            match PairOf(base, latest, metrics, id) case None => None case Some(c) => Some(SwappedCase(c))
  {
    hide Val;
  }

  lemma SwapSnoc(cs: seq<PairedCase>, c: PairedCase)
    ensures SwapAll(cs + [c]) == SwapAll(cs) + [SwappedCase(c)]
    ensures Deltas(SwapAll(cs)) == Neg(Deltas(cs)) ==> Deltas(SwapAll(cs + [c])) == Neg(Deltas(cs + [c]))
  {}

  lemma SwapCons(c: PairedCase, cs: seq<PairedCase>)
    ensures SwapAll([c] + cs) == [SwappedCase(c)] + SwapAll(cs)
  {}

  /** The gains of the swapped comparison are the losses of the other. */
  lemma {:induction false} SwapSides(cs: seq<PairedCase>)
    ensures Better(SwapAll(cs)) == SwapAll(Worse(cs)) && Worse(SwapAll(cs)) == SwapAll(Better(cs))
  {
    if cs == [] {
    } else {
      hide SwapAll;
      SwapSides(cs[1..]);
      SwapCons(cs[0], cs[1..]);
      SwapCons(cs[0], Better(cs[1..]));
      SwapCons(cs[0], Worse(cs[1..]));
      assert cs == [cs[0]] + cs[1..];
      assert ([SwappedCase(cs[0])] + SwapAll(cs[1..]))[1..] == SwapAll(cs[1..]);
    }
  }

  lemma SameOrder(c: PairedCase, d: PairedCase)
    ensures Before(ByGain(SwappedCase(c)), ByGain(SwappedCase(d))) == Before(ByLoss(c), ByLoss(d))
    ensures Before(ByLoss(SwappedCase(c)), ByLoss(SwappedCase(d))) == Before(ByGain(c), ByGain(d))
  {}

  lemma {:induction false} SwapInsert(c: PairedCase, cs: seq<PairedCase>)
    ensures Insert(SwappedCase(c), SwapAll(cs), ByGain) == SwapAll(Insert(c, cs, ByLoss))
    ensures Insert(SwappedCase(c), SwapAll(cs), ByLoss) == SwapAll(Insert(c, cs, ByGain))
  {
    SwapCons(c, cs);
    if cs == [] {
    } else {
      hide SwapAll, SwappedCase, Before, ByGain, ByLoss;
      var d, rest := cs[0], cs[1..];
      assert cs == [d] + rest;
      SwapCons(d, rest);
      SameOrder(c, d);
      SwapInsert(c, rest);
      SwapCons(d, Insert(c, rest, ByLoss));
      SwapCons(d, Insert(c, rest, ByGain));
      assert ([SwappedCase(d)] + SwapAll(rest))[1..] == SwapAll(rest);
    }
  }

  lemma {:induction false} SwapSort(cs: seq<PairedCase>)
    ensures Sort(SwapAll(cs), ByGain) == SwapAll(Sort(cs, ByLoss))
    ensures Sort(SwapAll(cs), ByLoss) == SwapAll(Sort(cs, ByGain))
  {
    if cs == [] {
    } else {
      assert SwapAll(cs)[1..] == SwapAll(cs[1..]);
      SwapSort(cs[1..]);
      SwapInsert(cs[0], Sort(cs[1..], ByLoss));
      SwapInsert(cs[0], Sort(cs[1..], ByGain));
    }
  }

  lemma SwapHighlights(cs: seq<PairedCase>, top: nat)
    ensures Improvements(SwapAll(cs), top) == SwapAll(Regressions(cs, top))
    ensures Regressions(SwapAll(cs), top) == SwapAll(Improvements(cs, top))
  {
    hide Sort, Better, Worse;
    SwapSides(cs);
    SwapSort(Better(cs));
    SwapSort(Worse(cs));
  }

  lemma {:induction false} BetterExact(cs: seq<PairedCase>, c: PairedCase)
    ensures c in Better(cs) <==> c in cs && c.delta > EPS
  {
    if cs == [] {
    } else {
      BetterExact(cs[1..], c);
      assert cs == [cs[0]] + cs[1..];
    }
  }

  /** The improvements are gains in descending order, as many as asked for or all, and none left out is larger. */
  lemma ImprovementsBest(cs: seq<PairedCase>, top: nat, c: PairedCase)
    ensures var r := Improvements(cs, top);
            && (forall i, j :: 0 <= i < j < |r| ==> r[i].delta >= r[j].delta)
            && (c in r ==> c in cs && c.delta > EPS)
            && (c in cs && c.delta > EPS && c !in r ==> |r| == top && forall d :: d in r ==> d.delta >= c.delta)
  {
    hide Sort, Better;
    var gains := Better(cs);
    var all, r := Sort(gains, ByGain), Improvements(cs, top);
    SortSorts(gains, ByGain);
    SortElements(gains, ByGain, c);
    BetterExact(cs, c);
    assert forall i, j :: 0 <= i < j < |all| ==> Before(ByGain(all[i]), ByGain(all[j]));
    if c in all && c !in r {
      var k :| 0 <= k < |all| && all[k] == c;
    }
  }

  lemma {:induction false} NegOutcomes(ds: seq<real>)
    ensures CountOf(Win, Neg(ds)) == CountOf(Loss, ds)
    ensures CountOf(Loss, Neg(ds)) == CountOf(Win, ds)
    ensures CountOf(Tie, Neg(ds)) == CountOf(Tie, ds)
  {
    if ds == [] {
    } else {
      var n := |ds| - 1;
      assert Neg(ds)[..n] == Neg(ds[..n]);
      NegOutcomes(ds[..n]);
    }
  }

  lemma {:induction false} NegSum(xs: seq<real>)
    ensures Sum(Neg(xs)) == -Sum(xs)
  {
    if xs == [] {
    } else {
      var n := |xs| - 1;
      assert Neg(xs)[..n] == Neg(xs[..n]);
      NegSum(xs[..n]);
    }
  }

  lemma NegQuotient(x: real, n: real)
    requires n > 0.0
    ensures (-x) / n == -(x / n)
  {}

  lemma NegMean(xs: seq<real>)
    ensures Mean(Neg(xs)) == -Mean(xs)
  {
    NegSum(xs);
    if xs != [] {
      NegQuotient(Sum(xs), |xs| as real);
    }
  }

  lemma {:induction false} NegCount(xs: seq<real>, x: real)
    ensures multiset(Neg(xs))[x] == multiset(xs)[-x]
  {
    if xs == [] {
    } else {
      var n := |xs| - 1;
      var front, last := xs[..n], xs[n];
      NegCount(front, x);
      NegLast(xs);
      CountSnoc(Neg(front), -last, x);
      CountSnoc(front, last, -x);
    }
  }

  lemma NegLast(xs: seq<real>)
    requires xs != []
    ensures var front, last := xs[..|xs| - 1], xs[|xs| - 1]; xs == front + [last] && Neg(xs) == Neg(front) + [-last]
  {}

  lemma CountSnoc(xs: seq<real>, last: real, x: real)
    ensures multiset(xs + [last])[x] == multiset(xs)[x] + if last == x then 1 else 0
  {}

  lemma {:induction false} ReverseCount(xs: seq<real>)
    ensures multiset(Reverse(xs)) == multiset(xs)
  {
    if xs == [] {
    } else {
      var n := |xs| - 1;
      assert Reverse(xs) == [xs[n]] + Reverse(xs[..n]);
      assert xs == xs[..n] + [xs[n]];
      ReverseCount(xs[..n]);
    }
  }

  /** There is only one ascending list of the same numbers. */
  lemma {:induction false} AscendingUnique(xs: seq<real>, ys: seq<real>)
    requires Sorted(xs, Rising) && Sorted(ys, Rising) && multiset(xs) == multiset(ys)
    ensures xs == ys
  {
    assert |xs| == |multiset(xs)| == |multiset(ys)| == |ys|;
    if xs == [] {
    } else {
      FirstIsLeast(xs, ys);
      FirstIsLeast(ys, xs);
      assert xs == [xs[0]] + xs[1..] && ys == [ys[0]] + ys[1..];
      assert multiset(xs[1..]) == multiset(xs) - multiset{xs[0]};
      assert multiset(ys[1..]) == multiset(ys) - multiset{ys[0]};
      SortedTail(xs);
      SortedTail(ys);
      AscendingUnique(xs[1..], ys[1..]);
    }
  }

  lemma SortedTail(xs: seq<real>)
    requires Sorted(xs, Rising) && xs != []
    ensures Sorted(xs[1..], Rising)
  {}

  lemma FirstIsLeast(xs: seq<real>, ys: seq<real>)
    requires Sorted(xs, Rising) && multiset(xs) == multiset(ys) && xs != [] && ys != []
    ensures xs[0] <= ys[0]
  {
    assert ys[0] in multiset(ys);
    assert ys[0] in xs;
    var i :| 0 <= i < |xs| && xs[i] == ys[0];
    assert i > 0 ==> Before(Rising(xs[0]), Rising(xs[i]));
  }

  lemma ReverseNegSorted(s: seq<real>)
    requires Sorted(s, Rising)
    ensures Sorted(Reverse(Neg(s)), Rising)
  {}

  lemma NegSameCounts(s: seq<real>, xs: seq<real>)
    requires multiset(s) == multiset(xs)
    ensures multiset(Neg(s)) == multiset(Neg(xs))
  {
    forall x
      ensures multiset(Neg(s))[x] == multiset(Neg(xs))[x]
    {
      NegCount(s, x);
      NegCount(xs, x);
    }
  }

  /** Sorting the negated numbers is negating the sorted numbers in reverse. */
  lemma AscendingNeg(xs: seq<real>)
    ensures Ascending(Neg(xs)) == Reverse(Neg(Ascending(xs)))
  {
    hide Sorted, Sort;
    var s := Ascending(xs);
    SortSorts(xs, Rising);
    SortSorts(Neg(xs), Rising);
    ReverseNegSorted(s);
    ReverseCount(Neg(s));
    NegSameCounts(s, xs);
    AscendingUnique(Ascending(Neg(xs)), Reverse(Neg(s)));
  }

  lemma NegMedian(ds: seq<real>)
    requires ds != []
    ensures Median(Neg(ds)) == -Median(ds)
  {
    hide Ascending;
    AscendingNeg(ds);
  }

  /** Two reports that mirror each other, the interval and the verdict aside. */
  predicate Mirrored(r: Report, r': Report) {
    && r'.n == r.n && r'.shared == r.shared
    && r'.ties == r.ties && r'.wins == r.losses && r'.losses == r.wins && r'.signP == r.signP
    && (r.mean == None <==> r'.mean == None) && (r.mean.Some? ==> r'.mean == Some(-r.mean.value))
    && (r.median == None <==> r'.median == None) && (r.median.Some? ==> r'.median == Some(-r.median.value))
    && r'.cases == SwapAll(r.cases)
    && r'.improvements == SwapAll(r.regressions) && r'.regressions == SwapAll(r.improvements)
  }

  /** Swapping the runs swaps wins and losses, improvements and regressions, keeps the numbers of cases and pairs, the
      ties and the sign-test value, and negates the mean and the median. */
  lemma SwapReport(base: Cases, latest: Cases, metrics: seq<string>, ids: seq<string>, top: nat,
                   draws: seq<seq<nat>>)
    requires EnoughDraws(draws, |Pairs(base, latest, metrics, Shared(base, latest, ids))|)
    ensures var shared, shared' := Shared(base, latest, ids), Shared(latest, base, ids);
            var cs, cs' := Pairs(base, latest, metrics, shared), Pairs(latest, base, metrics, shared');
            && |cs'| == |cs|
            && Mirrored(ReportOf(cs, |shared|, top, draws), ReportOf(cs', |shared'|, top, draws))
  {
    hide Shared, Pairs, CountOf, Mean, Median, Interval, VerdictOf, Improvements, Regressions;
    var shared := Shared(base, latest, ids);
    var cs := Pairs(base, latest, metrics, shared);
    var ds := Deltas(cs);
    SharedBothWays(base, latest, ids);
    SwapPairs(base, latest, metrics, shared);
    SwapHighlights(cs, top);
    NegOutcomes(ds);
    NegMean(ds);
    SignTest.SignPBounds(CountOf(Win, ds), CountOf(Loss, ds));
    if ds != [] {
      NegMedian(ds);
    }
  }

  /** For the same draws, swapping negates the bootstrap means but reads the interval at the mirrored ranks. */
  lemma SwapInterval(ds: seq<real>, draws: seq<seq<nat>>)
    requires Draws(draws, |ds|) && draws != []
    ensures var s, m := Ascending(BootMeans(ds, draws)), |draws|;
            Interval(Neg(ds), draws) == (-s[m - 1 - LowIndex(m)], -s[m - 1 - HighIndex(m)])
  {
    hide Ascending, Mean;
    var b := BootMeans(ds, draws);
    forall i | 0 <= i < |draws|
      ensures BootMeans(Neg(ds), draws)[i] == Neg(b)[i]
    {
      assert Sample(Neg(ds), draws[i]) == Neg(Sample(ds, draws[i]));
      NegMean(Sample(ds, draws[i]));
    }
    assert BootMeans(Neg(ds), draws) == Neg(b);
    AscendingNeg(b);
  }

  /** Swapping the runs gives the mirrored interval. */
  predicate Mirrors(ds: seq<real>, draws: seq<seq<nat>>)
    requires Draws(draws, |ds|) && draws != []
  {
    var (lo, hi) := Interval(ds, draws);
    Interval(Neg(ds), draws) == (-hi, -lo)
  }

  /** The two ranks of the interval lie symmetrically exactly when 40 does not divide the number of rounds. */
  lemma RanksSymmetric(m: nat)
    requires m > 0
    ensures LowIndex(m) == m / 40 && HighIndex(m) == m * 39 / 40
    ensures m - 1 - LowIndex(m) == HighIndex(m) <==> m % 40 != 0
    ensures m % 40 == 0 ==> m - 1 - LowIndex(m) == HighIndex(m) - 1
  {}

  /** When the interval is mirrored: for every comparison and every draw exactly when 40 does not divide the
      number of rounds. */
  lemma SwapMirrorsIff(rounds: nat)
    requires rounds > 0
    ensures (forall ds, draws :: Draws(draws, |ds|) && |draws| == rounds ==> Mirrors(ds, draws)) <==>
            rounds % 40 != 0
  {
    hide Interval, LowIndex, HighIndex, Draws;
    RanksSymmetric(rounds);
    if rounds % 40 != 0 {
      forall ds, draws | Draws(draws, |ds|) && |draws| == rounds
        ensures Mirrors(ds, draws)
      {
        MirrorsWhenSymmetric(ds, draws);
      }
    } else {
      SwapCanShift(rounds);
      assert !Mirrors([0.0, 1.0], LateWins(rounds));
    }
  }

  lemma MirrorsWhenSymmetric(ds: seq<real>, draws: seq<seq<nat>>)
    requires Draws(draws, |ds|) && |draws| % 40 != 0
    ensures Mirrors(ds, draws)
  {
    hide Ascending, LowIndex, HighIndex, Draws, BootMeans;
    RanksSymmetric(|draws|);
    SwapInterval(ds, draws);
  }

  /** Two differences, and rounds of which the first 39/40 draw only the first. */
  function LateWins(rounds: nat): (draws: seq<seq<nat>>)
    ensures Draws(draws, 2) && |draws| == rounds
  {
    seq(rounds, b requires 0 <= b < rounds => if b < rounds * 39 / 40 then [0, 0] else [1, 1])
  }

  lemma LateMeans(rounds: nat)
    ensures var b := BootMeans([0.0, 1.0], LateWins(rounds));
            (forall i :: 0 <= i < rounds ==> b[i] == if i < rounds * 39 / 40 then 0.0 else 1.0) && Ascending(b) == b
  {
    hide Sort, Mean;
    var ds, draws := [0.0, 1.0], LateWins(rounds);
    var b := BootMeans(ds, draws);
    TwoMeans();
    forall i | 0 <= i < rounds
      ensures b[i] == if i < rounds * 39 / 40 then 0.0 else 1.0
    {
      assert Sample(ds, draws[i]) == if i < rounds * 39 / 40 then [0.0, 0.0] else [1.0, 1.0];
    }
    SortSorts(b, Rising);
    AscendingUnique(Ascending(b), b);
  }

  lemma TwoMeans()
    ensures Mean([0.0, 0.0]) == 0.0 && Mean([1.0, 1.0]) == 1.0
  {
    MeanBetween([0.0, 0.0], 0.0, 0.0);
    MeanBetween([1.0, 1.0], 1.0, 1.0);
  }

  /** A comparison whose interval is [0, 1] one way round and [0, 0] the other, for every number of rounds that
      40 divides. */
  lemma SwapCanShift(rounds: nat)
    requires rounds > 0 && rounds % 40 == 0
    ensures Interval([0.0, 1.0], LateWins(rounds)) == (0.0, 1.0)
    ensures Interval(Neg([0.0, 1.0]), LateWins(rounds)) == (0.0, 0.0)
  {
    hide Ascending, BootMeans, LateWins;
    LateMeans(rounds);
    RanksSymmetric(rounds);
    SwapInterval([0.0, 1.0], LateWins(rounds));
  }

  // ---------------------------------------------------------------- the verdict of the swapped runs

  function Flipped(v: Verdict): Verdict {
    match v
    case Positive => Negative
    case Negative => Positive
    case _ => v
  }

  /** Swapping the runs gives the opposite verdict. */
  predicate VerdictFlips(ds: seq<real>, draws: seq<seq<nat>>)
    requires Draws(draws, |ds|) && draws != []
  {
    VerdictOf(Neg(ds), draws) == Flipped(VerdictOf(ds, draws))
  }

  /** Where the interval is mirrored, the verdict flips exactly when the mean is not 0 or the verdict is one of the
      two neutral ones. */
  lemma MirroredVerdict(ds: seq<real>, draws: seq<seq<nat>>)
    requires Draws(draws, |ds|) && draws != []
    ensures Mirrors(ds, draws) ==>
              (VerdictFlips(ds, draws) <==>
               Mean(ds) != 0.0 || VerdictOf(ds, draws) == NoStableDelta || VerdictOf(ds, draws) == InsufficientPairs)
  {
    hide Mean, Interval;
    NegMean(ds);
  }

  /** When the verdict flips with the runs: for every comparison with a mean other than 0 and every draw exactly when
      40 does not divide the number of rounds. */
  lemma SwapVerdictIff(rounds: nat)
    requires rounds > 0
    ensures (forall ds, draws :: Draws(draws, |ds|) && |draws| == rounds && Mean(ds) != 0.0 ==> VerdictFlips(ds, draws))
            <==> rounds % 40 != 0
  {
    hide Interval, LowIndex, HighIndex, Draws, Mean, VerdictOf;
    if rounds % 40 != 0 {
      forall ds, draws | Draws(draws, |ds|) && |draws| == rounds && Mean(ds) != 0.0
        ensures VerdictFlips(ds, draws)
      {
        MirrorsWhenSymmetric(ds, draws);
        MirroredVerdict(ds, draws);
      }
    } else {
      VerdictCanShift(rounds);
      assert !VerdictFlips(OneLoss(), EarlyLoss(rounds));
    }
  }

  /** One loss and four wins. */
  function OneLoss(): (ds: seq<real>)
    ensures |ds| == 5
  {
    [-1.0, 1.0, 1.0, 1.0, 1.0]
  }

  /** Rounds of which the first 1/40 draw only the loss, and the others only a win. */
  function EarlyLoss(rounds: nat): (draws: seq<seq<nat>>)
    ensures Draws(draws, 5) && |draws| == rounds
  {
    seq(rounds, b requires 0 <= b < rounds => if b < rounds / 40 then [0, 0, 0, 0, 0] else [1, 1, 1, 1, 1])
  }

  lemma EarlyMeans(rounds: nat)
    ensures var b := BootMeans(OneLoss(), EarlyLoss(rounds));
            (forall i :: 0 <= i < rounds ==> b[i] == if i < rounds / 40 then -1.0 else 1.0) && Ascending(b) == b
  {
    hide Sort, Mean;
    var ds, draws := OneLoss(), EarlyLoss(rounds);
    var b := BootMeans(ds, draws);
    MeanBetween([-1.0, -1.0, -1.0, -1.0, -1.0], -1.0, -1.0);
    MeanBetween([1.0, 1.0, 1.0, 1.0, 1.0], 1.0, 1.0);
    forall i | 0 <= i < rounds
      ensures b[i] == if i < rounds / 40 then -1.0 else 1.0
    {
      assert Sample(ds, draws[i]) ==
             if i < rounds / 40 then [-1.0, -1.0, -1.0, -1.0, -1.0] else [1.0, 1.0, 1.0, 1.0, 1.0];
    }
    SortSorts(b, Rising);
    AscendingUnique(Ascending(b), b);
  }

  lemma SumSnoc(xs: seq<real>, x: real)
    ensures Sum(xs + [x]) == Sum(xs) + x
  {
    assert (xs + [x])[..|xs|] == xs;
  }

  lemma MeanOfFive(a: real, b: real, c: real, d: real, e: real)
    ensures Mean([a, b, c, d, e]) == (a + b + c + d + e) / 5.0
  {
    hide Sum;
    assert Sum([]) == 0.0 by { NothingSums(); }
    assert [] + [a] == [a] && [a] + [b] == [a, b] && [a, b] + [c] == [a, b, c];
    assert [a, b, c] + [d] == [a, b, c, d] && [a, b, c, d] + [e] == [a, b, c, d, e];
    SumSnoc([], a);
    SumSnoc([a], b);
    SumSnoc([a, b], c);
    SumSnoc([a, b, c], d);
    SumSnoc([a, b, c, d], e);
  }

  lemma NothingSums()
    ensures Sum([]) == 0.0
  {}

  lemma OneLossMean()
    ensures Mean(OneLoss()) > 0.0
  {
    hide Mean;
    MeanOfFive(-1.0, 1.0, 1.0, 1.0, 1.0);
  }

  /** A comparison that is positive one way round and undecided the other, for every number of rounds that 40
      divides. */
  lemma VerdictCanShift(rounds: nat)
    requires rounds > 0 && rounds % 40 == 0
    ensures Mean(OneLoss()) > 0.0
    ensures VerdictOf(OneLoss(), EarlyLoss(rounds)) == Positive
    ensures VerdictOf(Neg(OneLoss()), EarlyLoss(rounds)) == NoStableDelta
  {
    hide Ascending, BootMeans, EarlyLoss, Mean, OneLoss;
    OneLossMean();
    EarlyMeans(rounds);
    RanksSymmetric(rounds);
    SwapInterval(OneLoss(), EarlyLoss(rounds));
  }

  /** A comparison with mean 0 that is called negative both ways round. */
  lemma ZeroMeanStaysNegative()
    ensures var ds, draws := [-1.0, 1.0, 0.0, 0.0, 0.0], [[1, 1, 1, 1, 1]];
            VerdictOf(ds, draws) == Negative && VerdictOf(Neg(ds), draws) == Negative
  {
    hide Mean, Sort;
    var ds, draws := [-1.0, 1.0, 0.0, 0.0, 0.0], [[1, 1, 1, 1, 1]];
    MeanOfFive(-1.0, 1.0, 0.0, 0.0, 0.0);
    NegMean(ds);
    var b := BootMeans(ds, draws);
    assert Sample(ds, draws[0]) == [1.0, 1.0, 1.0, 1.0, 1.0];
    MeanBetween([1.0, 1.0, 1.0, 1.0, 1.0], 1.0, 1.0);
    SortSorts(b, Rising);
    AscendingUnique(Ascending(b), b);
    MirrorsWhenSymmetric(ds, draws);
  }

  /** The default number of rounds is one of these. */
  lemma DefaultRoundsShift()
    ensures exists ds, draws :: Draws(draws, |ds|) && |draws| == 2000 && !Mirrors(ds, draws)
    ensures VerdictOf(OneLoss(), EarlyLoss(2000)) == Positive
    ensures VerdictOf(Neg(OneLoss()), EarlyLoss(2000)) == NoStableDelta
  {
    hide *;
    SwapMirrorsIff(2000);
    VerdictCanShift(2000);
  }

  // ---------------------------------------------------------------- the interval

  /** Under every possible draw the interval is ordered and lies within any bounds of the differences. */
  lemma IntervalBounds(ds: seq<real>, draws: seq<seq<nat>>, lo: real, hi: real)
    requires Draws(draws, |ds|) && draws != [] && ds != []
    requires forall i :: 0 <= i < |ds| ==> lo <= ds[i] <= hi
    ensures lo <= Interval(ds, draws).0 <= Interval(ds, draws).1 <= hi
  {
    hide Mean;
    var b := BootMeans(ds, draws);
    var s := Ascending(b);
    SortSorts(b, Rising);
    forall i | 0 <= i < |s|
      ensures lo <= s[i] <= hi
    {
      assert s[i] in multiset(s);
      assert s[i] in b;
      var c :| 0 <= c < |b| && b[c] == s[i];
      MeanBetween(Sample(ds, draws[c]), lo, hi);
    }
    var i, j := LowIndex(|draws|), HighIndex(|draws|);
    assert i < j ==> Before(Rising(s[i]), Rising(s[j]));
  }

  /** The least and the greatest element of a list. */
  lemma {:induction false} Extremes(ds: seq<real>) returns (lo: real, hi: real)
    requires ds != []
    ensures lo in ds && hi in ds && forall i :: 0 <= i < |ds| ==> lo <= ds[i] <= hi
  {
    var n := |ds| - 1;
    lo, hi := ds[n], ds[n];
    if n > 0 {
      var l, h := Extremes(ds[..n]);
      assert forall i :: 0 <= i < n ==> ds[i] == ds[..n][i];
      lo, hi := if l <= lo then l else lo, if h >= hi then h else hi;
    }
  }

  /** With at least five pairs, improvements everywhere always give the verdict "positive", and
      regressions everywhere "negative", whatever is drawn. */
  lemma OneSidedVerdict(ds: seq<real>, draws: seq<seq<nat>>)
    requires Draws(draws, |ds|) && draws != [] && |ds| >= 5
    ensures (forall i :: 0 <= i < |ds| ==> ds[i] > 0.0) ==> VerdictOf(ds, draws) == Positive
    ensures (forall i :: 0 <= i < |ds| ==> ds[i] < 0.0) ==> VerdictOf(ds, draws) == Negative
  {
    hide Mean, Interval;
    var lo, hi := Extremes(ds);
    IntervalBounds(ds, draws, lo, hi);
    MeanBetween(ds, lo, hi);
  }
}
