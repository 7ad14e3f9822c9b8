/** `paired_case_delta_report` of `baseline.py`: paired differences of two runs, in exact arithmetic. The
    bootstrap draws are arbitrary. */
module PairedStats {
  import opened Wrappers
  import opened PyText
  import opened Ordering
  import opened Numbers
  import SignTest

  // ---------------------------------------------------------------- inputs

  /** A metric value: a number or anything else. */
  datatype Value = Num(x: real) | Other

  /** The metrics of a case; a case that is not a dictionary has none. */
  type Case = map<string, Value>
  type Cases = map<string, Case>

  /** `_val`: the first of the metric names that holds a number. */
  function Val(m: Case, metrics: seq<string>): Option<real> {
    if metrics == [] then None
    else if metrics[0] in m && m[metrics[0]].Num? then Some(m[metrics[0]].x)
    else Val(m, metrics[1..])
  }

  /** A case of both runs, with its two values and their difference. */
  datatype PairedCase = PairedCase(id: string, base: real, latest: real, delta: real)

  /** The ids of both runs; suite roll-ups are skipped. */
  function Shared(base: Cases, latest: Cases, ids: seq<string>): seq<string> {
    if ids == [] then [] else
      var last := ids[|ids| - 1];
      Shared(base, latest, ids[..|ids| - 1]) +
      if last in base && last in latest && !HasSuffix(last, ".agent") then [last] else []
  }

  /** The values of a shared case, when both runs have one. */
  function PairOf(base: Cases, latest: Cases, metrics: seq<string>, id: string): Option<PairedCase> {
    if id !in base || id !in latest then None else
      match (Val(base[id], metrics), Val(latest[id], metrics))
      case (Some(bv), Some(lv)) => Some(PairedCase(id, bv, lv, lv - bv))
      case _ => None
  }

  /** The paired cases among the shared ids. */
  function Pairs(base: Cases, latest: Cases, metrics: seq<string>, shared: seq<string>): seq<PairedCase> {
    if shared == [] then [] else
      var front := Pairs(base, latest, metrics, shared[..|shared| - 1]);
      match PairOf(base, latest, metrics, shared[|shared| - 1])
      case None => front
      case Some(c) => front + [c]
  }

  function Deltas(cs: seq<PairedCase>): (r: seq<real>)
    ensures |r| == |cs| && forall i :: 0 <= i < |r| ==> r[i] == cs[i].delta
  {
    seq(|cs|, i requires 0 <= i < |cs| => cs[i].delta)
  }

  // ---------------------------------------------------------------- outcomes

  const EPS: real := 0.000000000001

  datatype Outcome = Win | Loss | Tie

  function OutcomeOf(d: real): Outcome {
    if -EPS < d < EPS then Tie else if d > 0.0 then Win else Loss
  }

  function CountOf(o: Outcome, ds: seq<real>): nat {
    if ds == [] then 0
    else CountOf(o, ds[..|ds| - 1]) + if OutcomeOf(ds[|ds| - 1]) == o then 1 else 0
  }

  // ---------------------------------------------------------------- median and bootstrap

  function Rising(x: real): Key {
    Key(-x, 0)
  }

  /** `sorted(xs)` */
  function Ascending(xs: seq<real>): (r: seq<real>)
    ensures |r| == |xs|
  {
    Sort(xs, Rising)
  }

  function Median(ds: seq<real>): real
    requires ds != []
  {
    var s, mid := Ascending(ds), |ds| / 2;
    if |ds| % 2 == 1 then s[mid] else (s[mid - 1] + s[mid]) / 2.0
  }

  /** One draw per bootstrap round: as many indices as there are differences. */
  predicate Draws(draws: seq<seq<nat>>, n: nat) {
    forall b :: 0 <= b < |draws| ==> |draws[b]| == n && forall i :: 0 <= i < n ==> draws[b][i] < n
  }

  /** Draws for the rounds of a report; with fewer than two differences no round is needed. */
  predicate EnoughDraws(draws: seq<seq<nat>>, n: nat) {
    Draws(draws, n) && (n < 2 || draws != [])
  }

  function Sample(ds: seq<real>, draw: seq<nat>): (r: seq<real>)
    requires |draw| == |ds| && forall i :: 0 <= i < |draw| ==> draw[i] < |ds|
    ensures |r| == |ds| && forall i :: 0 <= i < |r| ==> r[i] == ds[draw[i]]
  {
    seq(|ds|, i requires 0 <= i < |ds| => ds[draw[i]])
  }

  function BootMeans(ds: seq<real>, draws: seq<seq<nat>>): (r: seq<real>)
    requires Draws(draws, |ds|)
    ensures |r| == |draws| && forall b :: 0 <= b < |r| ==> r[b] == Mean(Sample(ds, draws[b]))
  {
    seq(|draws|, b requires 0 <= b < |draws| => Mean(Sample(ds, draws[b])))
  }

  /** `int(0.025 * n_boot)` */
  function LowIndex(rounds: nat): nat {
    rounds * 25 / 1000
  }

  /** `min(int(0.975 * n_boot), n_boot - 1)` */
  function HighIndex(rounds: nat): nat
    requires rounds > 0
  {
    Min(rounds * 975 / 1000, rounds - 1)
  }

  /** The 95% interval: two order statistics of the bootstrap means. */
  function Interval(ds: seq<real>, draws: seq<seq<nat>>): (real, real)
    requires Draws(draws, |ds|) && draws != []
  {
    var s := Ascending(BootMeans(ds, draws));
    (s[LowIndex(|draws|)], s[HighIndex(|draws|)])
  }

  // ---------------------------------------------------------------- the report

  datatype Verdict = InsufficientPairs | NoStableDelta | Positive | Negative

  datatype Report = Report(n: nat, shared: nat, wins: nat, losses: nat, ties: nat, mean: Option<real>,
                           median: Option<real>, interval: Option<(real, real)>, signP: Option<real>, verdict: Verdict,
                           cases: seq<PairedCase>, improvements: seq<PairedCase>, regressions: seq<PairedCase>)

  // ---------------------------------------------------------------- highlights

  function Better(cs: seq<PairedCase>): seq<PairedCase> {
    if cs == [] then [] else (if cs[0].delta > EPS then [cs[0]] else []) + Better(cs[1..])
  }

  function Worse(cs: seq<PairedCase>): seq<PairedCase> {
    if cs == [] then [] else (if cs[0].delta < -EPS then [cs[0]] else []) + Worse(cs[1..])
  }

  function ByGain(c: PairedCase): Key {
    Key(c.delta, 0)
  }

  function ByLoss(c: PairedCase): Key {
    Key(-c.delta, 0)
  }

  /** The `top` largest gains, and the `top` largest losses. */
  function Improvements(cs: seq<PairedCase>, top: nat): seq<PairedCase> {
    Sort(Better(cs), ByGain)[..Min(top, |Better(cs)|)]
  }

  function Regressions(cs: seq<PairedCase>, top: nat): seq<PairedCase> {
    Sort(Worse(cs), ByLoss)[..Min(top, |Worse(cs)|)]
  }

  // ---------------------------------------------------------------- the whole report

  function VerdictOf(ds: seq<real>, draws: seq<seq<nat>>): Verdict
    requires EnoughDraws(draws, |ds|)
  {
    if |ds| < 5 then InsufficientPairs else
      var (lo, hi) := Interval(ds, draws);
      if lo <= 0.0 <= hi then NoStableDelta else if Mean(ds) > 0.0 then Positive else Negative
  }

  function ReportOf(cs: seq<PairedCase>, shared: nat, top: nat, draws: seq<seq<nat>>): Report
    requires EnoughDraws(draws, |cs|)
  {
    var ds := Deltas(cs);
    var wins, losses := CountOf(Win, ds), CountOf(Loss, ds);
    Report(|ds|, shared, wins, losses, CountOf(Tie, ds),
           if ds == [] then None else Some(Mean(ds)),
           if ds == [] then None else Some(Median(ds)),
           if |ds| < 2 then None else Some(Interval(ds, draws)),
           if wins + losses == 0 then None else Some(SignTest.SignP(wins, losses)),
           VerdictOf(ds, draws), cs, Improvements(cs, top), Regressions(cs, top))
  }

  lemma PairsNext(base: Cases, latest: Cases, metrics: seq<string>, shared: seq<string>, i: nat)
    requires i < |shared|
    ensures Pairs(base, latest, metrics, shared[..i + 1]) ==
            match PairOf(base, latest, metrics, shared[i])
            case None => Pairs(base, latest, metrics, shared[..i])
            case Some(c) => Pairs(base, latest, metrics, shared[..i]) + [c]
  {
    assert shared[..i + 1][..i] == shared[..i];
  }

  lemma NothingPaired(base: Cases, latest: Cases, metrics: seq<string>)
    ensures Pairs(base, latest, metrics, []) == []
    ensures CountOf(Win, []) == CountOf(Loss, []) == CountOf(Tie, []) == 0
  {}

  lemma CountNext(o: Outcome, ds: seq<real>, d: real)
    ensures CountOf(o, ds + [d]) == CountOf(o, ds) + if OutcomeOf(d) == o then 1 else 0
  {
    var all := ds + [d];
    assert all[..|all| - 1] == ds;
  }

  /** The loop over the shared cases: the paired cases, their differences and the three counters. */
  method Pair(base: Cases, latest: Cases, metrics: seq<string>, shared: seq<string>)
    returns (deltas: seq<real>, cases: seq<PairedCase>, wins: nat, losses: nat, ties: nat)
    ensures cases == Pairs(base, latest, metrics, shared) && deltas == Deltas(cases)
    ensures wins == CountOf(Win, deltas) && losses == CountOf(Loss, deltas) && ties == CountOf(Tie, deltas)
  {
    hide PairOf, Pairs, CountOf;
    NothingPaired(base, latest, metrics);
    deltas, cases, wins, losses, ties := [], [], 0, 0, 0;
    assert shared[..0] == [];
    for i := 0 to |shared|
      invariant cases == Pairs(base, latest, metrics, shared[..i]) && deltas == Deltas(cases)
      invariant wins == CountOf(Win, deltas) && losses == CountOf(Loss, deltas) && ties == CountOf(Tie, deltas)
    {
      PairsNext(base, latest, metrics, shared, i);
      var paired := PairOf(base, latest, metrics, shared[i]);
      if paired == None {
        continue;
      }
      var d := paired.value.delta;
      CountNext(Win, deltas, d);
      CountNext(Loss, deltas, d);
      CountNext(Tie, deltas, d);
      deltas, cases := deltas + [d], cases + [paired.value];
      if -EPS < d < EPS {
        ties := ties + 1;
      } else if d > 0.0 {
        wins := wins + 1;
      } else {
        losses := losses + 1;
      }
    }
    assert shared[..|shared|] == shared;
  }

  /** The loop over the bootstrap rounds. */
  method Resample(deltas: seq<real>, draws: seq<seq<nat>>) returns (bootMeans: seq<real>)
    requires Draws(draws, |deltas|)
    ensures bootMeans == BootMeans(deltas, draws)
  {
    bootMeans := [];
    for b := 0 to |draws|
      invariant |bootMeans| == b && forall c :: 0 <= c < b ==> bootMeans[c] == Mean(Sample(deltas, draws[c]))
    {
      bootMeans := bootMeans + [Mean(Sample(deltas, draws[b]))];
    }
  }

  /** `paired_case_delta_report`, over the case ids in any fixed order. */
  method PairedCaseDeltaReport(base: Cases, latest: Cases, metrics: seq<string>, ids: seq<string>, top: nat,
                               draws: seq<seq<nat>>)
    returns (report: Report)
    requires EnoughDraws(draws, |Pairs(base, latest, metrics, Shared(base, latest, ids))|)
    ensures var shared := Shared(base, latest, ids);
            report == ReportOf(Pairs(base, latest, metrics, shared), |shared|, top, draws)
  {
    hide Ascending, CountOf, Mean, Median, Pairs, Improvements, Regressions;
    var shared := Shared(base, latest, ids);
    var deltas, cases, wins, losses, ties := Pair(base, latest, metrics, shared);
    var n := |deltas|;
    var mean: Option<real>, median: Option<real> := None, None;
    if n > 0 {
      mean, median := Some(Mean(deltas)), Some(Median(deltas));
    }
    var interval: Option<(real, real)> := None;
    if n >= 2 {
      var bootMeans := Resample(deltas, draws);
      var sorted := Ascending(bootMeans);
      interval := Some((sorted[LowIndex(|draws|)], sorted[HighIndex(|draws|)]));
    }
    var signP: Option<real> := None;
    if wins + losses > 0 {
      signP := Some(SignTest.SignP(wins, losses));
    }
    report := Report(n, |shared|, wins, losses, ties, mean, median, interval, signP, VerdictOf(deltas, draws),
                     cases, Improvements(cases, top), Regressions(cases, top));
  }
}
