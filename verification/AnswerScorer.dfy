/** The answer scorer of `context_run.py`: bag-of-tokens F1 and exact match over several gold answers. */
module AnswerScorer {
  import PyText

  // ---------------------------------------------------------------- token bags

  /** The tokens that two bags share, each as often as in the bag that has it less often. */
  function Common(p: seq<string>, g: seq<string>): nat {
    |multiset(p) * multiset(g)|
  }

  function F1(p: seq<string>, g: seq<string>): real {
    if p == [] && g == [] then 1.0
    else if p == [] || g == [] || Common(p, g) == 0 then 0.0
    else
      var prec, rec := Common(p, g) as real / |p| as real, Common(p, g) as real / |g| as real;
      HarmonicMean(Common(p, g), |p|, |g|);
      2.0 * prec * rec / (prec + rec)
  }

  lemma HarmonicMean(c: nat, m: nat, n: nat)
    requires c > 0 && m > 0 && n > 0
    ensures var prec, rec := c as real / m as real, c as real / n as real;
            prec + rec > 0.0 && 2.0 * prec * rec / (prec + rec) == 2.0 * c as real / (m + n) as real
  {}

  /** One more token is shared exactly when the other bag still has one left. */
  lemma CommonNext<T>(a: multiset<T>, g: multiset<T>, t: T)
    ensures |(a + multiset{t}) * g| == |a * g| + if (g - a)[t] > 0 then 1 else 0
  {
    assert (a + multiset{t}) * g == a * g + if (g - a)[t] > 0 then multiset{t} else multiset{};
  }

  /** `_f1_from_tokens` */
  method F1FromTokens(p: seq<string>, g: seq<string>) returns (f1: real)
    ensures f1 == F1(p, g)
  {
    if p == [] && g == [] {
      return 1.0;
    }
    if p == [] || g == [] {
      return 0.0;
    }
    var common := CountCommon(p, g);
    if common == 0 {
      return 0.0;
    }
    var prec := common as real / |p| as real;
    var rec := common as real / |g| as real;
    HarmonicMean(common, |p|, |g|);
    f1 := 2.0 * prec * rec / (prec + rec);
  }

  /** `counts.get(t, 0)` */
  function CountOf(counts: map<string, nat>, t: string): nat {
    if t in counts then counts[t] else 0
  }

  ghost predicate Counts(counts: map<string, nat>, bag: multiset<string>) {
    forall t :: CountOf(counts, t) == bag[t]
  }

  /** The first loop: count the gold tokens. */
  method CountTokens(g: seq<string>) returns (counts: map<string, nat>)
    ensures Counts(counts, multiset(g))
  {
    counts := map[];
    for i := 0 to |g|
      invariant Counts(counts, multiset(g[..i]))
    {
      assert g[..i + 1] == g[..i] + [g[i]];
      counts := counts[g[i] := CountOf(counts, g[i]) + 1];
    }
    assert g[..|g|] == g;
  }

  lemma UseOne(counts: map<string, nat>, g: multiset<string>, a: multiset<string>, t: string)
    requires Counts(counts, g - a)
    ensures Counts(if CountOf(counts, t) > 0 then counts[t := counts[t] - 1] else counts, g - (a + multiset{t}))
  {
    var less := if CountOf(counts, t) > 0 then counts[t := counts[t] - 1] else counts;
    forall u
      ensures CountOf(less, u) == (g - (a + multiset{t}))[u]
    {
      assert CountOf(counts, u) == (g - a)[u];
      assert CountOf(counts, t) == (g - a)[t];
    }
  }

  /** The second loop: use the counted tokens up. */
  method CountCommon(p: seq<string>, g: seq<string>) returns (common: nat)
    ensures common == Common(p, g)
  {
    hide Counts;
    ghost var bag := multiset(g);
    var gCounts := CountTokens(g);
    assert bag - multiset(p[..0]) == bag;
    assert multiset(p[..0]) * bag == multiset{};
    common := 0;
    for i := 0 to |p|
      invariant Counts(gCounts, bag - multiset(p[..i]))
      invariant common == |multiset(p[..i]) * bag|
    {
      var t := p[i];
      assert p[..i + 1] == p[..i] + [t];
      CommonNext(multiset(p[..i]), bag, t);
      UseOne(gCounts, bag, multiset(p[..i]), t);
      CountsMeans(gCounts, bag - multiset(p[..i]), t);
      if CountOf(gCounts, t) > 0 {
        common := common + 1;
        gCounts := gCounts[t := gCounts[t] - 1];
      }
    }
    assert p[..|p|] == p;
  }

  lemma CountsMeans(counts: map<string, nat>, bag: multiset<string>, t: string)
    requires Counts(counts, bag)
    ensures CountOf(counts, t) == bag[t]
  {}

  lemma CommonBounds(p: seq<string>, g: seq<string>)
    ensures Common(p, g) <= |p| && Common(p, g) <= |g|
    ensures 2 * Common(p, g) == |p| + |g| <==> multiset(p) == multiset(g)
  {
    var a, b := multiset(p), multiset(g);
    assert a == a * b + (a - b) && b == a * b + (b - a);
    assert |a| == |p| && |b| == |g|;
    assert |a - b| == 0 ==> a - b == multiset{};
    assert |b - a| == 0 ==> b - a == multiset{};
  }

  lemma UnitQuotient(x: nat, y: nat)
    requires x <= y && y > 0
    ensures 0.0 <= x as real / y as real <= 1.0
    ensures x as real / y as real == 1.0 <==> x == y
  {}

  /** For non-empty bags F1 is 2c / (|p| + |g|); it lies in [0, 1], and is 1 exactly for equal bags, the
      two empty ones included. */
  lemma F1Laws(p: seq<string>, g: seq<string>)
    ensures p != [] && g != [] ==> F1(p, g) == (2 * Common(p, g)) as real / (|p| + |g|) as real
    ensures 0.0 <= F1(p, g) <= 1.0
    ensures F1(p, g) == 1.0 <==> multiset(p) == multiset(g)
  {
    hide Common;
    CommonBounds(p, g);
    assert p == [] <==> |multiset(p)| == 0;
    assert g == [] <==> |multiset(g)| == 0;
    if p != [] && g != [] {
      UnitQuotient(2 * Common(p, g), |p| + |g|);
      if Common(p, g) > 0 {
        HarmonicMean(Common(p, g), |p|, |g|);
      }
    }
  }

  /** F1 is symmetric, and does not see the order of the tokens. */
  lemma F1Symmetric(p: seq<string>, g: seq<string>, q: seq<string>)
    requires multiset(p) == multiset(q)
    ensures F1(p, g) == F1(g, p) && F1(p, g) == F1(q, g)
  {
    assert multiset(p) * multiset(g) == multiset(g) * multiset(p);
    assert |p| == |multiset(p)| == |multiset(q)| == |q|;
    F1Laws(p, g);
    F1Laws(g, p);
    F1Laws(q, g);
  }

  // ---------------------------------------------------------------- scoring a prediction

  /** The text functions that scoring builds on: the three normalizations, white-space splitting, the test
      for CJK text, and the reduction of a prediction to its last answer line. */
  datatype TextOps = TextOps(en: string -> string, zh: string -> string, v1: string -> string,
                             split: string -> seq<string>, hasCjk: string -> bool, answer: string -> string)

  datatype Branch = V1 | En | Zh

  datatype Score = Score(em: real, f1: real)

  /** `list(s)` */
  function Chars(s: string): seq<string> {
    seq(|s|, i requires 0 <= i < |s| => [s[i]])
  }

  function BranchOf(ops: TextOps, v1: bool, lang: string, golds: seq<string>): Branch {
    if v1 then V1
    else if lang == "zh" || (lang == "" && exists i :: 0 <= i < |golds| && ops.hasCjk(golds[i])) then Zh
    else En
  }

  /** Whether one gold answer is matched exactly. */
  predicate Matches(ops: TextOps, branch: Branch, pred: string, gold: string) {
    match branch
    case V1 => ops.v1(gold) == ops.v1(pred) || PyText.Occurs(ops.v1(gold), ops.v1(pred))
    case En => ops.en(gold) == ops.en(pred)
    case Zh => ops.zh(gold) == ops.zh(pred)
  }

  function TokensOf(ops: TextOps, branch: Branch, text: string): seq<string> {
    match branch
    case V1 => ops.split(ops.v1(text))
    case En => ops.split(ops.en(text))
    case Zh => Chars(ops.zh(text))
  }

  function GoldF1(ops: TextOps, branch: Branch, pred: string, gold: string): real {
    F1(TokensOf(ops, branch, pred), TokensOf(ops, branch, gold))
  }

  predicate AnyMatch(ops: TextOps, branch: Branch, pred: string, golds: seq<string>) {
    exists i :: 0 <= i < |golds| && Matches(ops, branch, pred, golds[i])
  }

  function BestF1(ops: TextOps, branch: Branch, pred: string, golds: seq<string>): real
    requires golds != []
  {
    var last := GoldF1(ops, branch, pred, golds[|golds| - 1]);
    if |golds| == 1 then last else
      var front := BestF1(ops, branch, pred, golds[..|golds| - 1]);
      if front >= last then front else last
  }

  /** `score_prediction`; `lang` is already stripped and in lower case. */
  function ScorePrediction(ops: TextOps, v1: bool, lang: string, pred: string, golds: seq<string>): Score {
    if golds == [] then Score(0.0, 0.0) else
      var branch := BranchOf(ops, v1, lang, golds);
      var answer := ops.answer(pred);
      Score(if AnyMatch(ops, branch, answer, golds) then 1.0 else 0.0, BestF1(ops, branch, answer, golds))
  }

  /** The best F1 is the F1 of some gold answer, and none has more. */
  lemma {:induction false} BestF1Exact(ops: TextOps, branch: Branch, pred: string, golds: seq<string>)
    requires golds != []
    ensures exists i :: 0 <= i < |golds| && BestF1(ops, branch, pred, golds) == GoldF1(ops, branch, pred, golds[i])
    ensures forall i :: 0 <= i < |golds| ==> GoldF1(ops, branch, pred, golds[i]) <= BestF1(ops, branch, pred, golds)
  {
    hide GoldF1;
    var n := |golds| - 1;
    if n == 0 {
      assert BestF1(ops, branch, pred, golds) == GoldF1(ops, branch, pred, golds[0]);
    } else {
      BestF1Exact(ops, branch, pred, golds[..n]);
      assert forall i :: 0 <= i < n ==> golds[i] == golds[..n][i];
      var i :| 0 <= i < n && BestF1(ops, branch, pred, golds[..n]) == GoldF1(ops, branch, pred, golds[..n][i]);
      assert BestF1(ops, branch, pred, golds) == GoldF1(ops, branch, pred, golds[i]) ||
             BestF1(ops, branch, pred, golds) == GoldF1(ops, branch, pred, golds[n]);
    }
  }

  /** A gold answer with the tokens of the prediction, each as often. */
  predicate SameBag(ops: TextOps, branch: Branch, pred: string, gold: string) {
    multiset(TokensOf(ops, branch, pred)) == multiset(TokensOf(ops, branch, gold))
  }

  /** In every branch the best F1 is 1 exactly when some gold answer has the token bag of the prediction. */
  lemma FullF1Iff(ops: TextOps, branch: Branch, pred: string, golds: seq<string>)
    requires golds != []
    ensures BestF1(ops, branch, pred, golds) <= 1.0
    ensures BestF1(ops, branch, pred, golds) == 1.0 <==>
            exists i :: 0 <= i < |golds| && SameBag(ops, branch, pred, golds[i])
  {
    hide F1, TokensOf, BestF1;
    BestF1Exact(ops, branch, pred, golds);
    forall i | 0 <= i < |golds|
      ensures GoldF1(ops, branch, pred, golds[i]) <= 1.0
      ensures GoldF1(ops, branch, pred, golds[i]) == 1.0 <==> SameBag(ops, branch, pred, golds[i])
    {
      F1Laws(TokensOf(ops, branch, pred), TokensOf(ops, branch, golds[i]));
    }
  }

  /** Both scores lie in [0, 1], and under the default scorer an exact match has the full F1. */
  lemma ExactMatchHasFullF1(ops: TextOps, v1: bool, lang: string, pred: string, golds: seq<string>)
    ensures var s := ScorePrediction(ops, v1, lang, pred, golds);
            && (s.em == 0.0 || s.em == 1.0) && 0.0 <= s.f1 <= 1.0
            && (!v1 && s.em == 1.0 ==> s.f1 == 1.0)
  {
    hide F1, TokensOf;
    if golds != [] {
      var branch, answer := BranchOf(ops, v1, lang, golds), ops.answer(pred);
      BestF1Exact(ops, branch, answer, golds);
      var k :| 0 <= k < |golds| && BestF1(ops, branch, answer, golds) == GoldF1(ops, branch, answer, golds[k]);
      F1Laws(TokensOf(ops, branch, answer), TokensOf(ops, branch, golds[k]));
      if !v1 && AnyMatch(ops, branch, answer, golds) {
        var i :| 0 <= i < |golds| && Matches(ops, branch, answer, golds[i]);
        MatchedTokens(ops, branch, answer, golds[i]);
        F1Laws(TokensOf(ops, branch, answer), TokensOf(ops, branch, golds[i]));
      }
    }
  }

  lemma MatchedTokens(ops: TextOps, branch: Branch, pred: string, gold: string)
    requires branch != V1 && Matches(ops, branch, pred, gold)
    ensures TokensOf(ops, branch, pred) == TokensOf(ops, branch, gold)
  {}

  /** One gold answer more never lowers a score while the language branch stays the same. */
  lemma MoreGolds(ops: TextOps, v1: bool, lang: string, pred: string, golds: seq<string>, gold: string)
    requires golds == [] || BranchOf(ops, v1, lang, golds + [gold]) == BranchOf(ops, v1, lang, golds)
    ensures var few := ScorePrediction(ops, v1, lang, pred, golds);
            var more := ScorePrediction(ops, v1, lang, pred, golds + [gold]);
            few.em <= more.em && few.f1 <= more.f1
  {}

  /** When another gold answer changes the branch: exactly when it is the first one with CJK text, no language was
      given, and the scorer is not the old one. */
  lemma BranchChangesIff(ops: TextOps, v1: bool, lang: string, golds: seq<string>, gold: string)
    ensures BranchOf(ops, v1, lang, golds + [gold]) != BranchOf(ops, v1, lang, golds) <==>
            !v1 && lang == "" && ops.hasCjk(gold) && forall i :: 0 <= i < |golds| ==> !ops.hasCjk(golds[i])
  {
    var more := golds + [gold];
    assert more[|golds|] == gold && forall i :: 0 <= i < |golds| ==> more[i] == golds[i];
  }

  /** A gold answer with CJK text can lower the scores of the others by moving them to the other branch:
      the article of "the cat" is dropped by one normalization and kept by the other. */
  lemma CjkGoldCanLower(ops: TextOps)
    requires ops.answer("the cat") == "the cat" && ops.en("the cat") == "cat" && ops.en("cat") == "cat"
    requires ops.zh("the cat") == "thecat" && ops.zh("cat") == "cat" && ops.zh("\U{732b}") == "\U{732b}"
    requires !ops.hasCjk("cat") && ops.hasCjk("\U{732b}")
    ensures ScorePrediction(ops, false, "", "the cat", ["cat"]).em == 1.0
    ensures ScorePrediction(ops, false, "", "the cat", ["cat", "\U{732b}"]).em == 0.0
  {}

  /** When an exact match has the full F1, in every branch and so under the old scorer too: exactly when no gold
      answer matches or some gold answer has the token bag of the prediction. */
  lemma ExactMatchHasFullF1Iff(ops: TextOps, v1: bool, lang: string, pred: string, golds: seq<string>)
    ensures var s := ScorePrediction(ops, v1, lang, pred, golds);
            var branch, answer := BranchOf(ops, v1, lang, golds), ops.answer(pred);
            (s.em == 1.0 ==> s.f1 == 1.0) <==>
            !AnyMatch(ops, branch, answer, golds) ||
            exists i :: 0 <= i < |golds| && SameBag(ops, branch, answer, golds[i])
  {
    hide AnyMatch, SameBag, BestF1, BranchOf;
    if golds != [] {
      FullF1Iff(ops, BranchOf(ops, v1, lang, golds), ops.answer(pred), golds);
    } else {
      NoGolds(ops, BranchOf(ops, v1, lang, golds), ops.answer(pred));
    }
  }

  lemma NoGolds(ops: TextOps, branch: Branch, pred: string)
    ensures !AnyMatch(ops, branch, pred, [])
  {}

  /** The old scorer breaks the implication: an empty gold answer matches everything and shares nothing. */
  lemma OldExactMatchWithoutF1(ops: TextOps)
    requires ops.answer("x") == "x" && ops.v1("x") == "x" && ops.v1("") == ""
    requires ops.split("x") == ["x"] && ops.split("") == []
    ensures ScorePrediction(ops, true, "", "x", [""]) == Score(1.0, 0.0)
  {
    assert "" <= "x"[0..];
    assert PyText.Occurs("", "x");
    assert Matches(ops, V1, "x", [""][0]);
  }
}
