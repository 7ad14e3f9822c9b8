/** What the two scores of `context_run.py` say about the texts: when an answer matches exactly in each language, and
    what the F1 of Chinese answers counts. */
module AnswerMeaning {
  import opened PyText
  import opened AnswerScorer

  /** Whether the answers are scored as Chinese: when that is the language, or none is given and some gold answer has
      CJK text. */
  predicate IsChinese(ops: TextOps, lang: string, golds: seq<string>) {
    lang == "zh" || (lang == "" && exists g :: g in golds && ops.hasCjk(g))
  }

  /** The gold answer is matched: the normalized texts are equal, and under the old scorer it is enough that the gold
      answer stands inside the prediction. */
  predicate Matched(ops: TextOps, v1: bool, chinese: bool, answer: string, gold: string) {
    if v1 then ops.v1(gold) == ops.v1(answer) || Occurs(ops.v1(gold), ops.v1(answer))
    else if chinese then ops.zh(gold) == ops.zh(answer)
    else ops.en(gold) == ops.en(answer)
  }

  lemma BranchExact(ops: TextOps, v1: bool, lang: string, golds: seq<string>)
    ensures BranchOf(ops, v1, lang, golds) == if v1 then V1 else if IsChinese(ops, lang, golds) then Zh else En
  {
    if i :| 0 <= i < |golds| && ops.hasCjk(golds[i]) {
      assert golds[i] in golds;
    }
    if g :| g in golds && ops.hasCjk(g) {
      var i :| 0 <= i < |golds| && golds[i] == g;
    }
  }

  /** Exact match is 1 when the last answer of the prediction matches some gold answer, and 0 otherwise. */
  lemma ExactMatchExact(ops: TextOps, v1: bool, lang: string, pred: string, golds: seq<string>)
    ensures ScorePrediction(ops, v1, lang, pred, golds).em ==
            if exists g :: g in golds && Matched(ops, v1, IsChinese(ops, lang, golds), ops.answer(pred), g)
            then 1.0 else 0.0
  {
    hide BestF1, Occurs, BranchOf;
    BranchExact(ops, v1, lang, golds);
    var branch, answer, chinese := BranchOf(ops, v1, lang, golds), ops.answer(pred), IsChinese(ops, lang, golds);
    forall g
      ensures Matches(ops, branch, answer, g) <==> Matched(ops, v1, chinese, answer, g)
    {
    }
    if i :| 0 <= i < |golds| && Matches(ops, branch, answer, golds[i]) {
      assert golds[i] in golds;
    }
    if g :| g in golds && Matched(ops, v1, chinese, answer, g) {
      var i :| 0 <= i < |golds| && golds[i] == g;
    }
  }

  // ---------------------------------------------------------------- characters

  lemma {:induction false} CharCount(s: string, c: char)
    ensures multiset(Chars(s))[[c]] == multiset(s)[c]
  {
    if s == "" {
    } else {
      var n := |s| - 1;
      CharCount(s[..n], c);
      assert s == s[..n] + [s[n]] && Chars(s) == Chars(s[..n]) + [[s[n]]];
      assert [c] == [s[n]] <==> c == s[n];
    }
  }

  lemma LastChar(p: string)
    requires p != ""
    ensures var front, c := p[..|p| - 1], p[|p| - 1];
            multiset(p) == multiset(front) + multiset{c} && multiset(Chars(p)) == multiset(Chars(front)) + multiset{[c]}
  {
    var front, c := p[..|p| - 1], p[|p| - 1];
    assert p == front + [c] && Chars(p) == Chars(front) + [[c]];
  }

  /** The characters that two texts share, each as often as in the text that has it less often. */
  lemma {:induction false} CommonChars(p: string, g: string)
    ensures Common(Chars(p), Chars(g)) == |multiset(p) * multiset(g)|
  {
    if p == "" {
      assert multiset(Chars(p)) * multiset(Chars(g)) == multiset{};
      assert multiset(p) * multiset(g) == multiset{};
    } else {
      var front, c := p[..|p| - 1], p[|p| - 1];
      CommonChars(front, g);
      LastChar(p);
      hide Chars;
      CommonNext(multiset(front), multiset(g), c);
      CommonNext(multiset(Chars(front)), multiset(Chars(g)), [c]);
      CharCount(front, c);
      CharCount(g, c);
    }
  }

  /** The F1 of Chinese answers is twice the number of shared characters over the number of all, both taken from the
      normalized texts. */
  lemma ChineseF1(ops: TextOps, pred: string, gold: string)
    requires ops.zh(pred) != "" && ops.zh(gold) != ""
    ensures GoldF1(ops, Zh, pred, gold) ==
            (2 * |multiset(ops.zh(pred)) * multiset(ops.zh(gold))|) as real / (|ops.zh(pred)| + |ops.zh(gold)|) as real
  {
    hide F1, Common;
    CommonChars(ops.zh(pred), ops.zh(gold));
    F1Laws(Chars(ops.zh(pred)), Chars(ops.zh(gold)));
  }
}
