/** How BM25 ranks in `bm25.py`: rare terms weigh more than common ones, shorter documents more than longer ones, and
    more occurrences more than fewer. The logarithm is any strictly increasing function that is positive above 1. */
module Bm25Ranking {
  import opened Ordering
  import opened Dicts
  import opened Numbers
  import opened IrMetrics
  import opened Bm25

  ghost predicate Grows(log: real -> real) {
    forall x, y :: 0.0 < x < y ==> log(x) < log(y)
  }

  // ---------------------------------------------------------------- one term

  /** How often a term stands in a document. */
  function Occurrences(t: string, doc: Tokens): nat {
    if doc == [] then 0 else Occurrences(t, doc[1..]) + if doc[0] == t then 1 else 0
  }

  lemma {:induction false} OccurrencesCount(t: string, doc: Tokens)
    ensures Occurrences(t, doc) == multiset(doc)[t]
    ensures Occurrences(t, doc) > 0 <==> t in doc
  {
    if doc == [] {
    } else {
      OccurrencesCount(t, doc[1..]);
      assert doc == [doc[0]] + doc[1..];
      assert multiset(doc) == multiset{doc[0]} + multiset(doc[1..]);
    }
  }

  /** The score of a document for a query of one term. */
  lemma OneTerm(st: Stats, log: real -> real, t: string, doc: Tokens)
    requires AllDefined(st, [t], doc)
    ensures Defined(st, t, doc) && ScoreOf(st, log, [t], doc) == TermScore(st, log, t, doc)
  {
    hide Defined, TermScore;
    assert [t][0] == t && [t][..0] == [];
  }

  lemma SmallerFraction(n: nat, df: nat, df': nat)
    requires df < df' <= n
    ensures 0.0 < ((n - df') as real + 0.5) / (df' as real + 0.5) < ((n - df) as real + 0.5) / (df as real + 0.5)
  {
    var a, b := (n - df) as real + 0.5, df as real + 0.5;
    var c, d := (n - df') as real + 0.5, df' as real + 0.5;
    QuotientPositive(c, d);
    SmallerQuotient(c, b, d);
    LargerQuotient(c, a, b);
  }

  lemma SmallerQuotient(x: real, y: real, z: real)
    requires x > 0.0 && 0.0 < y < z
    ensures x / z < x / y
  {
    var p, q := x / z, x / y;
    QuotientPositive(x, y);
    ProductPositive(q, z - y);
    assert p * z == x && q * y == x && (q - p) * z == q * (z - y);
    SignOfFactor(q - p, z);
  }

  lemma LargerQuotient(c: real, a: real, b: real)
    requires c < a && b > 0.0
    ensures c / b < a / b
  {
    var x, y := c / b, a / b;
    assert x * b == c && y * b == a && (y - x) * b == a - c;
    SignOfFactor(y - x, b);
  }

  lemma ProductStrict(x: real, y: real, z: real)
    requires x > 0.0 && y < z
    ensures x * y < x * z
  {}

  /** The share of its weight that a matching term contributes when it stands in a document `f` times. */
  function Share(k: real, f: real, sat: real): real
    requires f + sat != 0.0
  {
    f * k / (f + sat)
  }

  lemma Regroup(w: real, y: real, x: real)
    requires x != 0.0
    ensures w * y / x == w * (y / x)
  {}

  lemma ShareOfTerm(st: Stats, log: real -> real, t: string, doc: Tokens)
    requires t in doc && DfOf(st, t) > 0 && Occurrences(t, doc) as real + Saturation(st, |doc|) != 0.0
    ensures AllDefined(st, [t], doc)
    ensures ScoreOf(st, log, [t], doc) ==
            Idf(st, log, t) * Share(st.k1 + 1.0, Occurrences(t, doc) as real, Saturation(st, |doc|))
  {
    hide Idf, Saturation, DfOf, Occurrences, ScoreOf;
    OccurrencesCount(t, doc);
    OneTerm(st, log, t, doc);
    var f := multiset(doc)[t] as real;
    Regroup(Idf(st, log, t), f * (st.k1 + 1.0), f + Saturation(st, |doc|));
  }

  lemma HigherWeight(x: real, y: real, w: real, v: real, share: real)
    requires x == w * share && y == v * share && share > 0.0 && v < w
    ensures y < x
  {
    ProductStrict(share, v, w);
  }

  lemma HigherShare(x: real, y: real, w: real, share: real, share': real)
    requires x == w * share && y == w * share' && w > 0.0 && share' < share
    ensures y < x
  {
    ProductStrict(w, share', share);
  }

  lemma SameShare(x: real, y: real, w: real, share: real, share': real)
    requires x == w * share && y == w * share' && share == share'
    ensures x == y
  {}

  lemma SharePositive(k: real, f: real, sat: real)
    requires f > 0.0 && k > 0.0 && f + sat > 0.0
    ensures Share(k, f, sat) > 0.0
  {
    ProductPositive(f, k);
    QuotientPositive(f * k, f + sat);
  }

  /** A match of the rarer term scores more, in documents of the same length that hold the terms equally often. */
  lemma RareWeighsMore(st: Stats, log: real -> real, t: string, u: string, doc: Tokens, doc': Tokens)
    requires Grows(log) && st.k1 > -1.0 && 0 < DfOf(st, t) < DfOf(st, u) <= st.n
    requires |doc| == |doc'| && Occurrences(t, doc) == Occurrences(u, doc') > 0
    requires Occurrences(t, doc) as real + Saturation(st, |doc|) > 0.0
    ensures AllDefined(st, [t], doc) && AllDefined(st, [u], doc')
    ensures ScoreOf(st, log, [t], doc) > ScoreOf(st, log, [u], doc')
  {
    hide *;
    OccurrencesCount(t, doc);
    OccurrencesCount(u, doc');
    ShareOfTerm(st, log, t, doc);
    ShareOfTerm(st, log, u, doc');
    RarerIdf(st, log, t, u);
    var f, sat := Occurrences(t, doc) as real, Saturation(st, |doc|);
    SharePositive(st.k1 + 1.0, f, sat);
    HigherWeight(ScoreOf(st, log, [t], doc), ScoreOf(st, log, [u], doc'), Idf(st, log, t), Idf(st, log, u),
                 Share(st.k1 + 1.0, f, sat));
  }

  lemma RarerIdf(st: Stats, log: real -> real, t: string, u: string)
    requires Grows(log) && DfOf(st, t) < DfOf(st, u) <= st.n
    ensures Idf(st, log, u) < Idf(st, log, t)
  {
    hide DfOf;
    SmallerFraction(st.n, DfOf(st, t), DfOf(st, u));
  }

  /** A matching term scores more in the shorter of two documents that hold it equally often. */
  lemma ShorterScoresMore(st: Stats, log: real -> real, t: string, doc: Tokens, doc': Tokens)
    requires IsLog(log) && st.k1 > 0.0 && 0.0 < st.b <= 1.0 && 0 < DfOf(st, t) <= st.n
    requires |doc| < |doc'| && Occurrences(t, doc) == Occurrences(t, doc') > 0
    ensures AllDefined(st, [t], doc) && AllDefined(st, [t], doc')
    ensures ScoreOf(st, log, [t], doc) > ScoreOf(st, log, [t], doc')
  {
    hide *;
    OccurrencesCount(t, doc);
    OccurrencesCount(t, doc');
    SaturationPositive(st, |doc|);
    SaturationGrows(st, |doc|, |doc'|);
    ShareOfTerm(st, log, t, doc);
    ShareOfTerm(st, log, t, doc');
    IdfPositive(st, log, t);
    var k, f := st.k1 + 1.0, Occurrences(t, doc) as real;
    ShareFalls(k, f, Saturation(st, |doc|), Saturation(st, |doc'|));
    HigherShare(ScoreOf(st, log, [t], doc), ScoreOf(st, log, [t], doc'), Idf(st, log, t),
                Share(k, f, Saturation(st, |doc|)), Share(k, f, Saturation(st, |doc'|)));
  }

  lemma ShareFalls(k: real, f: real, sat: real, sat': real)
    requires f > 0.0 && k > 0.0 && 0.0 < sat < sat'
    ensures Share(k, f, sat') < Share(k, f, sat)
  {
    ProductPositive(f, k);
    SmallerQuotient(f * k, f + sat, f + sat');
  }

  lemma SaturationGrows(st: Stats, dl: nat, dl': nat)
    requires st.k1 > 0.0 && st.b > 0.0 && dl < dl'
    ensures Saturation(st, dl) < Saturation(st, dl')
  {
    var len, len', avg := dl as real, dl' as real, AtLeastOne(st.avgdl);
    ProductStrict(st.b, len, len');
    var x, y := st.b * len / avg, st.b * len' / avg;
    LargerQuotient(st.b * len, st.b * len', avg);
    ProductStrict(st.k1, 1.0 - st.b + x, 1.0 - st.b + y);
  }

  /** A document of average length, or any without length normalization, has saturation `k1`. An average below 1 counts
      as 1. */
  lemma AverageSaturation(st: Stats, dl: nat)
    ensures st.b == 0.0 ==> Saturation(st, dl) == st.k1
    ensures st.avgdl >= 1.0 && dl as real == st.avgdl ==> Saturation(st, dl) == st.k1
    ensures st.avgdl < 1.0 ==> Saturation(st, dl) == st.k1 * (1.0 - st.b + st.b * dl as real)
  {
    var avg := AtLeastOne(st.avgdl);
    assert st.b * avg / avg == st.b;
    if st.b == 0.0 {
      assert st.b * dl as real == 0.0;
    }
  }

  /** Of two documents of the same length, the one that holds the term more often scores more, unless nothing
      saturates. */
  lemma MoreScoresMore(st: Stats, log: real -> real, t: string, doc: Tokens, doc': Tokens)
    requires IsLog(log) && Sound(st) && 0 < DfOf(st, t) <= st.n
    requires |doc| == |doc'| && Occurrences(t, doc) > Occurrences(t, doc') > 0
    ensures AllDefined(st, [t], doc) && AllDefined(st, [t], doc')
    ensures if st.k1 > 0.0 then ScoreOf(st, log, [t], doc) > ScoreOf(st, log, [t], doc')
            else ScoreOf(st, log, [t], doc) == ScoreOf(st, log, [t], doc')
  {
    hide Saturation, ScoreOf, Idf, IsLog, Share, AllDefined, DfOf, Occurrences;
    OccurrencesCount(t, doc);
    OccurrencesCount(t, doc');
    SaturationPositive(st, |doc|);
    ShareOfTerm(st, log, t, doc);
    ShareOfTerm(st, log, t, doc');
    IdfPositive(st, log, t);
    var k, f, f', sat := st.k1 + 1.0, Occurrences(t, doc) as real, Occurrences(t, doc') as real, Saturation(st, |doc|);
    ShareGrows(f, f', k, sat);
    if st.k1 > 0.0 {
      HigherShare(ScoreOf(st, log, [t], doc), ScoreOf(st, log, [t], doc'), Idf(st, log, t), Share(k, f, sat),
                  Share(k, f', sat));
    } else {
      SameShare(ScoreOf(st, log, [t], doc), ScoreOf(st, log, [t], doc'), Idf(st, log, t), Share(k, f, sat),
                Share(k, f', sat));
    }
  }

  lemma ShareGrows(f: real, g: real, k: real, sat: real)
    requires f > g > 0.0 && k > 0.0 && sat >= 0.0
    ensures sat > 0.0 ==> Share(k, f, sat) > Share(k, g, sat)
    ensures sat == 0.0 ==> Share(k, f, sat) == Share(k, g, sat)
  {
    Complement(f, k, sat);
    Complement(g, k, sat);
    if sat > 0.0 {
      ProductPositive(sat, k);
      SmallerQuotient(sat * k, g + sat, f + sat);
    } else {
      assert sat * k == 0.0;
    }
  }

  lemma Complement(f: real, k: real, sat: real)
    requires f > 0.0 && k > 0.0 && sat >= 0.0
    ensures f * k / (f + sat) == k - sat * k / (f + sat)
  {
    var d := f + sat;
    assert f * k == k * d - sat * k;
    assert (k * d) / d == k;
    assert (k * d - sat * k) / d == (k * d) / d - (sat * k) / d;
  }

  // ---------------------------------------------------------------- the ranking

  lemma {:induction false} FoundScored(st: Stats, log: real -> real, q: Tokens, ids: seq<string>, docs: seq<Tokens>,
                                       id: string, s: real)
    requires SearchDefined(st, q, docs) && |ids| == |docs|
    ensures (id, s) in Found(st, log, q, ids, docs) <==>
            exists j :: 0 <= j < |ids| && ids[j] == id && docs[j] != [] && s == ScoreOf(st, log, q, docs[j]) && s > 0.0
  {
    hide ScoreOf;
    if ids == [] {
    } else {
      var n := |ids| - 1;
      FoundScored(st, log, q, ids[..n], docs[..n], id, s);
      assert forall j :: 0 <= j < n ==> ids[..n][j] == ids[j] && docs[..n][j] == docs[j];
    }
  }

  /** A returned document stands behind every other one with a higher score. */
  lemma HigherFirst(st: Stats, log: real -> real, q: Tokens, ids: seq<string>, docs: seq<Tokens>, limit: nat,
                    a: nat, b: nat, k: nat)
    requires SearchDefined(st, q, docs) && |ids| == |docs| && Distinct(ids) && a < |ids| && b < |ids|
    requires docs[a] != [] && ScoreOf(st, log, q, docs[a]) > ScoreOf(st, log, q, docs[b])
    requires var hits := Hits(st, log, q, ids, docs, limit); k < |hits| && hits[k].0 == ids[b]
    ensures var hits := Hits(st, log, q, ids, docs, limit); exists i :: 0 <= i < k && hits[i].0 == ids[a]
  {
    hide ScoreOf, Found, Sort;
    var found := Found(st, log, q, ids, docs);
    var all, hits := Sort(found, ByScore), Hits(st, log, q, ids, docs, limit);
    SortSorts(found, ByScore);
    assert hits[k] == all[k] && all[k] in all;
    SortElements(found, ByScore, all[k]);
    FoundScored(st, log, q, ids, docs, all[k].0, all[k].1);
    var first := (ids[a], ScoreOf(st, log, q, docs[a]));
    FoundScored(st, log, q, ids, docs, first.0, first.1);
    SortElements(found, ByScore, first);
    var i :| 0 <= i < |all| && all[i] == first;
    assert k <= i ==> k < i && Before(ByScore(all[k]), ByScore(all[i]));
    assert hits[i] == all[i];
  }

  lemma PairScore(st: Stats, log: real -> real, t: string, u: string, doc: Tokens)
    requires AllDefined(st, [t, u], doc)
    ensures AllDefined(st, [t], doc) && AllDefined(st, [u], doc)
    ensures ScoreOf(st, log, [t, u], doc) == ScoreOf(st, log, [t], doc) + ScoreOf(st, log, [u], doc)
  {
    hide ScoreOf, Defined;
    assert [t] + [u] == [t, u];
    ScoreAppend(st, log, [t], [u], doc);
  }

  lemma AbsentScore(st: Stats, log: real -> real, t: string, doc: Tokens)
    requires AllDefined(st, [t], doc) && t !in doc
    ensures ScoreOf(st, log, [t], doc) == 0.0
  {
    OneTerm(st, log, t, doc);
  }

  /** A search for a rare and a common term: a document with the rare one alone stands before a document of the same
      length that holds the common one alone, and as often. */
  lemma RareFirst(st: Stats, log: real -> real, t: string, u: string, ids: seq<string>, docs: seq<Tokens>, limit: nat,
                  a: nat, b: nat, k: nat)
    requires Grows(log) && st.k1 > -1.0 && 0 < DfOf(st, t) < DfOf(st, u) <= st.n
    requires SearchDefined(st, [t, u], docs) && |ids| == |docs| && Distinct(ids) && a < |ids| && b < |ids|
    requires u !in docs[a] && t !in docs[b] && |docs[a]| == |docs[b]|
    requires Occurrences(t, docs[a]) == Occurrences(u, docs[b]) > 0
    requires Occurrences(t, docs[a]) as real + Saturation(st, |docs[a]|) > 0.0
    requires var hits := Hits(st, log, [t, u], ids, docs, limit); k < |hits| && hits[k].0 == ids[b]
    ensures var hits := Hits(st, log, [t, u], ids, docs, limit); exists i :: 0 <= i < k && hits[i].0 == ids[a]
  {
    hide ScoreOf, Hits, AllDefined, Grows, DfOf, Saturation;
    RareWeighsMore(st, log, t, u, docs[a], docs[b]);
    PairScore(st, log, t, u, docs[a]);
    PairScore(st, log, t, u, docs[b]);
    AbsentScore(st, log, u, docs[a]);
    AbsentScore(st, log, t, docs[b]);
    OccurrencesCount(t, docs[a]);
    HigherFirst(st, log, [t, u], ids, docs, limit, a, b, k);
  }

  // ---------------------------------------------------------------- the average length

  /** The average length of an index lies between any bounds of the lengths of its documents. */
  lemma AverageBetween(index: BM25Index, lo: nat, hi: nat)
    requires index.Valid() && index.n > 0
    requires forall i :: 0 <= i < |index.tokens| ==> lo <= |index.tokens[i]| <= hi
    ensures lo as real <= index.avgdl <= hi as real
  {
    hide DocFreq, DfOf, Distinct;
    TotalBetween(index.tokens, lo, hi);
    var total, n := TotalLength(index.tokens), index.n;
    Divide(total as real, hi as real, n as real);
    DivideUp(total as real, lo as real, n as real);
  }

  lemma OneMore(x: real, n: real)
    ensures x * (n + 1.0) == x * n + x
  {}

  lemma {:induction false} TotalBetween(docs: seq<Tokens>, lo: nat, hi: nat)
    requires forall i :: 0 <= i < |docs| ==> lo <= |docs[i]| <= hi
    ensures lo as real * |docs| as real <= TotalLength(docs) as real <= hi as real * |docs| as real
  {
    if docs == [] {
    } else {
      var front := docs[..|docs| - 1];
      TotalBetween(front, lo, hi);
      OneMore(lo as real, |front| as real);
      OneMore(hi as real, |front| as real);
      assert |docs| as real == |front| as real + 1.0;
      assert TotalLength(docs) as real == TotalLength(front) as real + |docs[|docs| - 1]| as real;
    }
  }

  // ---------------------------------------------------------------- an index of three documents

  const IDS: seq<string> := ["d1", "d2", "d3"]
  const DOCS: seq<Tokens> := [["a", "b"], ["b", "b"], ["b", "c"]]
  const STATS: Stats := Stats(3, 2.0, map["a" := 1, "b" := 3, "c" := 1], 1.5, 0.75)

  lemma ThreeStats()
    ensures StatsOf(STATS, DOCS) && SearchDefined(STATS, ["a", "b"], DOCS)
    ensures Saturation(STATS, 2) == 1.5
  {
    forall t
      ensures DfOf(STATS, t) == DocFreq(DOCS, t)
    {
      assert Holders(DOCS, t) == if t == "a" then {0} else if t == "b" then {0, 1, 2} else if t == "c" then {2} else {};
    }
    AverageSaturation(STATS, 2);
    SoundFavourable(STATS, DOCS);
    ScorableQuery(STATS, ["a", "b"], DOCS);
  }

  lemma ThreeScores(log: real -> real)
    ensures SearchDefined(STATS, ["a", "b"], DOCS)
    ensures var q := ["a", "b"];
            && ScoreOf(STATS, log, q, DOCS[0]) == log(8.0 / 3.0) + log(8.0 / 7.0)
            && ScoreOf(STATS, log, q, DOCS[1]) == 10.0 / 7.0 * log(8.0 / 7.0)
            && ScoreOf(STATS, log, q, DOCS[2]) == log(8.0 / 7.0)
  {
    hide ScoreOf, Saturation;
    ThreeStats();
    forall j | 0 <= j < 3
      ensures ScoreOf(STATS, log, ["a", "b"], DOCS[j]) ==
              TermScore(STATS, log, "a", DOCS[j]) + TermScore(STATS, log, "b", DOCS[j])
    {
      PairScore(STATS, log, "a", "b", DOCS[j]);
      OneTerm(STATS, log, "a", DOCS[j]);
      OneTerm(STATS, log, "b", DOCS[j]);
    }
    assert multiset(DOCS[0])["a"] == 1 && multiset(DOCS[0])["b"] == 1;
    assert multiset(DOCS[1])["b"] == 2 && multiset(DOCS[2])["b"] == 1;
    ThreeWeights(log);
  }

  lemma ThreeWeights(log: real -> real)
    ensures Idf(STATS, log, "a") == log(8.0 / 3.0) && Idf(STATS, log, "b") == log(8.0 / 7.0)
  {
    assert DfOf(STATS, "a") == 1 && DfOf(STATS, "b") == 3;
    WeightOf(log, "a", 1, 8.0 / 3.0);
    WeightOf(log, "b", 3, 8.0 / 7.0);
  }

  lemma WeightOf(log: real -> real, t: string, df: nat, x: real)
    requires DfOf(STATS, t) == df <= 3 && (x - 1.0) * (df as real + 0.5) == (3 - df) as real + 0.5
    ensures Idf(STATS, log, t) == log(x)
  {
    hide DfOf;
    var a, b := (3 - df) as real + 0.5, df as real + 0.5;
    assert a / b == x - 1.0;
    assert 1.0 + a / b == x;
  }

  /** A search for `a` and `b` with limit 1 returns the document that holds the rare `a`, not the one that holds the
      common `b` twice. */
  lemma RareOfThree(log: real -> real)
    requires IsLog(log) && Grows(log)
    ensures SearchDefined(STATS, ["a", "b"], DOCS)
    ensures Hits(STATS, log, ["a", "b"], IDS, DOCS, 1) == [("d1", log(8.0 / 3.0) + log(8.0 / 7.0))]
  {
    hide ScoreOf, AllDefined, Saturation;
    ThreeScores(log);
    var q := ["a", "b"];
    assert log(8.0 / 7.0) > 0.0 && log(8.0 / 3.0) > log(8.0 / 7.0);
    var x, y, z := ScoreOf(STATS, log, q, DOCS[0]), ScoreOf(STATS, log, q, DOCS[1]), ScoreOf(STATS, log, q, DOCS[2]);
    FoundThree(log, x, y, z);
    SortThree("d1", x, "d2", y, "d3", z);
  }

  lemma FoundThree(log: real -> real, x: real, y: real, z: real)
    requires SearchDefined(STATS, ["a", "b"], DOCS)
    requires var q := ["a", "b"];
             && ScoreOf(STATS, log, q, DOCS[0]) == x > 0.0 && ScoreOf(STATS, log, q, DOCS[1]) == y > 0.0
             && ScoreOf(STATS, log, q, DOCS[2]) == z > 0.0
    ensures Found(STATS, log, ["a", "b"], IDS, DOCS) == [("d1", x), ("d2", y), ("d3", z)]
  {
    hide ScoreOf, AllDefined;
    var q := ["a", "b"];
    assert IDS[..2][..1] == ["d1"] && IDS[..2] == ["d1", "d2"] && DOCS[..2] == [["a", "b"], ["b", "b"]];
    assert DOCS[..2][..1] == [["a", "b"]] && IDS[..2][..1][..0] == [];
    assert Found(STATS, log, q, ["d1"], [["a", "b"]]) == [("d1", x)];
    assert Found(STATS, log, q, ["d1", "d2"], [["a", "b"], ["b", "b"]]) == [("d1", x), ("d2", y)];
  }

  lemma SortThree(a: string, x: real, b: string, y: real, c: string, z: real)
    requires x > y > z
    ensures Take(Sort([(a, x), (b, y), (c, z)], ByScore), 1) == [(a, x)]
  {
    SortFixedIfSorted([(a, x), (b, y), (c, z)], ByScore);
  }
}
