/** The metrics of `metrics_ir.py` over all queries, and the bounds they promise. */
module IrScores {
  import opened Wrappers
  import opened Ordering
  import opened Dicts
  import opened IrMetrics
  import opened Numbers

  // ---------------------------------------------------------------- scores

  /** The scores of the queries that have one, in query order. */
  function Scores(qids: seq<string>, score: string -> Option<real>): seq<real> {
    if qids == [] then [] else
      var front := Scores(qids[..|qids| - 1], score);
      match score(qids[|qids| - 1])
      case None => front
      case Some(x) => front + [x]
  }

  lemma ScoresNone(score: string -> Option<real>)
    ensures Scores([], score) == []
  {}

  lemma ScoresNext(qids: seq<string>, i: nat, score: string -> Option<real>)
    requires i < |qids|
    ensures Scores(qids[..i + 1], score) ==
            Scores(qids[..i], score) + match score(qids[i]) case None => [] case Some(x) => [x]
  {
    assert qids[..i + 1][..i] == qids[..i];
  }

  /** Two scores given for the same queries: the smaller has the smaller mean. */
  lemma {:induction false} ScoresBelow(qids: seq<string>, f: string -> Option<real>, g: string -> Option<real>)
    requires forall q :: q in qids ==> f(q).Some? == g(q).Some? && (f(q).Some? ==> f(q).value <= g(q).value)
    ensures |Scores(qids, f)| == |Scores(qids, g)|
    ensures forall i :: 0 <= i < |Scores(qids, f)| ==> Scores(qids, f)[i] <= Scores(qids, g)[i]
  {
    if qids == [] {
    } else {
      ScoresBelow(qids[..|qids| - 1], f, g);
      assert qids[|qids| - 1] in qids;
    }
  }

  lemma MeanBelow(qids: seq<string>, f: string -> Option<real>, g: string -> Option<real>)
    requires forall q :: q in qids ==> f(q).Some? == g(q).Some? && (f(q).Some? ==> f(q).value <= g(q).value)
    ensures Mean(Scores(qids, f)) <= Mean(Scores(qids, g))
  {
    ScoresBelow(qids, f, g);
    var xs, ys := Scores(qids, f), Scores(qids, g);
    SumMonotone(xs, ys);
    if xs != [] {
      DivideMonotone(Sum(xs), Sum(ys), |xs| as real);
    }
  }

  lemma {:induction false} ScoresBetween(qids: seq<string>, f: string -> Option<real>, lo: real, hi: real)
    requires forall q :: q in qids && f(q).Some? ==> lo <= f(q).value <= hi
    ensures forall i :: 0 <= i < |Scores(qids, f)| ==> lo <= Scores(qids, f)[i] <= hi
  {
    if qids == [] {
    } else {
      ScoresBetween(qids[..|qids| - 1], f, lo, hi);
      assert qids[|qids| - 1] in qids;
    }
  }

  // ---------------------------------------------------------------- inputs

  type Qrels = Dict<string, Judged>
  type Results = map<string, Ranking>

  /** `qrels[qid]`; only asked for the keys. */
  function JudgedOf(qrels: Qrels, qid: string): Judged {
    if qid in qrels.vals then qrels.vals[qid] else Empty()
  }

  /** `results.get(qid) or {}` */
  function ResultsOf(results: Results, qid: string): Ranking {
    if qid in results then results[qid] else Empty()
  }

  // ---------------------------------------------------------------- nDCG

  /** `judged.get(doc_id, 0)` */
  function Grade(judged: Judged, d: Doc): int {
    if d in judged.vals then judged.vals[d] else 0
  }

  function Grades(judged: Judged, docs: seq<Doc>): (r: seq<int>)
    ensures |r| == |docs| && forall i :: 0 <= i < |r| ==> r[i] == Grade(judged, docs[i])
  {
    seq(|docs|, i requires 0 <= i < |docs| => Grade(judged, docs[i]))
  }

  function ByGrade(v: int): Key {
    Key(v as real, 0)
  }

  /** `sorted(judged.values(), reverse=True)` */
  function Ideal(judged: Judged): seq<int> {
    Sort(Grades(judged, judged.keys), ByGrade)
  }

  /** The nDCG of one query; none when nothing relevant is judged. */
  function Ndcg(judged: Judged, results: Ranking, k: nat, disc: nat -> real): Option<real> {
    var idcg := DcgFrom(Ideal(judged), k, disc, 0);
    if judged.keys == [] || idcg <= 0.0 then None
    else Some(DcgFrom(Grades(judged, TopDocs(results, k)), k, disc, 0) / idcg)
  }

  function NdcgQuery(qrels: Qrels, results: Results, k: nat, disc: nat -> real): string -> Option<real> {
    q => Ndcg(JudgedOf(qrels, q), ResultsOf(results, q), k, disc)
  }

  /** `ndcg_at_k` */
  method NdcgAtK(qrels: Qrels, results: Results, k: nat, disc: nat -> real) returns (ndcg: real)
    ensures ndcg == Mean(Scores(qrels.keys, NdcgQuery(qrels, results, k, disc)))
  {
    hide Ranked, Sort, DcgFrom, TopDocs, Scores;
    ScoresNone(NdcgQuery(qrels, results, k, disc));
    var scores: seq<real> := [];
    for i := 0 to |qrels.keys|
      invariant scores == Scores(qrels.keys[..i], NdcgQuery(qrels, results, k, disc))
    {
      var qid := qrels.keys[i];
      ScoresNext(qrels.keys, i, NdcgQuery(qrels, results, k, disc));
      var judged := JudgedOf(qrels, qid);
      if judged.keys == [] {
        continue;
      }
      var idcg := Dcg(Ideal(judged), k, disc);
      if idcg <= 0.0 {
        continue;
      }
      var dcg := Dcg(Grades(judged, TopDocs(ResultsOf(results, qid), k)), k, disc);
      scores := scores + [dcg / idcg];
    }
    assert qrels.keys[..|qrels.keys|] == qrels.keys;
    ndcg := Mean(scores);
  }

  function WithGrade(judged: Judged, docs: seq<Doc>, v: int): set<Doc> {
    set d | d in docs && Grade(judged, d) == v
  }

  lemma WithGradeSnoc(judged: Judged, docs: seq<Doc>, v: int)
    requires Distinct(docs) && docs != []
    ensures var few, all := WithGrade(judged, docs[..|docs| - 1], v), WithGrade(judged, docs, v);
            |all| == |few| + if Grade(judged, docs[|docs| - 1]) == v then 1 else 0
  {
    hide Distinct, Grade;
    var last := docs[|docs| - 1];
    var few, all := WithGrade(judged, docs[..|docs| - 1], v), WithGrade(judged, docs, v);
    DistinctFront(docs);
    assert all == if Grade(judged, last) == v then few + {last} else few;
  }

  lemma GradesSnoc(judged: Judged, docs: seq<Doc>, v: int)
    requires docs != []
    ensures multiset(Grades(judged, docs))[v] ==
            multiset(Grades(judged, docs[..|docs| - 1]))[v] + if Grade(judged, docs[|docs| - 1]) == v then 1 else 0
  {
    hide Grade;
    var x := Grade(judged, docs[|docs| - 1]);
    assert Grades(judged, docs) == Grades(judged, docs[..|docs| - 1]) + [x];
  }

  /** How often a grade occurs among distinct documents: once for each of them that has it. */
  lemma {:induction false} GradeCount(judged: Judged, docs: seq<Doc>, v: int)
    requires Distinct(docs)
    ensures multiset(Grades(judged, docs))[v] == |WithGrade(judged, docs, v)|
  {
    if docs == [] {
      assert WithGrade(judged, docs, v) == {};
    } else {
      hide Distinct, Grade, WithGrade;
      DistinctFront(docs);
      GradeCount(judged, docs[..|docs| - 1], v);
      WithGradeSnoc(judged, docs, v);
      GradesSnoc(judged, docs, v);
    }
  }

  /** The grades of distinct retrieved documents are among the judged grades. */
  lemma IdealCovers(judged: Judged, docs: seq<Doc>)
    requires Distinct(docs)
    ensures Descending(Ideal(judged)) && Covers(Ideal(judged), Grades(judged, docs))
  {
    var all := Grades(judged, judged.keys);
    SortSorts(all, ByGrade);
    var ideal := Ideal(judged);
    forall i, j | 0 <= i < j < |ideal|
      ensures ideal[i] >= ideal[j]
    {
      assert Before(ByGrade(ideal[i]), ByGrade(ideal[j]));
    }
    forall v | v > 0
      ensures multiset(Grades(judged, docs))[v] <= multiset(ideal)[v]
    {
      GradeCount(judged, docs, v);
      GradeCount(judged, judged.keys, v);
      SubsetCount(WithGrade(judged, docs, v), WithGrade(judged, judged.keys, v));
    }
  }

  lemma Ratio(x: real, y: real)
    requires 0.0 <= x <= y && 0.0 < y
    ensures 0.0 <= x / y <= 1.0 && (x / y == 1.0 <==> x == y)
  {}

  /** The nDCG of a query lies in [0, 1], and is 1 exactly when the retrieved grades are the ideal ones
      at every rank below k, grades that are not positive counting as 0. */
  lemma NdcgBounds(judged: Judged, results: Ranking, k: nat, disc: nat -> real)
    requires IsDiscount(disc)
    ensures var n := Ndcg(judged, results, k, disc);
            n.Some? ==>
              && 0.0 <= n.value <= 1.0
              && (n.value == 1.0 <==> SameTop(Grades(judged, TopDocs(results, k)), Ideal(judged), k))
  {
    hide IsDiscount, DcgFrom, SameTop, Covers, TopDocs, Ideal, Descending;
    var gains := Grades(judged, TopDocs(results, k));
    TopDocsDistinct(results, k);
    IdealCovers(judged, TopDocs(results, k));
    IdealIsBest(gains, Ideal(judged), k, disc, 0);
    DcgNonNegative(gains, k, disc, 0);
    var x, y := DcgFrom(gains, k, disc, 0), DcgFrom(Ideal(judged), k, disc, 0);
    if y > 0.0 {
      Ratio(x, y);
    }
  }

  /** `ndcg_at_k` lies in [0, 1] for all judgments, results and k. */
  lemma NdcgMeanBounds(qrels: Qrels, results: Results, k: nat, disc: nat -> real)
    requires IsDiscount(disc)
    ensures 0.0 <= Mean(Scores(qrels.keys, NdcgQuery(qrels, results, k, disc))) <= 1.0
  {
    hide Ndcg, IsDiscount;
    var f := NdcgQuery(qrels, results, k, disc);
    forall q | q in qrels.keys && f(q).Some?
      ensures 0.0 <= f(q).value <= 1.0
    {
      NdcgBounds(JudgedOf(qrels, q), ResultsOf(results, q), k, disc);
    }
    ScoresBetween(qrels.keys, f, 0.0, 1.0);
    MeanBetween(Scores(qrels.keys, f), 0.0, 1.0);
  }

  // ---------------------------------------------------------------- recall and average precision

  function Relevant(judged: Judged): set<Doc> {
    set d | d in judged.vals && judged.vals[d] > 0
  }

  /** How many of the documents are relevant. */
  function Hits(docs: seq<Doc>, relevant: set<Doc>): (h: nat)
    ensures h <= |docs|
  {
    if docs == [] then 0
    else Hits(docs[..|docs| - 1], relevant) + if docs[|docs| - 1] in relevant then 1 else 0
  }

  /** The sum of the precisions at the relevant documents. */
  function PrecisionSum(docs: seq<Doc>, relevant: set<Doc>): real {
    if docs == [] then 0.0
    else PrecisionSum(docs[..|docs| - 1], relevant) +
         if docs[|docs| - 1] in relevant then Hits(docs, relevant) as real / |docs| as real else 0.0
  }

  function Recall(judged: Judged, results: Ranking, k: nat): Option<real> {
    var relevant := Relevant(judged);
    if relevant == {} then None
    else Some(|(set d | d in TopDocs(results, k)) * relevant| as real / |relevant| as real)
  }

  function AveragePrecision(judged: Judged, results: Ranking, k: nat): Option<real> {
    var relevant := Relevant(judged);
    if relevant == {} then None
    else Some(PrecisionSum(TopDocs(results, k), relevant) / |relevant| as real)
  }

  function RecallQuery(qrels: Qrels, results: Results, k: nat): string -> Option<real> {
    q => Recall(JudgedOf(qrels, q), ResultsOf(results, q), k)
  }

  function MapQuery(qrels: Qrels, results: Results, k: nat): string -> Option<real> {
    q => AveragePrecision(JudgedOf(qrels, q), ResultsOf(results, q), k)
  }

  /** `recall_at_k` */
  method RecallAtK(qrels: Qrels, results: Results, k: nat) returns (recall: real)
    ensures recall == Mean(Scores(qrels.keys, RecallQuery(qrels, results, k)))
  {
    hide TopDocs, Relevant, Scores;
    ScoresNone(RecallQuery(qrels, results, k));
    var scores: seq<real> := [];
    for i := 0 to |qrels.keys|
      invariant scores == Scores(qrels.keys[..i], RecallQuery(qrels, results, k))
    {
      var qid := qrels.keys[i];
      ScoresNext(qrels.keys, i, RecallQuery(qrels, results, k));
      var relevant := Relevant(JudgedOf(qrels, qid));
      if relevant == {} {
        continue;
      }
      var top := TopDocs(ResultsOf(results, qid), k);
      var hit := (set d | d in top) * relevant;
      scores := scores + [|hit| as real / |relevant| as real];
    }
    assert qrels.keys[..|qrels.keys|] == qrels.keys;
    recall := Mean(scores);
  }

  /** The inner loop of `map_at_k`. */
  method SumPrecisions(docs: seq<Doc>, relevant: set<Doc>) returns (ap: real)
    ensures ap == PrecisionSum(docs, relevant)
  {
    ap := 0.0;
    var hits := 0;
    for i := 0 to |docs|
      invariant hits == Hits(docs[..i], relevant) && ap == PrecisionSum(docs[..i], relevant)
    {
      assert docs[..i + 1][..i] == docs[..i];
      if docs[i] in relevant {
        hits := hits + 1;
        ap := ap + hits as real / (i + 1) as real;
      }
    }
    assert docs[..|docs|] == docs;
  }

  /** `map_at_k` */
  method MapAtK(qrels: Qrels, results: Results, k: nat) returns (m: real)
    ensures m == Mean(Scores(qrels.keys, MapQuery(qrels, results, k)))
  {
    hide TopDocs, Relevant, Scores, PrecisionSum;
    ScoresNone(MapQuery(qrels, results, k));
    var scores: seq<real> := [];
    for i := 0 to |qrels.keys|
      invariant scores == Scores(qrels.keys[..i], MapQuery(qrels, results, k))
    {
      var qid := qrels.keys[i];
      ScoresNext(qrels.keys, i, MapQuery(qrels, results, k));
      var relevant := Relevant(JudgedOf(qrels, qid));
      if relevant == {} {
        continue;
      }
      var ap := SumPrecisions(TopDocs(ResultsOf(results, qid), k), relevant);
      scores := scores + [ap / |relevant| as real];
    }
    assert qrels.keys[..|qrels.keys|] == qrels.keys;
    m := Mean(scores);
  }

  /** Counting hits along a ranking counts each relevant document once. */
  lemma {:induction false} HitsAreIntersection(docs: seq<Doc>, relevant: set<Doc>)
    requires Distinct(docs)
    ensures Hits(docs, relevant) == |(set d | d in docs) * relevant|
  {
    var all := (set d | d in docs) * relevant;
    if docs == [] {
      assert all == {};
    } else {
      hide Distinct;
      var front, last := docs[..|docs| - 1], docs[|docs| - 1];
      DistinctFront(docs);
      HitsAreIntersection(front, relevant);
      var few := (set d | d in front) * relevant;
      assert all == if last in relevant then few + {last} else few;
    }
  }

  lemma {:induction false} PrecisionAtMostHits(docs: seq<Doc>, relevant: set<Doc>)
    ensures 0.0 <= PrecisionSum(docs, relevant) <= Hits(docs, relevant) as real
  {
    if docs == [] {
    } else {
      PrecisionAtMostHits(docs[..|docs| - 1], relevant);
      Ratio(Hits(docs, relevant) as real, |docs| as real);
    }
  }

  /** Longer prefixes have no fewer hits and no smaller sum. */
  lemma {:induction false} PrefixBelow(docs: seq<Doc>, n: nat, relevant: set<Doc>)
    requires n <= |docs|
    ensures Hits(docs[..n], relevant) <= Hits(docs, relevant)
    ensures PrecisionSum(docs[..n], relevant) <= PrecisionSum(docs, relevant)
  {
    if n == |docs| {
      assert docs[..n] == docs;
    } else {
      var front := docs[..|docs| - 1];
      assert docs[..n] == front[..n];
      PrefixBelow(front, n, relevant);
      assert Hits(docs, relevant) as real / |docs| as real >= 0.0;
    }
  }

  lemma TopDocsPrefix(results: Ranking, k: nat, l: nat)
    requires k <= l
    ensures |TopDocs(results, k)| <= |TopDocs(results, l)|
    ensures TopDocs(results, k) == TopDocs(results, l)[..|TopDocs(results, k)|]
  {}

  /** Per query: 0 <= AP@k <= Recall@k <= 1, and neither falls when k grows. */
  lemma QueryBounds(judged: Judged, results: Ranking, k: nat, l: nat)
    requires k <= l && Relevant(judged) != {}
    ensures var ap, re := AveragePrecision(judged, results, k), Recall(judged, results, k);
            0.0 <= ap.value <= re.value <= 1.0
    ensures AveragePrecision(judged, results, k).value <= AveragePrecision(judged, results, l).value
    ensures Recall(judged, results, k).value <= Recall(judged, results, l).value
  {
    hide TopDocs, Relevant, PrecisionSum, Hits;
    var relevant := Relevant(judged);
    var n := |relevant| as real;
    var few, many := TopDocs(results, k), TopDocs(results, l);
    TopDocsDistinct(results, k);
    TopDocsDistinct(results, l);
    HitsAreIntersection(few, relevant);
    HitsAreIntersection(many, relevant);
    PrecisionAtMostHits(few, relevant);
    TopDocsPrefix(results, k, l);
    PrefixBelow(many, |few|, relevant);
    SubsetCount((set d | d in few) * relevant, relevant);
    Ratio(Hits(few, relevant) as real, n);
    DivideMonotone(0.0, PrecisionSum(few, relevant), n);
    DivideMonotone(PrecisionSum(few, relevant), Hits(few, relevant) as real, n);
    DivideMonotone(PrecisionSum(few, relevant), PrecisionSum(many, relevant), n);
    DivideMonotone(Hits(few, relevant) as real, Hits(many, relevant) as real, n);
  }

  /** In the mean: 0 <= MAP@k <= Recall@k <= 1. */
  lemma MapBelowRecall(qrels: Qrels, results: Results, k: nat)
    ensures 0.0 <= Mean(Scores(qrels.keys, MapQuery(qrels, results, k)))
    ensures Mean(Scores(qrels.keys, MapQuery(qrels, results, k))) <=
            Mean(Scores(qrels.keys, RecallQuery(qrels, results, k))) <= 1.0
  {
    var f, g := MapQuery(qrels, results, k), RecallQuery(qrels, results, k);
    forall q | q in qrels.keys
      ensures f(q).Some? == g(q).Some? && (f(q).Some? ==> 0.0 <= f(q).value <= g(q).value <= 1.0)
    {
      if Relevant(JudgedOf(qrels, q)) != {} {
        QueryBounds(JudgedOf(qrels, q), ResultsOf(results, q), k, k);
      }
    }
    MeanBelow(qrels.keys, f, g);
    ScoresBetween(qrels.keys, f, 0.0, 1.0);
    ScoresBetween(qrels.keys, g, 0.0, 1.0);
    MeanBetween(Scores(qrels.keys, f), 0.0, 1.0);
    MeanBetween(Scores(qrels.keys, g), 0.0, 1.0);
  }

  /** In the mean, too, neither falls when k grows. */
  lemma MeansGrow(qrels: Qrels, results: Results, k: nat, l: nat)
    requires k <= l
    ensures Mean(Scores(qrels.keys, MapQuery(qrels, results, k))) <=
            Mean(Scores(qrels.keys, MapQuery(qrels, results, l)))
    ensures Mean(Scores(qrels.keys, RecallQuery(qrels, results, k))) <=
            Mean(Scores(qrels.keys, RecallQuery(qrels, results, l)))
  {
    forall q | q in qrels.keys && Relevant(JudgedOf(qrels, q)) != {}
      ensures AveragePrecision(JudgedOf(qrels, q), ResultsOf(results, q), k).value <=
              AveragePrecision(JudgedOf(qrels, q), ResultsOf(results, q), l).value
      ensures Recall(JudgedOf(qrels, q), ResultsOf(results, q), k).value <=
              Recall(JudgedOf(qrels, q), ResultsOf(results, q), l).value
    {
      QueryBounds(JudgedOf(qrels, q), ResultsOf(results, q), k, l);
    }
    MeanBelow(qrels.keys, MapQuery(qrels, results, k), MapQuery(qrels, results, l));
    MeanBelow(qrels.keys, RecallQuery(qrels, results, k), RecallQuery(qrels, results, l));
  }
}
