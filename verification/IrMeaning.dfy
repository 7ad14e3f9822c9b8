/** What a score of 1, a missing result and an irrelevant document mean for the metrics of `metrics_ir.py`, on the
    judged grades and the ranked documents. */
module IrMeaning {
  import opened Wrappers
  import opened Ordering
  import opened Dicts
  import opened IrMetrics
  import opened IrScores
  import opened Numbers

  // ---------------------------------------------------------------- relevant documents

  /** The documents that are judged with a grade of 1 or more. */
  function Wanted(judged: Judged): set<Doc> {
    set d | d in judged.vals && judged.vals[d] >= 1
  }

  lemma WantedRelevant(judged: Judged)
    ensures Relevant(judged) == Wanted(judged)
  {}

  /** Recall is the number of relevant documents among the first k over the number of all. */
  lemma RecallExact(judged: Judged, results: Ranking, k: nat)
    ensures var wanted, found := Wanted(judged), set d | d in TopDocs(results, k) && d in Wanted(judged);
            if wanted == {} then Recall(judged, results, k) == None
            else Recall(judged, results, k) == Some(|found| as real / |wanted| as real)
    ensures Recall(judged, results, k) == Some(1.0) <==>
            Wanted(judged) != {} && forall d :: d in Wanted(judged) ==> d in TopDocs(results, k)
  {
    hide TopDocs;
    WantedRelevant(judged);
    var wanted, found := Wanted(judged), set d | d in TopDocs(results, k) && d in Wanted(judged);
    assert (set d | d in TopDocs(results, k)) * wanted == found;
    if wanted != {} {
      SubsetCount(found, wanted);
      Ratio(|found| as real, |wanted| as real);
      SameSize(found, wanted);
    }
  }

  lemma SameSize<T>(a: set<T>, b: set<T>)
    requires a <= b
    ensures |a| == |b| <==> a == b
  {
    assert |b - a| == |b| - |a|;
  }

  // ---------------------------------------------------------------- average precision

  predicate StartsWith(docs: seq<Doc>, wanted: set<Doc>, n: nat) {
    n <= |docs| && forall i :: 0 <= i < n ==> docs[i] in wanted
  }

  lemma {:induction false} FirstHits(docs: seq<Doc>, wanted: set<Doc>, n: nat)
    requires StartsWith(docs, wanted, n)
    ensures Hits(docs[..n], wanted) == n && PrecisionSum(docs[..n], wanted) == n as real
  {
    if n == 0 {
    } else {
      FirstHits(docs, wanted, n - 1);
      assert docs[..n][..n - 1] == docs[..n - 1];
    }
  }

  /** The sum of precisions reaches the number of hits only when the hits come first. */
  lemma {:induction false} FullSum(docs: seq<Doc>, wanted: set<Doc>)
    ensures PrecisionSum(docs, wanted) == Hits(docs, wanted) as real ==> StartsWith(docs, wanted, Hits(docs, wanted))
  {
    if docs == [] {
    } else {
      var front, last := docs[..|docs| - 1], docs[|docs| - 1];
      FullSum(front, wanted);
      PrecisionAtMostHits(front, wanted);
      Ratio(Hits(docs, wanted) as real, |docs| as real);
      if PrecisionSum(docs, wanted) == Hits(docs, wanted) as real {
        if last in wanted {
          assert Hits(docs, wanted) == |docs|;
          AllHits(docs, wanted);
        } else {
          assert forall i :: 0 <= i < |front| ==> front[i] == docs[i];
        }
      }
    }
  }

  lemma {:induction false} AllHits(docs: seq<Doc>, wanted: set<Doc>)
    requires Hits(docs, wanted) == |docs|
    ensures forall i :: 0 <= i < |docs| ==> docs[i] in wanted
  {
    if docs == [] {
    } else {
      var front := docs[..|docs| - 1];
      AllHits(front, wanted);
      assert forall i :: 0 <= i < |front| ==> front[i] == docs[i];
    }
  }

  lemma HitsBounded(docs: seq<Doc>, wanted: set<Doc>)
    requires Distinct(docs)
    ensures Hits(docs, wanted) <= |wanted|
  {
    HitsAreIntersection(docs, wanted);
    SubsetCount((set d | d in docs) * wanted, wanted);
  }

  /** Average precision is 1 exactly when the relevant documents, all of them, take the first ranks. */
  lemma PrecisionOneIff(judged: Judged, results: Ranking, k: nat)
    ensures var n := |Wanted(judged)|;
            AveragePrecision(judged, results, k) == Some(1.0) <==>
            n > 0 && StartsWith(TopDocs(results, k), Wanted(judged), n)
  {
    hide TopDocs, Hits, PrecisionSum, Distinct;
    WantedRelevant(judged);
    var docs, wanted := TopDocs(results, k), Wanted(judged);
    var n := |wanted|;
    if wanted != {} {
      TopDocsDistinct(results, k);
      HitsBounded(docs, wanted);
      PrecisionAtMostHits(docs, wanted);
      FullSum(docs, wanted);
      Ratio(PrecisionSum(docs, wanted), n as real);
      if StartsWith(docs, wanted, n) {
        FirstHits(docs, wanted, n);
        PrefixBelow(docs, n, wanted);
      }
    }
  }

  /** One document more adds its precision when it is relevant, the share of relevant documents up to its rank, and
      nothing otherwise. */
  lemma PrecisionStep(docs: seq<Doc>, d: Doc, wanted: set<Doc>)
    requires Distinct(docs + [d])
    ensures PrecisionSum(docs + [d], wanted) == PrecisionSum(docs, wanted) +
            if d in wanted then |(set e | e in docs + [d] && e in wanted)| as real / (|docs| + 1) as real else 0.0
  {
    hide Distinct, Hits;
    var all := docs + [d];
    assert all[..|all| - 1] == docs;
    HitsAreIntersection(all, wanted);
    assert (set e | e in all) * wanted == set e | e in all && e in wanted;
  }

  // ---------------------------------------------------------------- whole runs

  lemma {:induction false} ScoresSome(qids: seq<string>, score: string -> Option<real>, q: string)
    requires q in qids && score(q).Some?
    ensures Scores(qids, score) != []
  {
    var n := |qids| - 1;
    if qids[n] == q {
    } else {
      ScoresSome(qids[..n], score, q);
    }
  }

  lemma MeanIsOne(qids: seq<string>, score: string -> Option<real>, q: string)
    requires q in qids && score(q).Some?
    requires forall p :: p in qids && score(p).Some? ==> score(p).value == 1.0
    ensures Mean(Scores(qids, score)) == 1.0
  {
    hide Mean, Scores;
    ScoresSome(qids, score, q);
    ScoresBetween(qids, score, 1.0, 1.0);
    MeanBetween(Scores(qids, score), 1.0, 1.0);
  }

  /** A query has a nDCG exactly when some document is relevant and a rank counts. */
  lemma NdcgDefined(judged: Judged, results: Ranking, k: nat, disc: nat -> real)
    requires IsDiscount(disc)
    ensures Ndcg(judged, results, k, disc).Some? <==> Wanted(judged) != {} && k > 0
  {
    hide IsDiscount, DcgFrom, SameTop, TopDocs, Sort;
    var ideal := Ideal(judged);
    DcgNonNegative(ideal, k, disc, 0);
    IdealCovers(judged, []);
    if judged.keys != [] {
      BestGrade(judged);
      if k > 0 {
        ZeroTop(ideal, k);
      } else {
        NoTop([], ideal);
      }
    }
  }

  lemma ZeroTop(s: seq<int>, k: nat)
    requires Descending(s) && s != [] && k > 0
    ensures SameTop([], s, k) <==> s[0] <= 0
  {
    assert Clip([], 0) == 0;
    if s[0] <= 0 {
      assert forall i :: 0 <= i < |s| ==> s[i] <= 0;
    } else {
      assert Clip(s, 0) > 0;
    }
  }

  lemma BestGrade(judged: Judged)
    requires judged.keys != []
    ensures Ideal(judged) != [] && (Ideal(judged)[0] > 0 <==> Wanted(judged) != {})
  {
    hide Sort;
    var grades, ideal := Grades(judged, judged.keys), Ideal(judged);
    SortSorts(grades, ByGrade);
    IdealCovers(judged, []);
    if ideal[0] > 0 {
      assert ideal[0] in multiset(grades);
      var i :| 0 <= i < |grades| && grades[i] == ideal[0];
      assert judged.keys[i] in Wanted(judged);
    }
    if d :| d in Wanted(judged) {
      var i :| 0 <= i < |judged.keys| && judged.keys[i] == d;
      assert grades[i] in multiset(grades) && grades[i] in multiset(ideal);
      var j :| 0 <= j < |ideal| && ideal[j] == grades[i];
      assert ideal[0] >= ideal[j];
    }
  }

  predicate Scored(qrels: Qrels, q: string)
    requires Valid(qrels)
  {
    q in qrels.keys && Wanted(qrels.vals[q]) != {}
  }

  /** A run that ranks the documents of every query with a relevant document in ideal order has a mean nDCG of 1. */
  lemma IdealRun(qrels: Qrels, results: Results, k: nat, disc: nat -> real, q: string)
    requires IsDiscount(disc) && Valid(qrels) && k > 0 && Scored(qrels, q)
    requires forall p :: Scored(qrels, p) ==>
               p in results && SameTop(Grades(qrels.vals[p], TopDocs(results[p], k)), Ideal(qrels.vals[p]), k)
    ensures Mean(Scores(qrels.keys, NdcgQuery(qrels, results, k, disc))) == 1.0
  {
    hide IsDiscount, SameTop, Ndcg, TopDocs, Ideal, Grades, Wanted, Scores, Mean;
    var f := NdcgQuery(qrels, results, k, disc);
    forall p | p in qrels.keys
      ensures f(p).Some? <==> Scored(qrels, p)
      ensures f(p).Some? ==> f(p).value == 1.0
    {
      NdcgDefined(qrels.vals[p], ResultsOf(results, p), k, disc);
      NdcgBounds(qrels.vals[p], ResultsOf(results, p), k, disc);
    }
    MeanIsOne(qrels.keys, f, q);
  }

  /** A run that starts, for every such query, with all its relevant documents has a mean recall and a mean average
      precision of 1. */
  lemma CompleteRun(qrels: Qrels, results: Results, k: nat, q: string)
    requires Valid(qrels) && Scored(qrels, q)
    requires forall p :: Scored(qrels, p) ==>
               p in results && StartsWith(TopDocs(results[p], k), Wanted(qrels.vals[p]), |Wanted(qrels.vals[p])|)
    ensures Mean(Scores(qrels.keys, MapQuery(qrels, results, k))) == 1.0
    ensures Mean(Scores(qrels.keys, RecallQuery(qrels, results, k))) == 1.0
  {
    hide TopDocs, Wanted, Scores, Mean, StartsWith, Relevant;
    var f, g := MapQuery(qrels, results, k), RecallQuery(qrels, results, k);
    forall p | p in qrels.keys
      ensures f(p).Some? == g(p).Some? == Scored(qrels, p)
      ensures f(p).Some? ==> f(p).value == g(p).value == 1.0
    {
      var judged, ranking := qrels.vals[p], ResultsOf(results, p);
      WantedRelevant(judged);
      if Scored(qrels, p) {
        assert |Wanted(judged)| > 0;
        PrecisionOneIff(judged, ranking, k);
        QueryBounds(judged, ranking, k, k);
      }
    }
    MeanIsOne(qrels.keys, f, q);
    MeanIsOne(qrels.keys, g, q);
  }

  /** A query without results scores 0 in every metric that scores it. */
  lemma MissingScoresZero(qrels: Qrels, results: Results, k: nat, disc: nat -> real, q: string)
    requires Valid(qrels) && Scored(qrels, q) && q !in results && IsDiscount(disc)
    ensures RecallQuery(qrels, results, k)(q) == Some(0.0) && MapQuery(qrels, results, k)(q) == Some(0.0)
    ensures k > 0 ==> NdcgQuery(qrels, results, k, disc)(q) == Some(0.0)
  {
    hide Wanted, Relevant, TopDocs, Ideal, IsDiscount, Recall, AveragePrecision, Ndcg, RecallQuery, MapQuery;
    hide NdcgQuery;
    var judged := qrels.vals[q];
    QueryParts(qrels, results, k, disc, q);
    NothingRanked(k);
    WantedRelevant(judged);
    NdcgDefined(judged, Empty(), k, disc);
    NothingScores(judged, k, disc);
  }

  lemma QueryParts(qrels: Qrels, results: Results, k: nat, disc: nat -> real, q: string)
    requires Valid(qrels) && Scored(qrels, q) && q !in results
    ensures Wanted(qrels.vals[q]) != {}
    ensures RecallQuery(qrels, results, k)(q) == Recall(qrels.vals[q], Empty(), k)
    ensures MapQuery(qrels, results, k)(q) == AveragePrecision(qrels.vals[q], Empty(), k)
    ensures NdcgQuery(qrels, results, k, disc)(q) == Ndcg(qrels.vals[q], Empty(), k, disc)
  {}

  lemma NothingRanked(k: nat)
    ensures TopDocs(Empty(), k) == []
  {}

  lemma NothingScores(judged: Judged, k: nat, disc: nat -> real)
    requires TopDocs(Empty(), k) == [] && Relevant(judged) != {}
    ensures Recall(judged, Empty(), k) == Some(0.0) && AveragePrecision(judged, Empty(), k) == Some(0.0)
    ensures Ndcg(judged, Empty(), k, disc).Some? ==> Ndcg(judged, Empty(), k, disc).value == 0.0
  {
    hide TopDocs, Relevant, Ndcg;
    assert (set d | d in TopDocs(Empty(), k)) * Relevant(judged) == {};
    NothingRated(judged, k, disc);
  }

  lemma NothingRated(judged: Judged, k: nat, disc: nat -> real)
    requires TopDocs(Empty(), k) == []
    ensures Ndcg(judged, Empty(), k, disc).Some? ==> Ndcg(judged, Empty(), k, disc).value == 0.0
  {
    hide TopDocs, Ideal, DcgFrom;
    assert Grades(judged, TopDocs(Empty(), k)) == [];
    NothingGained(k, disc);
  }

  lemma NothingGained(k: nat, disc: nat -> real)
    ensures DcgFrom([], k, disc, 0) == 0.0
  {
  }
}
