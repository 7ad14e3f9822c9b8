/** What the fused ranking of `agent_path_extract.py` promises, and how it reaches the metrics. */
module RankFusionLaws {
  import opened Ordering
  import opened Dicts
  import opened IrMetrics
  import opened RankFusion

  // ---------------------------------------------------------------- one search

  predicate Yields(paths: seq<string>, docId: string -> string, d: string) {
    exists i :: 0 <= i < |paths| && docId(paths[i]) == d
  }

  /** The first hit that yields a document. */
  function FirstHit(paths: seq<string>, docId: string -> string, d: string): (i: nat)
    requires Yields(paths, docId, d)
    ensures i < |paths| && docId(paths[i]) == d && forall j :: 0 <= j < i ==> docId(paths[j]) != d
  {
    if docId(paths[0]) == d then 0 else
      assert forall i :: 0 < i < |paths| ==> paths[1..][i - 1] == paths[i];
      1 + FirstHit(paths[1..], docId, d)
  }

  /** The documents of a search are listed in the order of their first hits. */
  lemma {:induction false} IdsInOrder(paths: seq<string>, docId: string -> string, i: nat, j: nat)
    requires i < j < |Ids(paths, docId)|
    ensures var ids := Ids(paths, docId);
            && Yields(paths, docId, ids[i]) && Yields(paths, docId, ids[j])
            && FirstHit(paths, docId, ids[i]) < FirstHit(paths, docId, ids[j])
  {
    hide FirstHit, Distinct;
    var n := |paths| - 1;
    var front, ids := Ids(paths[..n], docId), Ids(paths, docId);
    assert forall k :: 0 <= k < n ==> paths[..n][k] == paths[k];
    assert ids[i] in ids && ids[j] in ids && ids[i] in front;
    if j < |front| {
      IdsInOrder(paths[..n], docId, i, j);
      assert ids[j] == front[j];
    } else {
      assert ids == front + [docId(paths[n])] && ids[j] !in front;
    }
  }

  /** The list that counts is the first one that yields a document; without any there is none. */
  lemma {:induction false} RankedIdsExact(payload: Payload, docId: string -> string, k: nat)
    ensures k < |payload| && payload[k].Some? && Ids(payload[k].value, docId) != [] &&
            (forall i :: 0 <= i < k ==> payload[i].None? || Ids(payload[i].value, docId) == []) ==>
              RankedIds(payload, docId) == Ids(payload[k].value, docId)
    ensures (forall i :: 0 <= i < |payload| ==> payload[i].None? || Ids(payload[i].value, docId) == []) ==>
              RankedIds(payload, docId) == []
  {
    hide Distinct;
    if payload == [] {
    } else {
      RankedIdsExact(payload[1..], docId, if k > 0 then k - 1 else 0);
      assert forall i :: 1 <= i < |payload| ==> payload[i] == payload[1..][i - 1];
    }
  }

  /** A search adds `1 / 61` to the score of its first document, `1 / 62` to that of its second, and so on, and nothing
      to the score of any other. */
  lemma RankWeight(rankings: seq<seq<string>>, r: seq<string>, d: string)
    requires Distinct(r)
    ensures forall i :: 0 <= i < |r| && r[i] == d ==>
              Score(rankings + [r], d) == Score(rankings, d) + 1.0 / (61.0 + i as real)
    ensures d !in r ==> Score(rankings + [r], d) == Score(rankings, d)
  {
    assert (rankings + [r])[..|rankings|] == rankings;
    forall i | 0 <= i < |r| && r[i] == d
      ensures IndexOf(r, d) == i && RRF_K + (i + 1) as real == 61.0 + i as real
    {
    }
  }

  // ---------------------------------------------------------------- the merged list

  /** Every retrieved document is listed exactly once, in descending fused score, and documents with equal
      scores in the order in which they were first seen. */
  lemma MergedExact(rankings: seq<seq<string>>)
    ensures Distinct(Merged(rankings))
    ensures forall d :: d in Merged(rankings) <==> exists i :: 0 <= i < |rankings| && d in rankings[i]
    ensures forall i, j :: 0 <= i < j < |Merged(rankings)| ==>
              var d, e := Merged(rankings)[i], Merged(rankings)[j];
              && Score(rankings, d) >= Score(rankings, e)
              && (Score(rankings, d) == Score(rankings, e) ==>
                    d in FirstSeen(rankings) && e in FirstSeen(rankings) &&
                    IndexOf(FirstSeen(rankings), d) < IndexOf(FirstSeen(rankings), e))
  {
    hide Score, FirstSeen, Distinct;
    var seen, merged := FirstSeen(rankings), Merged(rankings);
    MergedDistinct(rankings);
    forall d
      ensures d in merged <==> exists i :: 0 <= i < |rankings| && d in rankings[i]
    {
      SortElements(seen, FusedKey(rankings), d);
      FirstSeenAll(rankings, d);
    }
    forall i, j | 0 <= i < j < |merged|
      ensures var d, e := merged[i], merged[j];
              && Score(rankings, d) >= Score(rankings, e)
              && (Score(rankings, d) == Score(rankings, e) ==>
                    d in seen && e in seen && IndexOf(seen, d) < IndexOf(seen, e))
    {
      MergedPair(rankings, i, j);
    }
  }

  lemma MergedDistinct(rankings: seq<seq<string>>)
    ensures Distinct(Merged(rankings))
  {
    hide Score, FirstSeen, Distinct, Sort;
    var seen, merged := FirstSeen(rankings), Merged(rankings);
    SortSorts(seen, FusedKey(rankings));
    DistinctCounts(seen);
    DistinctCounts(merged);
  }

  lemma MergedPair(rankings: seq<seq<string>>, i: nat, j: nat)
    requires i < j < |Merged(rankings)|
    ensures var seen, d, e := FirstSeen(rankings), Merged(rankings)[i], Merged(rankings)[j];
            && Score(rankings, d) >= Score(rankings, e)
            && (Score(rankings, d) == Score(rankings, e) ==>
                  d in seen && e in seen && IndexOf(seen, d) < IndexOf(seen, e))
  {
    hide Score, FirstSeen, Sort;
    var seen, merged := FirstSeen(rankings), Merged(rankings);
    SortSorts(seen, FusedKey(rankings));
    MergedDistinct(rankings);
    var d, e := merged[i], merged[j];
    assert Before(FusedKey(rankings)(d), FusedKey(rankings)(e));
    assert d in merged && e in merged && d != e;
    SortElements(seen, FusedKey(rankings), d);
    SortElements(seen, FusedKey(rankings), e);
  }

  /** In every search that found `e`, `d` was found further ahead. */
  predicate Dominates(rankings: seq<seq<string>>, d: string, e: string) {
    forall i :: 0 <= i < |rankings| && e in rankings[i] ==> Ahead(rankings[i], d, e)
  }

  predicate Ahead(r: seq<string>, d: string, e: string)
    requires e in r
  {
    d in r && IndexOf(r, d) < IndexOf(r, e)
  }

  lemma ContributionAhead(r: seq<string>, d: string, e: string)
    requires e in r ==> Ahead(r, d, e)
    ensures Contribution(r, d) >= Contribution(r, e) >= 0.0
    ensures e in r ==> Contribution(r, d) > Contribution(r, e)
  {
    hide IndexOf;
    if e in r {
      Reciprocal(RRF_K + (IndexOf(r, d) + 1) as real, RRF_K + (IndexOf(r, e) + 1) as real);
    } else if d in r {
      Reciprocal(RRF_K + (IndexOf(r, d) + 1) as real, RRF_K + (IndexOf(r, d) + 2) as real);
    }
  }

  lemma Reciprocal(x: real, y: real)
    requires 0.0 < x < y
    ensures 1.0 / x > 1.0 / y > 0.0
  {}

  lemma {:induction false} ScoreDominates(rankings: seq<seq<string>>, d: string, e: string)
    requires Dominates(rankings, d, e)
    ensures Score(rankings, d) >= Score(rankings, e)
    ensures (exists i :: 0 <= i < |rankings| && e in rankings[i]) ==> Score(rankings, d) > Score(rankings, e)
  {
    hide Contribution, Ahead;
    if rankings == [] {
    } else {
      var front, last := rankings[..|rankings| - 1], rankings[|rankings| - 1];
      assert forall i :: 0 <= i < |front| ==> front[i] == rankings[i];
      ScoreDominates(front, d, e);
      ContributionAhead(last, d, e);
      if e !in last && exists i :: 0 <= i < |rankings| && e in rankings[i] {
        var i :| 0 <= i < |rankings| && e in rankings[i];
        assert e in front[i];
      }
    }
  }

  /** A document ranked ahead of another wherever the other appears precedes it in the merged list. */
  lemma DominancePrecedes(rankings: seq<seq<string>>, d: string, e: string)
    requires Dominates(rankings, d, e) && e in Merged(rankings)
    ensures d in Merged(rankings) && IndexOf(Merged(rankings), d) < IndexOf(Merged(rankings), e)
  {
    hide Score, Merged, FirstSeen, IndexOf;
    var merged := Merged(rankings);
    MergedExact(rankings);
    var i :| 0 <= i < |rankings| && e in rankings[i];
    ScoreDominates(rankings, d, e);
    assert Ahead(rankings[i], d, e);
    assert d in rankings[i];
    var p, q := IndexOf(merged, d), IndexOf(merged, e);
    assert merged[p] == d && merged[q] == e;
  }

  lemma {:induction false} AddNewAll(seen: seq<string>, r: seq<string>)
    requires Distinct(seen) && Distinct(r) && (seen == [] || seen == r)
    ensures AddNew(seen, r) == r
  {
    if seen == [] {
      AddNewFresh(r);
    } else {
      AddNewKnown(seen, r);
    }
  }

  lemma {:induction false} AddNewFresh(r: seq<string>)
    requires Distinct(r)
    ensures AddNew([], r) == r
  {
    if r == [] {
    } else {
      var front, d := r[..|r| - 1], r[|r| - 1];
      assert r == front + [d];
      DistinctSnoc(front, d);
      AddNewFresh(front);
    }
  }

  lemma {:induction false} AddNewKnown(seen: seq<string>, r: seq<string>)
    requires Distinct(seen) && forall d :: d in r ==> d in seen
    ensures AddNew(seen, r) == seen
  {
    if r == [] {
    } else {
      assert r[|r| - 1] in r;
      AddNewKnown(seen, r[..|r| - 1]);
    }
  }

  lemma {:induction false} FirstSeenRepeated(rankings: seq<seq<string>>, r: seq<string>)
    requires Distinct(r) && rankings != [] && forall i :: 0 <= i < |rankings| ==> rankings[i] == r
    ensures FirstSeen(rankings) == r
  {
    var front := rankings[..|rankings| - 1];
    if front == [] {
      assert FirstSeen(rankings) == AddNew([], r);
      AddNewAll([], r);
    } else {
      FirstSeenRepeated(front, r);
      AddNewAll(r, r);
    }
  }

  /** One search, or the same search any number of times, keeps its order. */
  lemma RepeatedSearch(rankings: seq<seq<string>>, r: seq<string>)
    requires Distinct(r) && rankings != [] && forall i :: 0 <= i < |rankings| ==> rankings[i] == r
    ensures Merged(rankings) == r
  {
    hide Score, FirstSeen, IndexOf;
    FirstSeenRepeated(rankings, r);
    var key := FusedKey(rankings);
    forall i, j | 0 <= i < j < |r|
      ensures Before(key(r[i]), key(r[j]))
    {
      IndexOfIs(r, i);
      IndexOfIs(r, j);
      assert Dominates(rankings, r[i], r[j]);
      ScoreDominates(rankings, r[i], r[j]);
      assert r[j] in rankings[0];
    }
    SortFixed(r, key);
  }

  // ---------------------------------------------------------------- scores for the metrics

  function AssignedScore(d: string, i: nat, limit: nat, raw: map<string, real>): real {
    if d in raw then raw[d] else (limit - i) as real
  }

  /** The dictionary filled with the scores of `ids`, one after the other. */
  function Scored(ids: seq<string>, limit: nat, raw: map<string, real>): (r: Ranking) {
    if ids == [] then Empty()
    else
      var i := |ids| - 1;
      Put(Scored(ids[..i], limit, raw), ids[i], AssignedScore(ids[i], i, limit, raw))
  }

  /** `ranking_scores`; no raw scores are the empty map. */
  method RankingScores(docIds: seq<string>, limit: nat, raw: map<string, real>) returns (out: Ranking)
    ensures out == Scored(Take(docIds, limit), limit, raw)
  {
    out := Empty();
    var ids := Take(docIds, limit);
    for i := 0 to |ids|
      invariant out == Scored(ids[..i], limit, raw)
    {
      assert ids[..i + 1][..i] == ids[..i];
      if raw != map[] && ids[i] in raw {
        out := Put(out, ids[i], raw[ids[i]]);
      } else {
        out := Put(out, ids[i], (limit - i) as real);
      }
    }
    assert ids[..|ids|] == ids;
  }

  predicate HasScores(d: Ranking, ids: seq<string>, limit: nat, raw: map<string, real>) {
    d.keys == ids && forall i :: 0 <= i < |ids| ==> d.vals[ids[i]] == AssignedScore(ids[i], i, limit, raw)
  }

  lemma {:induction false} ScoredDistinct(ids: seq<string>, limit: nat, raw: map<string, real>)
    requires Distinct(ids)
    ensures HasScores(Scored(ids, limit, raw), ids, limit, raw)
  {
    hide AssignedScore;
    if ids == [] {
    } else {
      var front, d := ids[..|ids| - 1], ids[|ids| - 1];
      assert ids == front + [d];
      DistinctSnoc(front, d);
      ScoredDistinct(front, limit, raw);
      HasScoresSnoc(Scored(front, limit, raw), front, d, limit, raw);
    }
  }

  lemma TakeDistinct(ids: seq<string>, limit: nat)
    requires Distinct(ids)
    ensures Distinct(Take(ids, limit))
  {}

  /** Each of the first `limit` ids gets its raw score, or else `limit`, `limit - 1` and so on by its place, and no
      other id gets a score. */
  lemma ScoresAssigned(docIds: seq<string>, limit: nat, raw: map<string, real>)
    requires Distinct(docIds)
    ensures var scores, ids := Scored(Take(docIds, limit), limit, raw), Take(docIds, limit);
            && scores.keys == ids && ids <= docIds && |ids| == (if limit <= |docIds| then limit else |docIds|)
            && forall i :: 0 <= i < |ids| ==>
                 scores.vals[ids[i]] == if ids[i] in raw then raw[ids[i]] else limit as real - i as real
  {
    hide Distinct, Scored;
    TakeDistinct(docIds, limit);
    ScoredDistinct(Take(docIds, limit), limit, raw);
  }

  lemma HasScoresSnoc(scores: Ranking, front: seq<string>, d: string, limit: nat, raw: map<string, real>)
    requires HasScores(scores, front, limit, raw) && d !in front
    ensures HasScores(Put(scores, d, AssignedScore(d, |front|, limit, raw)), front + [d], limit, raw)
  {}

  predicate NonIncreasing(ids: seq<string>, limit: nat, raw: map<string, real>) {
    forall i, j :: 0 <= i < j < |ids| ==>
      AssignedScore(ids[i], i, limit, raw) >= AssignedScore(ids[j], j, limit, raw)
  }

  /** Lists with the same elements and the same documents in order are equal when no document repeats. */
  lemma SameDocsSameItems(items: seq<(Doc, real)>, ranked: seq<(Doc, real)>)
    requires multiset(items) == multiset(ranked) && Docs(ranked) == Docs(items) && Distinct(Docs(items))
    ensures ranked == items
  {
    hide Distinct;
    OneScorePerDoc(items);
    forall i | 0 <= i < |items|
      ensures ranked[i] == items[i]
    {
      assert Docs(ranked)[i] == Docs(items)[i];
      assert ranked[i] in multiset(ranked);
      assert ranked[i] in items && items[i] in items;
      var d := items[i].0;
      assert ranked[i] == (d, ranked[i].1) && items[i] == (d, items[i].1);
      var x, y := ranked[i].1, items[i].1;
      assert (d, x) in items && (d, y) in items;
      assert x == y;
    }
  }

  /** The metrics' stable descending sort gives the ranked ids back exactly when the assigned scores never
      rise along the list. */
  lemma RoundTrip(ids: seq<string>, limit: nat, raw: map<string, real>)
    requires Distinct(ids)
    ensures Docs(Ranked(Scored(ids, limit, raw))) == ids <==> NonIncreasing(ids, limit, raw)
  {
    hide AssignedScore, Sort, Scored, Distinct;
    var d := Scored(ids, limit, raw);
    ScoredDistinct(ids, limit, raw);
    var items := Items(d);
    assert Docs(items) == ids;
    SortFixed(items, ByScore);
    SortSorts(items, ByScore);
    assert Sorted(items, ByScore) <==> NonIncreasing(ids, limit, raw) by {
      assert forall i :: 0 <= i < |ids| ==> items[i] == (ids[i], AssignedScore(ids[i], i, limit, raw));
    }
    if Docs(Ranked(d)) == ids {
      SameDocsSameItems(items, Ranked(d));
    }
  }

  /** The raw scores that the fusion returns. */
  /** The raw scores are the fused ones, for every retrieved document. */
  predicate AreFused(rankings: seq<seq<string>>, raw: map<string, real>) {
    forall d :: d in FirstSeen(rankings) ==> d in raw && raw[d] == Score(rankings, d)
  }

  /** The metrics see the fused ranking unchanged: with the raw fused scores, and also with the scores
      made from the ranks alone, they recover the first `limit` merged ids in order. */
  lemma MergedReachesMetrics(rankings: seq<seq<string>>, limit: nat, raw: map<string, real>)
    requires AreFused(rankings, raw)
    ensures var ids := Take(Merged(rankings), limit);
            && Docs(Ranked(Scored(ids, limit, raw))) == ids
            && Docs(Ranked(Scored(ids, limit, map[]))) == ids
  {
    hide Score, Merged, FirstSeen, Ranked, Scored;
    MergedExact(rankings);
    var merged := Merged(rankings);
    var ids := Take(merged, limit);
    TakeDistinct(merged, limit);
    forall i | 0 <= i < |ids|
      ensures ids[i] in raw && raw[ids[i]] == Score(rankings, ids[i])
    {
      assert merged[i] in merged;
      FirstSeenAll(rankings, merged[i]);
    }
    assert NonIncreasing(ids, limit, raw);
    assert NonIncreasing(ids, limit, map[]);
    RoundTrip(ids, limit, raw);
    RoundTrip(ids, limit, map[]);
  }

  /** Raw scores for only some of the ids can change the order: a fused score is far below a rank score. */
  lemma MixedScoresReorder()
    ensures var ids, raw := ["a", "b"], map["a" := 1.0 / 61.0];
            Docs(Ranked(Scored(ids, 100, raw))) != ids
  {
    var ids, raw := ["a", "b"], map["a" := 1.0 / 61.0];
    assert AssignedScore(ids[0], 0, 100, raw) < AssignedScore(ids[1], 1, 100, raw);
    assert ids[0] != ids[1];
    RoundTrip(ids, 100, raw);
  }
}
