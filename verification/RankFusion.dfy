/** Reciprocal rank fusion in `agent_path_extract.py`: the ranked ids of one search, the fused scores of
    several, the merged ranking and the scores handed to the metrics. */
module RankFusion {
  import opened Wrappers
  import opened Ordering
  import opened Dicts

  // ---------------------------------------------------------------- one search

  /** The hit lists that a payload may carry, in the order in which they are tried: `ranked`, `hits` and,
      under `audit`, `ranked`, `entered_context`, `recall_pool`. A hit is its path. */
  type Payload = seq<Option<seq<string>>>

  /** Document ids in first-seen order; empty ids are skipped. */
  function Ids(paths: seq<string>, docId: string -> string): (r: seq<string>)
    ensures Distinct(r) && "" !in r
    ensures forall d :: d in r <==> d != "" && exists i :: 0 <= i < |paths| && docId(paths[i]) == d
  {
    if paths == [] then [] else
      var front := Ids(paths[..|paths| - 1], docId);
      var d := docId(paths[|paths| - 1]);
      assert forall i :: 0 <= i < |paths| - 1 ==> paths[..|paths| - 1][i] == paths[i];
      if d == "" || d in front then front else front + [d]
  }

  /** The first hit list that yields an id. */
  function RankedIds(payload: Payload, docId: string -> string): (r: seq<string>)
    ensures Distinct(r)
  {
    if payload == [] then []
    else if payload[0].Some? && Ids(payload[0].value, docId) != [] then Ids(payload[0].value, docId)
    else RankedIds(payload[1..], docId)
  }

  /** `ranked_doc_ids_from_retrieval_payload` */
  method RankedDocIds(payload: Payload, docId: string -> string) returns (ordered: seq<string>)
    ensures ordered == RankedIds(payload, docId)
  {
    ordered := [];
    for i := 0 to |payload|
      invariant ordered == []
      invariant RankedIds(payload, docId) == RankedIds(payload[i..], docId)
    {
      if payload[i].Some? {
        var paths := payload[i].value;
        for j := 0 to |paths|
          invariant ordered == Ids(paths[..j], docId)
        {
          assert paths[..j + 1][..j] == paths[..j];
          var d := docId(paths[j]);
          if d != "" && d !in ordered {
            ordered := ordered + [d];
          }
        }
        assert paths[..|paths|] == paths;
        if ordered != [] {
          return;
        }
      }
    }
  }

  // ---------------------------------------------------------------- fused scores

  const RRF_K: real := 60.0

  function IndexOf(r: seq<string>, d: string): (i: nat)
    requires d in r
    ensures i < |r| && r[i] == d && forall j :: 0 <= j < i ==> r[j] != d
  {
    if r[0] == d then 0 else 1 + IndexOf(r[1..], d)
  }

  /** What one search adds to the score of a document: `1 / (k + rank)`, ranks counted from 1. */
  function Contribution(r: seq<string>, d: string): real {
    if d in r then 1.0 / (RRF_K + (IndexOf(r, d) + 1) as real) else 0.0
  }

  function Score(rankings: seq<seq<string>>, d: string): real {
    if rankings == [] then 0.0
    else Score(rankings[..|rankings| - 1], d) + Contribution(rankings[|rankings| - 1], d)
  }

  /** The documents of a ranking behind those seen before. */
  function AddNew(seen: seq<string>, r: seq<string>): (s: seq<string>)
    requires Distinct(seen)
    ensures Distinct(s) && forall d :: d in s <==> d in seen || d in r
  {
    if r == [] then seen else
      var s := AddNew(seen, r[..|r| - 1]);
      var d := r[|r| - 1];
      assert r == r[..|r| - 1] + [d];
      if d in s then s else s + [d]
  }

  /** All retrieved documents in first-seen order. */
  function FirstSeen(rankings: seq<seq<string>>): (s: seq<string>)
    ensures Distinct(s)
  {
    if rankings == [] then []
    else AddNew(FirstSeen(rankings[..|rankings| - 1]), rankings[|rankings| - 1])
  }

  predicate AllDistinct(rankings: seq<seq<string>>) {
    forall i :: 0 <= i < |rankings| ==> Distinct(rankings[i])
  }

  lemma {:induction false} FirstSeenAll(rankings: seq<seq<string>>, d: string)
    ensures d in FirstSeen(rankings) <==> exists i :: 0 <= i < |rankings| && d in rankings[i]
  {
    if rankings == [] {
    } else {
      FirstSeenAll(rankings[..|rankings| - 1], d);
      assert forall i :: 0 <= i < |rankings| - 1 ==> rankings[..|rankings| - 1][i] == rankings[i];
    }
  }

  /** The loop state after some whole rankings and a part `r` of the next: the two dictionaries and the
      next first-seen number. */
  ghost predicate Holds(scores: Dict<string, real>, first: map<string, int>, order: int,
                        done: seq<seq<string>>, r: seq<string>) {
    && Valid(scores)
    && scores.keys == AddNew(FirstSeen(done), r)
    && (forall d :: d in scores.vals ==> scores.vals[d] == Score(done, d) + Contribution(r, d))
    && first.Keys == scores.vals.Keys
    && (forall i :: 0 <= i < |scores.keys| ==> first[scores.keys[i]] == i)
    && order == |scores.keys|
  }

  lemma {:induction false} IndexOfIs(r: seq<string>, i: nat)
    requires Distinct(r) && i < |r|
    ensures IndexOf(r, r[i]) == i
  {}

  lemma DistinctSnoc(r: seq<string>, x: string)
    requires Distinct(r + [x])
    ensures Distinct(r) && x !in r
  {
    var s := r + [x];
    assert forall i :: 0 <= i < |r| ==> s[i] == r[i] && s[i] != s[|r|];
  }

  lemma ContributionSnoc(r: seq<string>, x: string, d: string)
    requires Distinct(r + [x])
    ensures Contribution(r + [x], d) ==
            if d == x then 1.0 / (RRF_K + (|r| + 1) as real) else Contribution(r, d)
    ensures Contribution(r, x) == 0.0
  {
    var s := r + [x];
    DistinctSnoc(r, x);
    if d in r {
      var i := IndexOf(r, d);
      assert s[i] == d;
      IndexOfIs(s, i);
    } else if d == x {
      assert s[|r|] == x;
      IndexOfIs(s, |r|);
    }
  }

  lemma {:induction false} ScoreUnseen(rankings: seq<seq<string>>, d: string)
    requires d !in FirstSeen(rankings)
    ensures Score(rankings, d) == 0.0
  {
    if rankings == [] {
    } else {
      ScoreUnseen(rankings[..|rankings| - 1], d);
    }
  }

  function Bump(scores: Dict<string, real>, d: string, rank: nat): Dict<string, real>
    requires Valid(scores)
  {
    Put(scores, d, (if d in scores.vals then scores.vals[d] else 0.0) + 1.0 / (RRF_K + rank as real))
  }

  lemma DistinctPrefix(r: seq<string>, i: nat)
    requires Distinct(r) && i < |r|
    ensures Distinct(r[..i] + [r[i]])
  {}

  /** The inner loop of `rrf_fusion_scores`, over the documents of one search. */
  method AddRanking(scores: Dict<string, real>, first: map<string, int>, order: int, r: seq<string>,
                    ghost done: seq<seq<string>>)
    returns (scores': Dict<string, real>, first': map<string, int>, order': int)
    requires Distinct(r) && Holds(scores, first, order, done, [])
    ensures Holds(scores', first', order', done, r)
  {
    hide Holds, Distinct, Bump, Valid;
    scores', first', order' := scores, first, order;
    for i := 0 to |r|
      invariant Holds(scores', first', order', done, r[..i])
    {
      var d := r[i];
      DistinctPrefix(r, i);
      assert r[..i + 1] == r[..i] + [d];
      NextDocument(scores', first', order', done, r[..i], d);
      scores' := Bump(scores', d, i + 1);
      if d !in first' {
        first', order' := first'[d := order'], order' + 1;
      }
    }
    assert r[..|r|] == r;
  }

  /** One document more keeps the loop state right. */
  lemma NextDocument(scores: Dict<string, real>, first: map<string, int>, order: int,
                     done: seq<seq<string>>, r: seq<string>, d: string)
    requires Distinct(r + [d]) && Holds(scores, first, order, done, r)
    ensures Valid(scores)
    ensures d in first ==> Holds(Bump(scores, d, |r| + 1), first, order, done, r + [d])
    ensures d !in first ==> Holds(Bump(scores, d, |r| + 1), first[d := order], order + 1, done, r + [d])
  {
    hide Contribution, Score, FirstSeen, Distinct;
    DistinctSnoc(r, d);
    NextKeys(done, r, d);
    if d !in scores.vals {
      ScoreUnseen(done, d);
    }
    ContributionSnoc(r, d, d);
    forall e | e in scores.vals && e != d
      ensures Contribution(r + [d], e) == Contribution(r, e)
    {
      ContributionSnoc(r, d, e);
    }
  }

  lemma NextKeys(done: seq<seq<string>>, r: seq<string>, d: string)
    ensures var keys := AddNew(FirstSeen(done), r);
            && AddNew(FirstSeen(done), r + [d]) == (if d in keys then keys else keys + [d])
            && (d !in keys ==> d !in FirstSeen(done))
  {}

  /** `rrf_fusion_scores`, over the ranked ids of the completed searches. */
  method RrfFusionScores(rankings: seq<seq<string>>) returns (scores: Dict<string, real>, first: map<string, int>)
    requires AllDistinct(rankings)
    ensures Valid(scores) && scores.keys == FirstSeen(rankings)
    ensures forall d :: d in scores.vals ==> scores.vals[d] == Score(rankings, d)
    ensures first.Keys == scores.vals.Keys
    ensures forall i :: 0 <= i < |scores.keys| ==> first[scores.keys[i]] == i
  {
    var order := 0;
    scores, first := Empty(), map[];
    for i := 0 to |rankings|
      invariant Holds(scores, first, order, rankings[..i], [])
    {
      scores, first, order := AddRanking(scores, first, order, rankings[i], rankings[..i]);
      assert rankings[..i + 1][..i] == rankings[..i];
    }
    assert rankings[..|rankings|] == rankings;
  }

  // ---------------------------------------------------------------- the merged ranking

  /** The sort key of a document: the higher fused score first, then the earlier first-seen document. */
  function FusedKey(rankings: seq<seq<string>>): string -> Key {
    d => Key(Score(rankings, d), if d in FirstSeen(rankings) then IndexOf(FirstSeen(rankings), d) else 0)
  }

  function Merged(rankings: seq<seq<string>>): seq<string> {
    Sort(FirstSeen(rankings), FusedKey(rankings))
  }

  /** `merge_retrieval_rankings` */
  method MergeRetrievalRankings(rankings: seq<seq<string>>) returns (merged: seq<string>)
    requires AllDistinct(rankings)
    ensures merged == Merged(rankings)
  {
    var scores, first := RrfFusionScores(rankings);
    var key := d => Key(if d in scores.vals then scores.vals[d] else 0.0, if d in first then first[d] else 0);
    SameKeySort(scores.keys, key, FusedKey(rankings)) by {
      forall d | d in scores.keys
        ensures key(d) == FusedKey(rankings)(d)
      {
        var i := IndexOf(scores.keys, d);
        assert first[scores.keys[i]] == i;
      }
    }
    merged := Sort(scores.keys, key);
  }

  lemma {:induction false} SameKeyInsert<T>(x: T, ys: seq<T>, f: T -> Key, g: T -> Key)
    requires f(x) == g(x) && forall y :: y in ys ==> f(y) == g(y)
    ensures Insert(x, ys, f) == Insert(x, ys, g)
  {
    if ys == [] {
    } else {
      assert f(ys[0]) == g(ys[0]);
      SameKeyInsert(x, ys[1..], f, g);
    }
  }

  lemma {:induction false} SameKeySort<T>(xs: seq<T>, f: T -> Key, g: T -> Key)
    requires forall x :: x in xs ==> f(x) == g(x)
    ensures Sort(xs, f) == Sort(xs, g)
  {
    if xs == [] {
    } else {
      SameKeySort(xs[1..], f, g);
      forall y | y in Sort(xs[1..], f)
        ensures f(y) == g(y)
      {
        SortElements(xs[1..], f, y);
      }
      SameKeyInsert(xs[0], Sort(xs[1..], f), f, g);
    }
  }
}
