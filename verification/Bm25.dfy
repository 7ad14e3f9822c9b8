/** `bm25.py`: the Okapi index over tokenized documents, in exact arithmetic. The logarithm is any function
    that is positive above 1. */
module Bm25 {
  import opened Ordering
  import opened Dicts
  import opened Numbers
  import opened IrMetrics

  type Tokens = seq<string>

  // ---------------------------------------------------------------- specification

  function Holders(docs: seq<Tokens>, t: string): set<nat> {
    set i: nat | i < |docs| && t in docs[i]
  }

  /** The number of documents that hold a term, by brute force. */
  function DocFreq(docs: seq<Tokens>, t: string): nat {
    |Holders(docs, t)|
  }

  function TotalLength(docs: seq<Tokens>): nat {
    if docs == [] then 0 else TotalLength(docs[..|docs| - 1]) + |docs[|docs| - 1]|
  }

  /** What scoring needs to know about the index. */
  datatype Stats = Stats(n: nat, avgdl: real, df: map<string, nat>, k1: real, b: real)

  function DfOf(st: Stats, t: string): nat {
    if t in st.df then st.df[t] else 0
  }

  function Idf(st: Stats, log: real -> real, t: string): real {
    log(1.0 + ((st.n - DfOf(st, t)) as real + 0.5) / (DfOf(st, t) as real + 0.5))
  }

  function AtLeastOne(x: real): real {
    if x >= 1.0 then x else 1.0
  }

  /** `k1 * (1 - b + b * dl / max(avgdl, 1))` */
  function Saturation(st: Stats, dl: nat): real {
    st.k1 * (1.0 - st.b + st.b * dl as real / AtLeastOne(st.avgdl))
  }

  /** The usual values of the parameters. */
  predicate Sound(st: Stats) {
    st.k1 >= 0.0 && 0.0 <= st.b <= 1.0
  }

  lemma QuotientPositive(x: real, y: real)
    requires x > 0.0 && y > 0.0
    ensures x / y > 0.0
  {}

  lemma SaturationPositive(st: Stats, dl: nat)
    requires Sound(st) && dl > 0
    ensures if st.k1 > 0.0 then Saturation(st, dl) > 0.0 else Saturation(st, dl) == 0.0
  {
    var x, y := st.b * dl as real, AtLeastOne(st.avgdl);
    var norm := x / y;
    if st.b > 0.0 {
      ProductPositive(st.b, dl as real);
      QuotientPositive(x, y);
    } else {
      assert x == 0.0 && norm == 0.0;
    }
    var share := 1.0 - st.b + norm;
    assert share > 0.0;
    assert Saturation(st, dl) == st.k1 * share;
    if st.k1 > 0.0 {
      ProductPositive(st.k1, share);
    } else {
      assert st.k1 * share == 0.0;
    }
  }

  predicate Matches(st: Stats, t: string, doc: Tokens) {
    t in doc && DfOf(st, t) > 0
  }

  function Denominator(st: Stats, t: string, doc: Tokens): real {
    multiset(doc)[t] as real + Saturation(st, |doc|)
  }

  /** Scoring a term does not divide by zero; only matching terms are scored. */
  predicate Defined(st: Stats, t: string, doc: Tokens) {
    Matches(st, t, doc) ==> Denominator(st, t, doc) != 0.0
  }

  predicate AllDefined(st: Stats, q: Tokens, doc: Tokens) {
    forall i :: 0 <= i < |q| ==> Defined(st, q[i], doc)
  }

  /** What one query term adds to the score of a document. */
  function TermScore(st: Stats, log: real -> real, t: string, doc: Tokens): real
    requires Defined(st, t, doc)
  {
    if !Matches(st, t, doc) then 0.0 else
      var f := multiset(doc)[t] as real;
      Idf(st, log, t) * (f * (st.k1 + 1.0)) / Denominator(st, t, doc)
  }

  function ScoreOf(st: Stats, log: real -> real, q: Tokens, doc: Tokens): real
    requires AllDefined(st, q, doc)
  {
    if q == [] then 0.0
    else ScoreOf(st, log, q[..|q| - 1], doc) + TermScore(st, log, q[|q| - 1], doc)
  }

  /** No score of a search divides by zero. */
  predicate SearchDefined(st: Stats, q: Tokens, docs: seq<Tokens>) {
    forall j :: 0 <= j < |docs| ==> AllDefined(st, q, docs[j])
  }

  /** The scored documents in index order: those with tokens and a positive score. */
  function Found(st: Stats, log: real -> real, q: Tokens, ids: seq<string>, docs: seq<Tokens>): seq<(string, real)>
    requires SearchDefined(st, q, docs) && |ids| == |docs|
  {
    if ids == [] then [] else
      var n := |ids| - 1;
      var s := ScoreOf(st, log, q, docs[n]);
      Found(st, log, q, ids[..n], docs[..n]) + if docs[n] != [] && s > 0.0 then [(ids[n], s)] else []
  }

  function Hits(st: Stats, log: real -> real, q: Tokens, ids: seq<string>, docs: seq<Tokens>, limit: nat)
    : seq<(string, real)>
    requires SearchDefined(st, q, docs) && |ids| == |docs|
  {
    Take(Sort(Found(st, log, q, ids, docs), ByScore), limit)
  }

  // ---------------------------------------------------------------- the index

  /** `sum(len(t) for t in self._tokens)` */
  method SumLengths(tokens: seq<Tokens>) returns (total: nat)
    ensures total == TotalLength(tokens)
  {
    total := 0;
    for i := 0 to |tokens|
      invariant total == TotalLength(tokens[..i])
    {
      assert tokens[..i + 1][..i] == tokens[..i];
      total := total + |tokens[i]|;
    }
    assert tokens[..|tokens|] == tokens;
  }

  /** The document-frequency table, one document after the other. */
  method CountDocs(tokens: seq<Tokens>) returns (df: map<string, nat>)
    ensures forall t: string :: (if t in df then df[t] else 0) == DocFreq(tokens, t)
  {
    hide DocFreq;
    NoDocs();
    df := map[];
    for i := 0 to |tokens|
      invariant forall t: string :: (if t in df then df[t] else 0) == DocFreq(tokens[..i], t)
    {
      forall t: string
        ensures DocFreq(tokens[..i + 1], t) == DocFreq(tokens[..i], t) + if t in tokens[i] then 1 else 0
      {
        DocFreqNext(tokens, i, t);
      }
      df := Counted(df, tokens[i]);
    }
    assert tokens[..|tokens|] == tokens;
  }

  lemma NoDocs()
    ensures forall t :: DocFreq([], t) == 0
  {}

  class BM25Index {
    var k1: real
    var b: real
    var ids: seq<string>
    var tokens: seq<Tokens>
    var n: nat
    var avgdl: real
    var df: map<string, nat>

    function AsStats(): Stats
      reads this
    {
      Stats(n, avgdl, df, k1, b)
    }

    /** The table counts exactly the documents that hold a term, and has no other terms. */
    ghost predicate Valid()
      reads this
    {
      && |ids| == |tokens| == n && Distinct(ids)
      && avgdl == (if n == 0 then 0.0 else TotalLength(tokens) as real / n as real)
      && forall t: string :: DfOf(AsStats(), t) == DocFreq(tokens, t)
    }

    /** `BM25Index.__init__`, over tokenized documents. */
    constructor (docs: Dict<string, Tokens>, k1: real, b: real)
      requires Dicts.Valid(docs)
      ensures Valid()
      ensures ids == docs.keys && this.k1 == k1 && this.b == b
      ensures forall i :: 0 <= i < |ids| ==> tokens[i] == docs.vals[ids[i]]
    {
      this.k1, this.b := k1, b;
      ids := docs.keys;
      tokens := seq(|docs.keys|, i requires 0 <= i < |docs.keys| => docs.vals[docs.keys[i]]);
      n := |docs.keys|;
      avgdl := 0.0;
      df := map[];
      new;
      var total := SumLengths(tokens);
      avgdl := if n == 0 then 0.0 else total as real / n as real;
      df := CountDocs(tokens);
    }

    /** `BM25Index._score` */
    method Score(log: real -> real, q: Tokens, doc: Tokens) returns (total: real)
      requires Valid() && AllDefined(AsStats(), q, doc)
      ensures total == ScoreOf(AsStats(), log, q, doc)
    {
      hide TermScore, DocFreq, Distinct, Defined, DfOf;
      var tf := multiset(doc);
      total := 0.0;
      for i := 0 to |q|
        invariant total == ScoreOf(AsStats(), log, q[..i], doc)
      {
        assert q[..i + 1][..i] == q[..i];
        var term := q[i];
        TermAbsent(AsStats(), log, term, doc);
        assert Defined(AsStats(), q[i], doc);
        if term !in tf {
          continue;
        }
        if DfOf(AsStats(), term) == 0 {
          continue;
        }
        total := total + TermScore(AsStats(), log, term, doc);
      }
      assert q[..|q|] == q;
    }

    /** `BM25Index.search` */
    method Search(log: real -> real, q: Tokens, limit: nat) returns (hits: seq<(string, real)>)
      requires Valid() && SearchDefined(AsStats(), q, tokens)
      ensures hits == Hits(AsStats(), log, q, ids, tokens, limit)
    {
      hide DocFreq, DfOf, Distinct, Sort, TermScore, AllDefined;
      if q == [] || n == 0 {
        NothingFound(AsStats(), log, q, ids, tokens);
        return [];
      }
      var scored: seq<(string, real)> := [];
      for i := 0 to |ids|
        invariant scored == Found(AsStats(), log, q, ids[..i], tokens[..i])
      {
        assert ids[..i + 1][..i] == ids[..i] && tokens[..i + 1][..i] == tokens[..i];
        if tokens[i] == [] {
          continue;
        }
        var s := Score(log, q, tokens[i]);
        if s > 0.0 {
          scored := scored + [(ids[i], s)];
        }
      }
      assert ids[..|ids|] == ids && tokens[..|tokens|] == tokens;
      hits := Take(Sort(scored, ByScore), limit);
    }
  }

  /** `df.update(set(toks))` */
  function Counted(df: map<string, nat>, toks: Tokens): map<string, nat> {
    map t | t in df.Keys + (set u | u in toks) ::
      (if t in df then df[t] else 0) + if t in toks then 1 else 0
  }

  lemma TermAbsent(st: Stats, log: real -> real, t: string, doc: Tokens)
    requires Defined(st, t, doc)
    ensures t !in multiset(doc) || DfOf(st, t) == 0 ==> TermScore(st, log, t, doc) == 0.0
  {}

  lemma DocFreqNext(docs: seq<Tokens>, i: nat, t: string)
    requires i < |docs|
    ensures DocFreq(docs[..i + 1], t) == DocFreq(docs[..i], t) + if t in docs[i] then 1 else 0
  {
    var few, all := Holders(docs[..i], t), Holders(docs[..i + 1], t);
    assert all == if t in docs[i] then few + {i} else few;
  }

  lemma {:induction false} NothingFound(st: Stats, log: real -> real, q: Tokens, ids: seq<string>, docs: seq<Tokens>)
    requires SearchDefined(st, q, docs) && |ids| == |docs| && (q == [] || ids == [])
    ensures Found(st, log, q, ids, docs) == []
  {
    if ids == [] {
    } else {
      NothingFound(st, log, q, ids[..|ids| - 1], docs[..|docs| - 1]);
    }
  }

  // ---------------------------------------------------------------- laws

  ghost predicate IsLog(log: real -> real) {
    forall x :: x > 1.0 ==> log(x) > 0.0
  }

  /** The score is additive over the query. */
  lemma {:induction false} ScoreAppend(st: Stats, log: real -> real, p: Tokens, q: Tokens, doc: Tokens)
    requires AllDefined(st, p + q, doc)
    ensures AllDefined(st, p, doc) && AllDefined(st, q, doc)
    ensures ScoreOf(st, log, p + q, doc) == ScoreOf(st, log, p, doc) + ScoreOf(st, log, q, doc)
    decreases |q|
  {
    hide TermScore, Defined;
    var r := p + q;
    assert forall i :: 0 <= i < |p| ==> p[i] == r[i];
    assert forall i :: 0 <= i < |q| ==> q[i] == r[|p| + i];
    if q == [] {
      assert r == p;
    } else {
      assert r[..|r| - 1] == p + q[..|q| - 1];
      ScoreAppend(st, log, p, q[..|q| - 1], doc);
    }
  }

  lemma IdfPositive(st: Stats, log: real -> real, t: string)
    requires IsLog(log) && DfOf(st, t) <= st.n
    ensures Idf(st, log, t) > 0.0
  {}

  lemma SignOfFactor(d: real, x: real)
    requires x > 0.0
    ensures d * x > 0.0 <==> d > 0.0
    ensures d * x == 0.0 <==> d == 0.0
  {}

  lemma SignOfQuotient(a: real, f: real, k: real, x: real)
    requires a > 0.0 && f > 0.0 && x != 0.0
    ensures a * (f * k) / x > 0.0 <==> k * x > 0.0
  {
    var y, p := a * (f * k) / x, a * f;
    ProductPositive(a, f);
    assert y * x == k * p;
    if x > 0.0 {
      SignOfFactor(y, x);
      SignOfFactor(k, p);
      SignOfFactor(k, x);
    } else {
      var z := -x;
      assert y * z == (-k) * p && (-k) * z == k * x;
      SignOfFactor(y, z);
      SignOfFactor(-k, p);
      SignOfFactor(-k, z);
    }
  }

  lemma Fraction(idf: real, f: real, k: real, sat: real)
    requires idf > 0.0 && f > 0.0 && k > 0.0 && f + sat > 0.0
    ensures idf * (f * k) / (f + sat) < idf * k <==> sat > 0.0
    ensures idf * (f * k) / (f + sat) == idf * k <==> sat == 0.0
  {
    var top, x := idf * k, f + sat;
    var y := idf * (f * k) / x;
    ProductPositive(idf, k);
    assert y * x == top * f;
    assert (top - y) * x == top * sat;
    SignOfFactor(top - y, x);
    SignOfFactor(sat, top);
  }

  /** Scoring a match of the term adds a positive amount: what the parameters decide. */
  predicate Raising(st: Stats, t: string, doc: Tokens) {
    Matches(st, t, doc) ==> (st.k1 + 1.0) * Denominator(st, t, doc) > 0.0
  }

  /** It does for the usual parameters, and then nothing divides by zero. */
  lemma SoundRaises(st: Stats, t: string, doc: Tokens)
    requires Sound(st)
    ensures Raising(st, t, doc) && Defined(st, t, doc)
  {
    if Matches(st, t, doc) {
      SaturationPositive(st, |doc|);
      assert t in multiset(doc);
      ProductPositive(st.k1 + 1.0, Denominator(st, t, doc));
    }
  }

  /** A matching term adds a positive amount exactly when the parameters say so; any other adds nothing. */
  lemma TermSign(st: Stats, log: real -> real, t: string, doc: Tokens)
    requires Defined(st, t, doc) && IsLog(log) && DfOf(st, t) <= st.n
    ensures Matches(st, t, doc) ==> (TermScore(st, log, t, doc) > 0.0 <==> Raising(st, t, doc))
    ensures !Matches(st, t, doc) ==> TermScore(st, log, t, doc) == 0.0
  {
    hide Idf, Saturation, IsLog;
    if Matches(st, t, doc) {
      IdfPositive(st, log, t);
      assert t in multiset(doc);
      SignOfQuotient(Idf(st, log, t), multiset(doc)[t] as real, st.k1 + 1.0, Denominator(st, t, doc));
    }
  }

  /** The limit of what a term can add: idf * (k1 + 1). */
  function TermLimit(st: Stats, log: real -> real, t: string): real {
    Idf(st, log, t) * (st.k1 + 1.0)
  }

  /** What a matching term adds against its limit. */
  lemma TermBounds(st: Stats, log: real -> real, t: string, doc: Tokens)
    requires Defined(st, t, doc) && Raising(st, t, doc) && st.k1 > -1.0 && IsLog(log) && DfOf(st, t) <= st.n
    ensures Matches(st, t, doc) ==>
              && TermScore(st, log, t, doc) > 0.0
              && (TermScore(st, log, t, doc) < TermLimit(st, log, t) <==> Saturation(st, |doc|) > 0.0)
              && (TermScore(st, log, t, doc) == TermLimit(st, log, t) <==> Saturation(st, |doc|) == 0.0)
  {
    hide Idf, Saturation, IsLog;
    TermSign(st, log, t, doc);
    if Matches(st, t, doc) {
      IdfPositive(st, log, t);
      assert t in multiset(doc);
      SignOfFactor(Denominator(st, t, doc), st.k1 + 1.0);
      assert (st.k1 + 1.0) * Denominator(st, t, doc) == Denominator(st, t, doc) * (st.k1 + 1.0);
      Fraction(Idf(st, log, t), multiset(doc)[t] as real, st.k1 + 1.0, Saturation(st, |doc|));
    }
  }

  /** The sum of the limits of the query terms that match. */
  function Ceiling(st: Stats, log: real -> real, q: Tokens, doc: Tokens): real {
    if q == [] then 0.0
    else
      Ceiling(st, log, q[..|q| - 1], doc) +
      if Matches(st, q[|q| - 1], doc) then TermLimit(st, log, q[|q| - 1]) else 0.0
  }

  predicate Touches(st: Stats, q: Tokens, doc: Tokens) {
    exists i :: 0 <= i < |q| && Matches(st, q[i], doc)
  }

  lemma TouchesLast(st: Stats, q: Tokens, doc: Tokens)
    requires q != []
    ensures Touches(st, q, doc) <==> Touches(st, q[..|q| - 1], doc) || Matches(st, q[|q| - 1], doc)
  {}

  predicate AllRaising(st: Stats, q: Tokens, doc: Tokens) {
    forall i :: 0 <= i < |q| ==> Raising(st, q[i], doc)
  }

  /** The score is positive exactly when some query term matches. */
  lemma {:induction false} ScorePositive(st: Stats, log: real -> real, q: Tokens, doc: Tokens)
    requires AllDefined(st, q, doc) && AllRaising(st, q, doc) && IsLog(log) && forall t :: DfOf(st, t) <= st.n
    ensures if Touches(st, q, doc) then ScoreOf(st, log, q, doc) > 0.0 else ScoreOf(st, log, q, doc) == 0.0
  {
    if q == [] {
    } else {
      hide TermScore, Matches, IsLog, Touches, Raising, Defined;
      ScorePositive(st, log, q[..|q| - 1], doc);
      TouchesLast(st, q, doc);
      TermSign(st, log, q[|q| - 1], doc);
    }
  }

  /** The score is positive exactly when some query term matches, and then below the ceiling exactly when saturation is
      positive, and the ceiling when there is none: for the usual parameters when `k1` is 0. */
  lemma {:induction false} ScoreBounds(st: Stats, log: real -> real, q: Tokens, doc: Tokens)
    requires AllDefined(st, q, doc) && AllRaising(st, q, doc) && st.k1 > -1.0
    requires IsLog(log) && forall t :: DfOf(st, t) <= st.n
    ensures var s, most, sat := ScoreOf(st, log, q, doc), Ceiling(st, log, q, doc), Saturation(st, |doc|);
            if Touches(st, q, doc) then 0.0 < s && (s < most <==> sat > 0.0) && (s == most <==> sat == 0.0)
            else s == 0.0 == most
  {
    ScorePositive(st, log, q, doc);
    if q == [] {
    } else {
      hide TermScore, Matches, TermLimit, IsLog, Touches, Raising, Defined, Saturation;
      ScoreBounds(st, log, q[..|q| - 1], doc);
      TouchesLast(st, q, doc);
      TermSign(st, log, q[|q| - 1], doc);
      TermBounds(st, log, q[|q| - 1], doc);
    }
  }

  predicate Shares(q: Tokens, doc: Tokens) {
    exists i :: 0 <= i < |q| && q[i] in doc
  }

  /** The statistics of an index over `docs`. */
  ghost predicate StatsOf(st: Stats, docs: seq<Tokens>) {
    st.n == |docs| && forall t :: DfOf(st, t) == DocFreq(docs, t)
  }

  lemma {:induction false} DocFreqBound(docs: seq<Tokens>, t: string)
    ensures DocFreq(docs, t) <= |docs|
    ensures DocFreq(docs, t) > 0 <==> exists i :: 0 <= i < |docs| && t in docs[i]
  {
    var hits := Holders(docs, t);
    SubsetCount(hits, Upto(|docs|));
    if i :| 0 <= i < |docs| && t in docs[i] {
      assert i in hits;
    }
    if |hits| > 0 {
      assert hits != {};
      var i :| i in hits;
    }
  }

  /** The score of every document is defined, and every match raises it. */
  predicate Scorable(st: Stats, docs: seq<Tokens>) {
    forall j :: 0 <= j < |docs| ==> AllDefined(st, docs[j], docs[j])
  }

  predicate Favourable(st: Stats, docs: seq<Tokens>) {
    forall j :: 0 <= j < |docs| ==> AllRaising(st, docs[j], docs[j])
  }

  lemma FavourableQuery(st: Stats, q: Tokens, doc: Tokens)
    ensures AllDefined(st, doc, doc) ==> AllDefined(st, q, doc)
    ensures AllRaising(st, doc, doc) ==> AllRaising(st, q, doc)
  {
    hide Denominator;
    forall i | 0 <= i < |q|
      ensures AllDefined(st, doc, doc) ==> Defined(st, q[i], doc)
      ensures AllRaising(st, doc, doc) ==> Raising(st, q[i], doc)
    {
      if q[i] in doc {
        var k :| 0 <= k < |doc| && doc[k] == q[i];
      }
    }
  }

  lemma ScorableQuery(st: Stats, q: Tokens, docs: seq<Tokens>)
    requires Scorable(st, docs)
    ensures SearchDefined(st, q, docs)
  {
    hide AllDefined, AllRaising;
    forall j | 0 <= j < |docs|
      ensures AllDefined(st, q, docs[j])
    {
      FavourableQuery(st, q, docs[j]);
    }
  }

  /** In the index, the terms of a document match it. */
  lemma TermsMatch(st: Stats, docs: seq<Tokens>, j: nat)
    requires StatsOf(st, docs) && j < |docs|
    ensures forall t :: DfOf(st, t) <= st.n && (t in docs[j] ==> Matches(st, t, docs[j]))
  {
    hide DocFreq, DfOf;
    forall t
      ensures DfOf(st, t) <= st.n && (t in docs[j] ==> Matches(st, t, docs[j]))
    {
      DocFreqBound(docs, t);
    }
  }

  /** For a document of the index, a positive score means a shared token. */
  lemma SharedIffPositive(st: Stats, log: real -> real, q: Tokens, docs: seq<Tokens>, j: nat)
    requires StatsOf(st, docs) && IsLog(log) && j < |docs|
    requires AllDefined(st, q, docs[j]) && AllRaising(st, docs[j], docs[j])
    ensures ScoreOf(st, log, q, docs[j]) > 0.0 <==> Shares(q, docs[j])
  {
    hide IsLog, StatsOf, ScoreOf, DfOf, AllDefined, AllRaising;
    TermsMatch(st, docs, j);
    FavourableQuery(st, q, docs[j]);
    ScorePositive(st, log, q, docs[j]);
  }

  lemma {:induction false} FoundExact(st: Stats, log: real -> real, q: Tokens, ids: seq<string>, docs: seq<Tokens>,
                                      id: string)
    requires SearchDefined(st, q, docs) && |ids| == |docs|
    ensures (exists s :: (id, s) in Found(st, log, q, ids, docs)) <==>
            exists j :: 0 <= j < |ids| && ids[j] == id && docs[j] != [] && ScoreOf(st, log, q, docs[j]) > 0.0
  {
    hide ScoreOf;
    if ids == [] {
    } else {
      var n := |ids| - 1;
      FoundExact(st, log, q, ids[..n], docs[..n], id);
      var found, front := Found(st, log, q, ids, docs), Found(st, log, q, ids[..n], docs[..n]);
      assert forall j :: 0 <= j < n ==> ids[..n][j] == ids[j] && docs[..n][j] == docs[j];
      var s := ScoreOf(st, log, q, docs[n]);
      if docs[n] != [] && s > 0.0 {
        assert found == front + [(ids[n], s)];
        assert (ids[n], s) in found;
      } else {
        assert found == front;
      }
    }
  }

  /** Without a limit, a search for `q` returns a document exactly when it shares a token with the query. */
  ghost predicate ReturnsShared(st: Stats, log: real -> real, q: Tokens, ids: seq<string>, docs: seq<Tokens>,
                                id: string)
    requires SearchDefined(st, q, docs) && |ids| == |docs|
  {
    (exists s :: (id, s) in Hits(st, log, q, ids, docs, |docs|)) <==>
    exists j :: 0 <= j < |ids| && ids[j] == id && Shares(q, docs[j])
  }

  /** Without a limit, exactly the documents with tokens and a positive score are returned. */
  lemma HitsExact(st: Stats, log: real -> real, q: Tokens, ids: seq<string>, docs: seq<Tokens>, id: string)
    requires SearchDefined(st, q, docs) && |ids| == |docs|
    ensures (exists s :: (id, s) in Hits(st, log, q, ids, docs, |docs|)) <==>
            exists j :: 0 <= j < |ids| && ids[j] == id && docs[j] != [] && ScoreOf(st, log, q, docs[j]) > 0.0
  {
    hide ScoreOf, Found, Sort;
    var found := Found(st, log, q, ids, docs);
    FoundLength(st, log, q, ids, docs);
    forall s
      ensures (id, s) in Hits(st, log, q, ids, docs, |docs|) <==> (id, s) in found
    {
      SortElements(found, ByScore, (id, s));
    }
    FoundExact(st, log, q, ids, docs, id);
  }

  /** Where every match raises the score, exactly the documents that share a token with the query are returned. */
  lemma SearchExact(st: Stats, log: real -> real, q: Tokens, ids: seq<string>, docs: seq<Tokens>, id: string)
    requires StatsOf(st, docs) && IsLog(log) && |ids| == |docs|
    requires SearchDefined(st, q, docs) && Favourable(st, docs)
    ensures ReturnsShared(st, log, q, ids, docs, id)
  {
    hide IsLog, StatsOf, ScoreOf, Hits, AllRaising, AllDefined;
    HitsExact(st, log, q, ids, docs, id);
    forall j: nat | j < |docs|
      ensures docs[j] != [] && ScoreOf(st, log, q, docs[j]) > 0.0 <==> Shares(q, docs[j])
    {
      SharedIffPositive(st, log, q, docs, j);
    }
  }

  /** A search for one term of a document returns it exactly when the match raises the score. */
  lemma SingleTerm(st: Stats, log: real -> real, ids: seq<string>, docs: seq<Tokens>, j: nat, t: string)
    requires StatsOf(st, docs) && IsLog(log) && |ids| == |docs| && Distinct(ids) && j < |docs| && t in docs[j]
    requires SearchDefined(st, [t], docs)
    ensures ReturnsShared(st, log, [t], ids, docs, ids[j]) <==> Raising(st, t, docs[j])
  {
    hide IsLog, StatsOf, Hits, TermScore, Raising, Matches, Defined;
    var q := [t];
    HitsExact(st, log, q, ids, docs, ids[j]);
    TermsMatch(st, docs, j);
    assert q[0] == t && q[..0] == [];
    assert AllDefined(st, q, docs[j]);
    TermSign(st, log, t, docs[j]);
    assert ScoreOf(st, log, q, docs[j]) == TermScore(st, log, t, docs[j]);
    assert Shares(q, docs[j]);
  }

  /** For which parameters search does what it should: every search returns exactly the documents that share a token
      with its query if and only if every match raises the score. */
  lemma SearchExactIff(st: Stats, log: real -> real, ids: seq<string>, docs: seq<Tokens>)
    requires StatsOf(st, docs) && IsLog(log) && |ids| == |docs| && Distinct(ids) && Scorable(st, docs)
    ensures (forall q, id :: SearchDefined(st, q, docs) ==> ReturnsShared(st, log, q, ids, docs, id)) <==>
            Favourable(st, docs)
  {
    hide IsLog, StatsOf, ReturnsShared, Raising, AllDefined, Scorable, SearchDefined, Distinct;
    if Favourable(st, docs) {
      forall q, id | SearchDefined(st, q, docs)
        ensures ReturnsShared(st, log, q, ids, docs, id)
      {
        SearchExact(st, log, q, ids, docs, id);
      }
    } else {
      var j: nat :| j < |docs| && !AllRaising(st, docs[j], docs[j]);
      var i: nat :| i < |docs[j]| && !Raising(st, docs[j][i], docs[j]);
      ScorableQuery(st, [docs[j][i]], docs);
      SingleTerm(st, log, ids, docs, j, docs[j][i]);
    }
  }

  /** For the usual parameters every match raises the score. */
  lemma SoundFavourable(st: Stats, docs: seq<Tokens>)
    requires Sound(st)
    ensures Scorable(st, docs) && Favourable(st, docs)
  {
    hide Raising, Defined;
    forall j, i | 0 <= j < |docs| && 0 <= i < |docs[j]|
      ensures Raising(st, docs[j][i], docs[j]) && Defined(st, docs[j][i], docs[j])
    {
      SoundRaises(st, docs[j][i], docs[j]);
    }
  }

  /** With `k1` below -1 a search does not return the only matching document. */
  lemma NegativeCanHide(log: real -> real)
    requires IsLog(log)
    ensures var docs: seq<Tokens> := [["a", "a"]];
            var st := Stats(1, 2.0, map["a" := 1], -1.5, 0.0);
            && StatsOf(st, docs) && Scorable(st, docs) && SearchDefined(st, ["a"], docs)
            && !ReturnsShared(st, log, ["a"], ["d"], docs, "d")
  {
    hide IsLog, ReturnsShared;
    var docs: seq<Tokens> := [["a", "a"]];
    var st := Stats(1, 2.0, map["a" := 1], -1.5, 0.0);
    forall t
      ensures DfOf(st, t) == DocFreq(docs, t)
    {
      assert Holders(docs, t) == if t == "a" then {0} else {};
    }
    assert multiset(["a", "a"])["a"] == 2;
    assert Denominator(st, "a", ["a", "a"]) == 0.5;
    SingleTerm(st, log, ["d"], docs, 0, "a");
  }

  lemma {:induction false} FoundLength(st: Stats, log: real -> real, q: Tokens, ids: seq<string>, docs: seq<Tokens>)
    requires SearchDefined(st, q, docs) && |ids| == |docs|
    ensures |Found(st, log, q, ids, docs)| <= |docs|
  {
    hide ScoreOf;
    if ids == [] {
    } else {
      FoundLength(st, log, q, ids[..|ids| - 1], docs[..|docs| - 1]);
    }
  }

  /** The hits come in descending score, and a smaller limit gives a prefix of a larger one. */
  lemma HitsOrdered(st: Stats, log: real -> real, q: Tokens, ids: seq<string>, docs: seq<Tokens>, k: nat, l: nat)
    requires SearchDefined(st, q, docs) && |ids| == |docs| && k <= l
    ensures var few, many := Hits(st, log, q, ids, docs, k), Hits(st, log, q, ids, docs, l);
            && few <= many
            && forall i, j :: 0 <= i < j < |many| ==> many[i].1 >= many[j].1
  {
    hide Found;
    SortSorts(Found(st, log, q, ids, docs), ByScore);
    var all := Sort(Found(st, log, q, ids, docs), ByScore);
    assert forall i, j :: 0 <= i < j < |all| ==> Before(ByScore(all[i]), ByScore(all[j]));
  }
}
