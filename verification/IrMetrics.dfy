/** `metrics_ir.py`: nDCG, recall and average precision at k, in exact arithmetic. `1 / log2(i + 2)` is any
    positive, strictly decreasing discount. */
module IrMetrics {
  import opened Ordering
  import opened Dicts
  import opened Numbers

  type Doc = string

  /** `sorted(results.items(), key=lambda x: x[1], reverse=True)` */
  function Ranked(results: Dict<Doc, real>): seq<(Doc, real)>
    requires Valid(results)
  {
    Sort(Items(results), ByScore)
  }

  function ByScore(x: (Doc, real)): Key {
    Key(x.1, 0)
  }

  function Docs(ranked: seq<(Doc, real)>): (r: seq<Doc>)
    ensures |r| == |ranked| && forall i :: 0 <= i < |r| ==> r[i] == ranked[i].0
  {
    seq(|ranked|, i requires 0 <= i < |ranked| => ranked[i].0)
  }

  /** `xs[:k]` */
  function Take<T>(xs: seq<T>, k: nat): seq<T> {
    if |xs| <= k then xs else xs[..k]
  }

  /** The ids of the first k results. */
  function TopDocs(results: Dict<Doc, real>, k: nat): seq<Doc>
    requires Valid(results)
  {
    Docs(Take(Ranked(results), k))
  }

  // ---------------------------------------------------------------- no document twice

  lemma {:induction false} DistinctCounts<T>(xs: seq<T>)
    ensures Distinct(xs) <==> forall x :: multiset(xs)[x] <= 1
  {
    if xs == [] {
    } else {
      var last, front := xs[|xs| - 1], xs[..|xs| - 1];
      DistinctCounts(front);
      assert xs == front + [last];
      assert multiset(xs) == multiset(front) + multiset{last};
      if Distinct(xs) {
        assert last !in front;
      } else if Distinct(front) {
        assert last in front;
        assert multiset(xs)[last] > 1;
      } else {
        var x :| multiset(front)[x] > 1;
        assert multiset(xs)[x] > 1;
      }
    }
  }

  lemma OneScorePerDoc(ranked: seq<(Doc, real)>)
    requires Distinct(Docs(ranked))
    ensures forall d, s, t :: (d, s) in ranked && (d, t) in ranked ==> s == t
  {}

  /** Lists of pairs with the same elements, one of them without a repeated document: so is the other. */
  lemma DocsStayDistinct(xs: seq<(Doc, real)>, ys: seq<(Doc, real)>)
    requires multiset(xs) == multiset(ys) && Distinct(Docs(xs))
    ensures Distinct(Docs(ys))
  {
    var docs := Docs(ys);
    forall i, j | 0 <= i < j < |docs|
      ensures docs[i] != docs[j]
    {
      assert ys[i] in multiset(ys) && ys[j] in multiset(ys);
      assert ys[i] in xs && ys[j] in xs;
      OneScorePerDoc(xs);
      if docs[i] == docs[j] {
        assert ys[i] == ys[j];
        DistinctPairs(xs);
        DistinctCounts(xs);
        DistinctCounts(ys);
      }
    }
  }

  lemma DistinctPairs(xs: seq<(Doc, real)>)
    requires Distinct(Docs(xs))
    ensures Distinct(xs)
  {}

  lemma TopDocsDistinct(results: Dict<Doc, real>, k: nat)
    requires Valid(results)
    ensures Distinct(TopDocs(results, k)) && |TopDocs(results, k)| <= k
    ensures Distinct(Docs(Ranked(results)))
  {
    var items := Items(results);
    assert Docs(items) == results.keys;
    SortSorts(items, ByScore);
    DocsStayDistinct(items, Ranked(results));
    var docs, top := Docs(Ranked(results)), TopDocs(results, k);
    assert forall i :: 0 <= i < |top| ==> top[i] == docs[i];
  }

  // ---------------------------------------------------------------- discounted cumulative gain

  type Ranking = d: Dict<Doc, real> | Valid(d) witness Empty()
  type Judged = d: Dict<Doc, int> | Valid(d) witness Empty()

  /** The gain of a grade; a grade that is not positive gains nothing. */
  function Gain(rel: int): real {
    if rel <= 0 then 0.0 else (Pow2(rel) - 1) as real
  }

  ghost predicate IsDiscount(disc: nat -> real) {
    (forall i :: disc(i) > 0.0) && (forall i, j :: i < j ==> disc(i) > disc(j))
  }

  /** The discounted gain of one grade. */
  function Term(rel: int, disc: nat -> real, at: nat): real {
    Gain(rel) * disc(at)
  }

  /** The discounted gain of the first k grades, whose first stands at rank `at`. */
  function DcgFrom(rels: seq<int>, k: nat, disc: nat -> real, at: nat): real {
    if rels == [] || k == 0 then 0.0
    else Term(rels[0], disc, at) + DcgFrom(rels[1..], k - 1, disc, at + 1)
  }

  /** `_dcg` */
  method Dcg(rels: seq<int>, k: nat, disc: nat -> real) returns (total: real)
    ensures total == DcgFrom(rels, k, disc, 0)
  {
    total := 0.0;
    var top := Take(rels, k);
    for i := 0 to |top|
      invariant total + DcgFrom(rels[i..], k - i, disc, i) == DcgFrom(rels, k, disc, 0)
    {
      var rel := top[i];
      assert rels[i..][1..] == rels[i + 1..];
      if rel <= 0 {
        continue;
      }
      total := total + (Pow2(rel) - 1) as real * disc(i);
    }
  }

  predicate Descending(s: seq<int>) {
    forall i, j :: 0 <= i < j < |s| ==> s[i] >= s[j]
  }

  /** Every positive grade occurs in `s` at least as often as in `g`. */
  ghost predicate Covers(s: seq<int>, g: seq<int>) {
    forall v :: v > 0 ==> multiset(g)[v] <= multiset(s)[v]
  }

  /** The grade at rank `i`, where missing and non-positive grades are 0. */
  function Clip(rels: seq<int>, i: nat): int {
    if i < |rels| && rels[i] > 0 then rels[i] else 0
  }

  predicate SameTop(g: seq<int>, s: seq<int>, k: nat) {
    forall i: nat :: i < k ==> Clip(g, i) == Clip(s, i)
  }

  lemma {:induction false} Pow2Grows(m: nat, n: nat)
    requires m < n
    ensures Pow2(m) < Pow2(n)
  {
    if m < n - 1 {
      Pow2Grows(m, n - 1);
    }
  }

  lemma GainGrows(g: int, s: int)
    requires g < s && s > 0
    ensures 0.0 <= Gain(g) < Gain(s)
  {
    Pow2Grows(if g > 0 then g else 0, s);
  }

  lemma {:induction false} DcgNonNegative(s: seq<int>, k: nat, disc: nat -> real, at: nat)
    requires IsDiscount(disc)
    ensures DcgFrom(s, k, disc, at) >= 0.0
    ensures DcgFrom(s, k, disc, at) == 0.0 <==> SameTop([], s, k)
  {
    if s != [] && k > 0 {
      DcgNonNegative(s[1..], k - 1, disc, at + 1);
      TopPeel([], s, k);
      TermSign(s[0], disc, at);
    }
  }

  lemma TermSign(rel: int, disc: nat -> real, at: nat)
    requires IsDiscount(disc)
    ensures Term(rel, disc, at) >= 0.0 && (Term(rel, disc, at) == 0.0 <==> rel <= 0)
  {}

  lemma TopPeel(g: seq<int>, s: seq<int>, k: nat)
    requires k > 0
    ensures var g', s' := if g == [] then [] else g[1..], if s == [] then [] else s[1..];
            SameTop(g, s, k) <==> Clip(g, 0) == Clip(s, 0) && SameTop(g', s', k - 1)
  {
    var g', s' := if g == [] then [] else g[1..], if s == [] then [] else s[1..];
    assert forall i: nat :: Clip(g, i + 1) == Clip(g', i) && Clip(s, i + 1) == Clip(s', i);
    if SameTop(g', s', k - 1) && Clip(g, 0) == Clip(s, 0) {
      forall i: nat | i < k
        ensures Clip(g, i) == Clip(s, i)
      {
        if i > 0 {
          assert Clip(g', i - 1) == Clip(s', i - 1);
          assert Clip(g, (i - 1) + 1) == Clip(g', i - 1) && Clip(s, (i - 1) + 1) == Clip(s', i - 1);
        }
      }
    }
  }

  /** Replacing one grade changes the total by the difference at that rank, if it counts. */
  lemma {:induction false} DcgReplace(g: seq<int>, q: nat, v: int, k: nat, disc: nat -> real, at: nat)
    requires q < |g|
    ensures DcgFrom(g[q := v], k, disc, at) ==
            DcgFrom(g, k, disc, at) + if q < k then Term(v, disc, at + q) - Term(g[q], disc, at + q) else 0.0
  {
    hide Term;
    if k > 0 {
      if q == 0 {
        assert g[q := v][1..] == g[1..];
      } else {
        assert g[q := v][1..] == g[1..][q - 1 := v];
        DcgReplace(g[1..], q - 1, v, k - 1, disc, at + 1);
      }
    }
  }

  /** Raising a grade g >= 0 by one at a rank that counts raises the total by 2^g times the discount of that rank. */
  lemma GradeRaised(rels: seq<int>, q: nat, k: nat, disc: nat -> real)
    requires q < |rels| && q < k && rels[q] >= 0
    ensures DcgFrom(rels[q := rels[q] + 1], k, disc, 0) ==
            DcgFrom(rels, k, disc, 0) + Pow2(rels[q]) as real * disc(q)
  {
    hide DcgFrom;
    var g := rels[q];
    DcgReplace(rels, q, g + 1, k, disc, 0);
    assert Gain(g + 1) == Gain(g) + Pow2(g) as real;
    Distribute(Gain(g), Pow2(g) as real, disc(q));
  }

  lemma Distribute(x: real, y: real, z: real)
    ensures (x + y) * z == x * z + y * z
  {}

  lemma CountPeel(s: seq<int>, v: int)
    requires s != []
    ensures multiset(s)[v] == multiset(s[1..])[v] + if v == s[0] then 1 else 0
  {
    assert s == [s[0]] + s[1..];
    assert multiset(s) == multiset{s[0]} + multiset(s[1..]);
  }

  lemma CoversPeel(s: seq<int>, g: seq<int>)
    requires s != [] && g != [] && Covers(s, g) && (g[0] == s[0] || s[0] !in g)
    ensures Covers(s[1..], g[1..])
  {
    forall v | v > 0
      ensures multiset(g[1..])[v] <= multiset(s[1..])[v]
    {
      CountPeel(s, v);
      CountPeel(g, v);
      assert multiset(g)[v] <= multiset(s)[v];
      assert s[0] !in g ==> multiset(g)[s[0]] == 0;
    }
  }

  /** The grades behind the first when the best grade is moved to the front. */
  lemma CoversSwap(s: seq<int>, g: seq<int>, p: nat)
    requires s != [] && g != [] && Covers(s, g) && 0 < p < |g| && g[p] == s[0]
    ensures Covers(s[1..], g[1..][p - 1 := g[0]])
  {
    var t := g[1..];
    var t' := t[p - 1 := g[0]];
    assert multiset(t') == multiset(t) - multiset{t[p - 1]} + multiset{g[0]};
    forall v | v > 0
      ensures multiset(t')[v] <= multiset(s[1..])[v]
    {
      CountPeel(s, v);
      CountPeel(g, v);
      assert multiset(g)[v] <= multiset(s)[v];
      assert t[p - 1] in multiset(t);
    }
  }

  lemma CoveredFirst(s: seq<int>, g: seq<int>)
    requires s != [] && g != [] && Descending(s) && Covers(s, g)
    ensures g[0] <= s[0] || g[0] <= 0
  {
    if g[0] > 0 {
      assert g[0] in multiset(g) && multiset(g)[g[0]] > 0;
      assert g[0] in multiset(s);
    }
  }

  lemma NothingCovered(s: seq<int>, g: seq<int>)
    requires (s == [] || s[0] <= 0) && Descending(s) && Covers(s, g)
    ensures forall i :: 0 <= i < |g| ==> g[i] <= 0
    ensures forall i :: 0 <= i < |s| ==> s[i] <= 0
  {
    assert forall v :: v in multiset(s) ==> v in s && v <= 0;
    forall i | 0 <= i < |g|
      ensures g[i] <= 0
    {
      assert g[i] in multiset(g);
      assert g[i] > 0 ==> multiset(g)[g[i]] <= multiset(s)[g[i]];
    }
  }

  /** The rearrangement inequality: grades taken from a list never gain more than the list in descending
      order, and gain as much only when they are the same at every rank that counts. */
  lemma {:induction false} IdealIsBest(g: seq<int>, s: seq<int>, k: nat, disc: nat -> real, at: nat)
    requires Descending(s) && Covers(s, g) && IsDiscount(disc)
    ensures DcgFrom(g, k, disc, at) <= DcgFrom(s, k, disc, at)
    ensures DcgFrom(g, k, disc, at) == DcgFrom(s, k, disc, at) <==> SameTop(g, s, k)
    decreases k
  {
    hide Term, IsDiscount, SameTop, Covers, Descending;
    if k == 0 {
      NoTop(g, s);
    } else if s == [] || s[0] <= 0 {
      NothingCovered(s, g);
      DcgNonNegative(g, k, disc, at);
      DcgNonNegative(s, k, disc, at);
      AllZeroTop(g, s, k);
    } else if g == [] {
      DcgNonNegative(s, k, disc, at);
    } else {
      DescendingTail(s);
      CoveredFirst(s, g);
      TopPeel(g, s, k);
      if g[0] == s[0] {
        CoversPeel(s, g);
        IdealIsBest(g[1..], s[1..], k - 1, disc, at + 1);
      } else if s[0] in g {
        var p: nat :| p < |g| && g[p] == s[0];
        var t := g[1..][p - 1 := g[0]];
        CoversSwap(s, g, p);
        IdealIsBest(t, s[1..], k - 1, disc, at + 1);
        DcgReplace(g[1..], p - 1, g[0], k - 1, disc, at + 1);
        SwapGains(g[0], s[0], disc, at, p);
      } else {
        CoversPeel(s, g);
        IdealIsBest(g[1..], s[1..], k - 1, disc, at + 1);
        SwapGains(g[0], s[0], disc, at, 1);
      }
    }
  }

  lemma NoTop(g: seq<int>, s: seq<int>)
    ensures SameTop(g, s, 0)
  {}

  lemma AllZeroTop(g: seq<int>, s: seq<int>, k: nat)
    requires forall i :: 0 <= i < |g| ==> g[i] <= 0
    requires forall i :: 0 <= i < |s| ==> s[i] <= 0
    ensures SameTop(g, s, k) && SameTop([], g, k) && SameTop([], s, k)
  {}

  lemma DescendingTail(s: seq<int>)
    requires Descending(s) && s != []
    ensures Descending(s[1..])
  {}

  /** The larger grade gains strictly more at a rank, also when the smaller one is moved behind it. */
  lemma SwapGains(g: int, s: int, disc: nat -> real, at: nat, p: nat)
    requires g < s && s > 0 && 0 < p && IsDiscount(disc)
    ensures Term(g, disc, at) < Term(s, disc, at)
    ensures Term(g, disc, at) + Term(s, disc, at + p) < Term(s, disc, at) + Term(g, disc, at + p)
  {
    hide Gain;
    GainGrows(g, s);
    var x, y := Gain(g), Gain(s);
    assert disc(at) > disc(at + p) > 0.0;
    ProductPositive(y - x, disc(at) - disc(at + p));
    ProductPositive(y - x, disc(at));
  }
}
