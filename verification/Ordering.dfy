/** Python's `sorted`: a stable sort by key. Keys put the larger `high` first and, for equal `high`, the
    smaller `low`; `reverse=True` on a score is `Key(score, 0)`, which keeps the order of equal scores. */
module Ordering {

  datatype Key = Key(high: real, low: int)

  /** `k` does not have to come behind `l`. */
  predicate Before(k: Key, l: Key) {
    k.high > l.high || (k.high == l.high && k.low <= l.low)
  }

  predicate Sorted<T>(xs: seq<T>, key: T -> Key) {
    forall i, j :: 0 <= i < j < |xs| ==> Before(key(xs[i]), key(xs[j]))
  }

  /** `x` in front of the first element that it need not follow. */
  function Insert<T>(x: T, ys: seq<T>, key: T -> Key): (r: seq<T>)
    ensures |r| == |ys| + 1
  {
    if ys == [] || Before(key(x), key(ys[0])) then [x] + ys else [ys[0]] + Insert(x, ys[1..], key)
  }

  function Sort<T>(xs: seq<T>, key: T -> Key): (r: seq<T>)
    ensures |r| == |xs|
  {
    if xs == [] then [] else Insert(xs[0], Sort(xs[1..], key), key)
  }

  lemma {:induction false} InsertElements<T>(x: T, ys: seq<T>, key: T -> Key)
    ensures multiset(Insert(x, ys, key)) == multiset{x} + multiset(ys)
  {
    if ys != [] && !Before(key(x), key(ys[0])) {
      InsertElements(x, ys[1..], key);
      assert ys == [ys[0]] + ys[1..];
    }
  }

  lemma SortedCons<T>(x: T, ys: seq<T>, key: T -> Key)
    requires Sorted(ys, key) && forall y :: y in ys ==> Before(key(x), key(y))
    ensures Sorted([x] + ys, key)
  {}

  lemma SortedFirst<T>(ys: seq<T>, key: T -> Key)
    requires Sorted(ys, key) && ys != []
    ensures Sorted(ys[1..], key) && forall y :: y in ys ==> Before(key(ys[0]), key(y))
  {}

  lemma {:induction false} InsertSorted<T>(x: T, ys: seq<T>, key: T -> Key)
    requires Sorted(ys, key)
    ensures Sorted(Insert(x, ys, key), key)
  {
    if ys == [] {
    } else {
      hide Sorted;
      SortedFirst(ys, key);
      if Before(key(x), key(ys[0])) {
        SortedCons(x, ys, key);
      } else {
        var r := Insert(x, ys[1..], key);
        InsertSorted(x, ys[1..], key);
        InsertElements(x, ys[1..], key);
        forall y | y in r
          ensures Before(key(ys[0]), key(y))
        {
          assert y in multiset(r);
          assert y == x || y in ys[1..];
        }
        SortedCons(ys[0], r, key);
      }
    }
  }

  /** The result is in order and has the same elements, each as often. */
  lemma {:induction false} SortSorts<T>(xs: seq<T>, key: T -> Key)
    ensures Sorted(Sort(xs, key), key) && multiset(Sort(xs, key)) == multiset(xs)
  {
    if xs == [] {
    } else {
      SortSorts(xs[1..], key);
      InsertSorted(xs[0], Sort(xs[1..], key), key);
      InsertElements(xs[0], Sort(xs[1..], key), key);
      assert xs == [xs[0]] + xs[1..];
    }
  }

  lemma SortElements<T>(xs: seq<T>, key: T -> Key, x: T)
    ensures x in Sort(xs, key) <==> x in xs
  {
    SortSorts(xs, key);
    assert x in Sort(xs, key) <==> x in multiset(Sort(xs, key));
    assert x in xs <==> x in multiset(xs);
  }

  /** Sorting leaves a list alone exactly when it is in order. */
  lemma {:induction false} SortFixed<T>(xs: seq<T>, key: T -> Key)
    ensures Sort(xs, key) == xs <==> Sorted(xs, key)
  {
    SortSorts(xs, key);
    if Sorted(xs, key) {
      SortFixedIfSorted(xs, key);
    }
  }

  lemma {:induction false} SortFixedIfSorted<T>(xs: seq<T>, key: T -> Key)
    requires Sorted(xs, key)
    ensures Sort(xs, key) == xs
  {
    if xs == [] {
    } else {
      SortFixedIfSorted(xs[1..], key);
    }
  }

  /** The elements with a given key, in order. */
  function WithKey<T>(xs: seq<T>, key: T -> Key, k: Key): seq<T> {
    if xs == [] then []
    else if key(xs[0]) == k then [xs[0]] + WithKey(xs[1..], key, k)
    else WithKey(xs[1..], key, k)
  }

  lemma {:induction false} InsertStable<T>(x: T, ys: seq<T>, key: T -> Key, k: Key)
    ensures WithKey(Insert(x, ys, key), key, k) ==
            if key(x) == k then [x] + WithKey(ys, key, k) else WithKey(ys, key, k)
  {
    var r := Insert(x, ys, key);
    if ys == [] || Before(key(x), key(ys[0])) {
      assert r[1..] == ys;
    } else {
      InsertStable(x, ys[1..], key, k);
      assert r[1..] == Insert(x, ys[1..], key);
    }
  }

  /** The sort is stable: elements with equal keys keep their order. */
  lemma {:induction false} SortStable<T>(xs: seq<T>, key: T -> Key, k: Key)
    ensures WithKey(Sort(xs, key), key, k) == WithKey(xs, key, k)
  {
    if xs == [] {
    } else {
      SortStable(xs[1..], key, k);
      InsertStable(xs[0], Sort(xs[1..], key), key, k);
    }
  }

  lemma {:induction false} WithKeyHas<T>(xs: seq<T>, key: T -> Key, k: Key)
    ensures WithKey(xs, key, k) != [] <==> exists i :: 0 <= i < |xs| && key(xs[i]) == k
  {
    if xs == [] {
    } else {
      WithKeyHas(xs[1..], key, k);
      if i :| 0 <= i < |xs| && key(xs[i]) == k && key(xs[0]) != k {
        assert xs[1..][i - 1] == xs[i];
      }
      if i :| 0 <= i < |xs[1..]| && key(xs[1..][i]) == k {
        assert xs[i + 1] == xs[1..][i];
      }
    }
  }

  lemma FirstKeys<T>(ys: seq<T>, zs: seq<T>, key: T -> Key)
    requires ys != [] && Sorted(zs, key)
    requires forall k :: WithKey(ys, key, k) == WithKey(zs, key, k)
    ensures zs != [] && Before(key(zs[0]), key(ys[0]))
  {
    var k := key(ys[0]);
    WithKeyHas(ys, key, k);
    WithKeyHas(zs, key, k);
    assert WithKey(ys, key, k) == WithKey(zs, key, k);
    var i :| 0 <= i < |zs| && key(zs[i]) == k;
  }

  /** Stable sorting has only one result: lists in order that agree on every key are equal. */
  lemma {:induction false} StableUnique<T>(ys: seq<T>, zs: seq<T>, key: T -> Key)
    requires Sorted(ys, key) && Sorted(zs, key)
    requires forall k :: WithKey(ys, key, k) == WithKey(zs, key, k)
    ensures ys == zs
  {
    if ys == [] {
      if zs != [] {
        FirstKeys(zs, ys, key);
      }
    } else {
      FirstKeys(ys, zs, key);
      FirstKeys(zs, ys, key);
      var k0 := key(ys[0]);
      assert WithKey(ys, key, k0)[0] == ys[0] && WithKey(zs, key, k0)[0] == zs[0];
      forall k
        ensures WithKey(ys[1..], key, k) == WithKey(zs[1..], key, k)
      {
        var a, b := WithKey(ys, key, k), WithKey(zs, key, k);
        assert a == b;
        assert k == k0 ==> a[1..] == WithKey(ys[1..], key, k) && b[1..] == WithKey(zs[1..], key, k);
      }
      StableUnique(ys[1..], zs[1..], key);
      assert ys == [ys[0]] + ys[1..] && zs == [zs[0]] + zs[1..];
    }
  }
}
