/**
  The stable comparator sort used by every view (`Array.prototype.sort` is
  stable), and the "sort descending, keep the first K" ranking used by the
  district comparison, the disease distribution and the animation frames.
*/
module Sorting {
  import opened Seqs

  /** `less` is a strict total order on keys. */
  ghost predicate StrictTotalOrder<K(!new)>(less: (K, K) -> bool)
  {
    && (forall a :: !less(a, a))
    && (forall a, b, c :: less(a, b) && less(b, c) ==> less(a, c))
    && (forall a, b :: a != b ==> less(a, b) || less(b, a))
  }

  /** No element has a key strictly before the key of an element ahead of it. */
  ghost predicate SortedBy<T, K>(xs: seq<T>, key: T -> K, less: (K, K) -> bool)
  {
    forall i, j :: 0 <= i < j < |xs| ==> !less(key(xs[j]), key(xs[i]))
  }

  /** The elements whose key is `k`; used with `Filter` to state stability. */
  function KeyIs<T, K(==)>(key: T -> K, k: K): T -> bool
  {
    x => key(x) == k
  }

  /**
    Places `x` in front of the first element whose key is not strictly
    before `x`'s key, so `x` stays ahead of the elements it ties with.
  */
  function Insert<T, K>(x: T, ys: seq<T>, key: T -> K, less: (K, K) -> bool): seq<T>
  {
    if |ys| == 0 || !less(key(ys[0]), key(x)) then [x] + ys
    else [ys[0]] + Insert(x, ys[1..], key, less)
  }

  /**
    Stable sort by `key`: `xs.sort((a, b) => cmp(a, b))` where the comparator
    is negative exactly when `less(key(a), key(b))`.
  */
  function SortBy<T, K>(xs: seq<T>, key: T -> K, less: (K, K) -> bool): seq<T>
  {
    if |xs| == 0 then [] else Insert(xs[0], SortBy(xs[1..], key, less), key, less)
  }

  lemma {:induction false} InsertPermutes<T, K>(x: T, ys: seq<T>, key: T -> K, less: (K, K) -> bool)
    ensures multiset(Insert(x, ys, key, less)) == multiset([x] + ys)
    ensures |Insert(x, ys, key, less)| == |ys| + 1
  {
    if |ys| > 0 && less(key(ys[0]), key(x)) {
      InsertPermutes(x, ys[1..], key, less);
      assert ys == [ys[0]] + ys[1..];
    }
  }

  /** The sort neither loses nor invents elements. */
  lemma {:induction false} SortByPermutes<T, K>(xs: seq<T>, key: T -> K, less: (K, K) -> bool)
    ensures multiset(SortBy(xs, key, less)) == multiset(xs)
    ensures |SortBy(xs, key, less)| == |xs|
  {
    if |xs| > 0 {
      SortByPermutes(xs[1..], key, less);
      InsertPermutes(xs[0], SortBy(xs[1..], key, less), key, less);
      assert xs == [xs[0]] + xs[1..];
    }
  }

  lemma NotBeforeIsTransitive<K(!new)>(less: (K, K) -> bool, a: K, b: K, c: K)
    requires StrictTotalOrder(less)
    requires !less(a, b) && !less(b, c)
    ensures !less(a, c)
  {
  }

  lemma BeforeIsAsymmetric<K(!new)>(less: (K, K) -> bool, a: K, b: K)
    requires StrictTotalOrder(less)
    requires less(a, b)
    ensures !less(b, a)
  {
  }

  lemma {:induction false} InsertSorted<T, K(!new)>(x: T, ys: seq<T>, key: T -> K, less: (K, K) -> bool)
    requires StrictTotalOrder(less)
    requires SortedBy(ys, key, less)
    ensures SortedBy(Insert(x, ys, key, less), key, less)
  {
    var r := Insert(x, ys, key, less);
    if |ys| == 0 || !less(key(ys[0]), key(x)) {
      forall j | 0 < j < |ys|
        ensures !less(key(ys[j]), key(x))
      {
        NotBeforeIsTransitive(less, key(ys[j]), key(ys[0]), key(x));
      }
      assert forall j :: 1 <= j < |r| ==> r[j] == ys[j - 1];
    } else {
      InsertSorted(x, ys[1..], key, less);
      InsertPermutes(x, ys[1..], key, less);
      var tail := Insert(x, ys[1..], key, less);
      assert r == [ys[0]] + tail;
      forall j | 0 <= j < |tail|
        ensures !less(key(tail[j]), key(ys[0]))
      {
        assert tail[j] in multiset([x] + ys[1..]);
        if tail[j] == x {
          BeforeIsAsymmetric(less, key(ys[0]), key(x));
        } else {
          assert tail[j] in ys[1..];
          var m :| 0 <= m < |ys[1..]| && ys[1..][m] == tail[j];
          assert ys[m + 1] == tail[j];
        }
      }
    }
  }

  /** The sort's output is ordered by key. */
  lemma {:induction false} SortBySorted<T, K(!new)>(xs: seq<T>, key: T -> K, less: (K, K) -> bool)
    requires StrictTotalOrder(less)
    ensures SortedBy(SortBy(xs, key, less), key, less)
  {
    if |xs| > 0 {
      SortBySorted(xs[1..], key, less);
      InsertSorted(xs[0], SortBy(xs[1..], key, less), key, less);
    }
  }

  lemma {:induction false} InsertStable<T, K(!new)>(x: T, ys: seq<T>, key: T -> K, less: (K, K) -> bool, k: K)
    requires StrictTotalOrder(less)
    ensures Filter(Insert(x, ys, key, less), KeyIs(key, k)) == Filter([x] + ys, KeyIs(key, k))
  {
    if |ys| > 0 && less(key(ys[0]), key(x)) {
      InsertStable(x, ys[1..], key, less, k);
      var p := KeyIs(key, k);
      FilterAppend([ys[0]], Insert(x, ys[1..], key, less), p);
      FilterAppend([x], ys[1..], p);
      FilterAppend([ys[0]], ys[1..], p);
      FilterAppend([x], ys, p);
      assert ys == [ys[0]] + ys[1..];
      assert Filter([ys[0]], p) == if key(ys[0]) == k then [ys[0]] else [];
      assert Filter([x], p) == if key(x) == k then [x] else [];
    }
  }

  /**
    Stability: for every key, the elements carrying that key appear in the
    output in exactly their input order.
  */
  lemma {:induction false} SortByStable<T, K(!new)>(xs: seq<T>, key: T -> K, less: (K, K) -> bool, k: K)
    requires StrictTotalOrder(less)
    ensures Filter(SortBy(xs, key, less), KeyIs(key, k)) == Filter(xs, KeyIs(key, k))
  {
    if |xs| > 0 {
      SortByStable(xs[1..], key, less, k);
      InsertStable(xs[0], SortBy(xs[1..], key, less), key, less, k);
      var p := KeyIs(key, k);
      FilterAppend([xs[0]], SortBy(xs[1..], key, less), p);
      FilterAppend([xs[0]], xs[1..], p);
      assert xs == [xs[0]] + xs[1..];
    }
  }

  /** Sorting an already ordered sequence returns it unchanged. */
  lemma {:induction false} SortByOfSorted<T, K>(xs: seq<T>, key: T -> K, less: (K, K) -> bool)
    requires SortedBy(xs, key, less)
    ensures SortBy(xs, key, less) == xs
  {
    if |xs| > 0 {
      assert SortedBy(xs[1..], key, less) by {
        assert forall i :: 0 <= i < |xs[1..]| ==> xs[1..][i] == xs[i + 1];
      }
      SortByOfSorted(xs[1..], key, less);
      if |xs| > 1 {
        assert !less(key(xs[1]), key(xs[0]));
      }
      assert xs == [xs[0]] + xs[1..];
    }
  }

  /** No two elements share a key. */
  ghost predicate DistinctBy<T, K>(xs: seq<T>, key: T -> K)
  {
    forall i, j :: 0 <= i < j < |xs| ==> key(xs[i]) != key(xs[j])
  }

  lemma {:induction false} FilterAtMostOne<T, K>(xs: seq<T>, key: T -> K, k: K)
    requires DistinctBy(xs, key)
    ensures |Filter(xs, KeyIs(key, k))| <= 1
  {
    if |xs| > 0 {
      assert DistinctBy(xs[1..], key) by {
        assert forall i :: 0 <= i < |xs[1..]| ==> xs[1..][i] == xs[i + 1];
      }
      if key(xs[0]) == k {
        assert forall i :: 0 <= i < |xs[1..]| ==> xs[1..][i] == xs[i + 1] && key(xs[i + 1]) != k;
        FilterNone(xs[1..], KeyIs(key, k));
      } else {
        FilterAtMostOne(xs[1..], key, k);
      }
    }
  }

  /** When a key is carried by at most one element, no later element carries it. */
  lemma {:induction false} SingleCarrier<T, K>(xs: seq<T>, key: T -> K, i: nat, j: nat)
    requires i < j < |xs|
    requires |Filter(xs, KeyIs(key, key(xs[i])))| <= 1
    ensures key(xs[i]) != key(xs[j])
  {
    var p := KeyIs(key, key(xs[i]));
    if i == 0 {
      assert p(xs[0]);
      assert Filter(xs, p) == [xs[0]] + Filter(xs[1..], p);
      assert Filter(xs[1..], p) == [];
      FilterMembership(xs[1..], p);
      assert xs[1..][j - 1] == xs[j];
      assert xs[j] in xs[1..];
      assert xs[j] !in Filter(xs[1..], p);
      assert !p(xs[j]);
    } else {
      assert |Filter(xs[1..], p)| <= |Filter(xs, p)|;
      assert xs[1..][i - 1] == xs[i] && xs[1..][j - 1] == xs[j];
      SingleCarrier(xs[1..], key, i - 1, j - 1);
    }
  }

  /** Reordering keeps keys distinct. */
  lemma DistinctByPermutation<T(!new), K>(xs: seq<T>, ys: seq<T>, key: T -> K)
    requires multiset(xs) == multiset(ys)
    requires DistinctBy(xs, key)
    ensures DistinctBy(ys, key)
  {
    forall i, j | 0 <= i < j < |ys|
      ensures key(ys[i]) != key(ys[j])
    {
      FilterPermutation(xs, ys, KeyIs(key, key(ys[i])));
      FilterAtMostOne(xs, key, key(ys[i]));
      SingleCarrier(ys, key, i, j);
    }
  }

  /** Sorting elements with distinct keys orders them strictly. */
  lemma SortByDistinctAscending<T(!new), K(!new)>(xs: seq<T>, key: T -> K, less: (K, K) -> bool)
    requires StrictTotalOrder(less)
    requires DistinctBy(xs, key)
    ensures DistinctBy(SortBy(xs, key, less), key)
    ensures forall i, j :: 0 <= i < j < |SortBy(xs, key, less)| ==>
      less(key(SortBy(xs, key, less)[i]), key(SortBy(xs, key, less)[j]))
  {
    var sorted := SortBy(xs, key, less);
    SortByPermutes(xs, key, less);
    SortBySorted(xs, key, less);
    DistinctByPermutation(xs, sorted, key);
  }

  /** Strictly greater: the "before" relation of a descending sort. */
  predicate Greater(a: real, b: real)
  {
    a > b
  }

  lemma GreaterIsStrictTotalOrder()
    ensures StrictTotalOrder(Greater)
  {
  }

  function MinNat(a: nat, b: nat): nat
  {
    if a <= b then a else b
  }

  /**
    `xs.sort((a, b) => value(b) - value(a)).slice(0, k)`: the first `k`
    elements by descending value, ties kept in input order.
  */
  function TopBy<T>(xs: seq<T>, value: T -> real, k: nat): (top: seq<T>)
    ensures |top| == MinNat(k, |xs|)
    ensures forall i, j :: 0 <= i < j < |top| ==> value(top[i]) >= value(top[j])
  {
    SortByPermutes(xs, value, Greater);
    GreaterIsStrictTotalOrder();
    SortBySorted(xs, value, Greater);
    var sorted := SortBy(xs, value, Greater);
    sorted[..MinNat(k, |sorted|)]
  }

  /** The elements `TopBy` leaves out, in descending order. */
  function DroppedBy<T>(xs: seq<T>, value: T -> real, k: nat): seq<T>
  {
    var sorted := SortBy(xs, value, Greater);
    SortByPermutes(xs, value, Greater);
    sorted[MinNat(k, |sorted|)..]
  }

  /**
    What `TopBy` keeps and drops: kept and dropped elements together are
    exactly the input, nothing dropped outranks anything kept, and with at
    most `k` elements nothing is dropped.
  */
  lemma TopBySplits<T>(xs: seq<T>, value: T -> real, k: nat)
    ensures multiset(TopBy(xs, value, k)) + multiset(DroppedBy(xs, value, k)) == multiset(xs)
    ensures forall a, b :: a in TopBy(xs, value, k) && b in DroppedBy(xs, value, k) ==> value(a) >= value(b)
    ensures |xs| <= k ==> DroppedBy(xs, value, k) == []
  {
    var sorted := SortBy(xs, value, Greater);
    SortByPermutes(xs, value, Greater);
    GreaterIsStrictTotalOrder();
    SortBySorted(xs, value, Greater);
    var n := MinNat(k, |sorted|);
    var top := sorted[..n];
    var dropped := sorted[n..];
    assert top == TopBy(xs, value, k);
    assert dropped == DroppedBy(xs, value, k);
    assert sorted == top + dropped;
    forall a, b | a in top && b in dropped
      ensures value(a) >= value(b)
    {
      var i :| 0 <= i < |top| && top[i] == a;
      var j :| 0 <= j < |dropped| && dropped[j] == b;
      assert sorted[i] == a && sorted[n + j] == b;
    }
  }

  /** What `TopBy` keeps and what it drops add up to the whole input. */
  lemma TopByDroppedSum<T>(xs: seq<T>, value: T -> real, k: nat, f: T -> real)
    ensures SumOf(TopBy(xs, value, k), f) + SumOf(DroppedBy(xs, value, k), f) == SumOf(xs, f)
  {
    var sorted := SortBy(xs, value, Greater);
    SortByPermutes(xs, value, Greater);
    SumOfPermutation(xs, sorted, f);
    assert sorted == TopBy(xs, value, k) + DroppedBy(xs, value, k);
    SumOfAppend(TopBy(xs, value, k), DroppedBy(xs, value, k), f);
  }
}
