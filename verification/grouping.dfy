/**
  Group-by in first-appearance order: the model of accumulating rows into a
  plain JavaScript object keyed by a string (`acc[key] ??= {...}; acc[key] += row`)
  and reading it back with `Object.keys` / `Object.values`, which yield the
  keys in insertion order.
*/
module Grouping {
  import opened Seqs
  import opened Sorting

  /** The rows accumulated under one key, in the order they were added. */
  datatype Group<K, T> = Group(key: K, members: seq<T>)

  /** Folds one row into the accumulator: an existing group grows, a new key opens a group at the end. */
  function AddToGroups<T, K(==)>(gs: seq<Group<K, T>>, x: T, key: T -> K): seq<Group<K, T>>
  {
    if |gs| == 0 then [Group(key(x), [x])]
    else if gs[0].key == key(x) then [Group(gs[0].key, gs[0].members + [x])] + gs[1..]
    else [gs[0]] + AddToGroups(gs[1..], x, key)
  }

  /** `xs.forEach(x => add(x))` over an initially empty accumulator. */
  function GroupBy<T, K(==)>(xs: seq<T>, key: T -> K): seq<Group<K, T>>
  {
    if |xs| == 0 then [] else AddToGroups(GroupBy(xs[..|xs| - 1], key), xs[|xs| - 1], key)
  }

  predicate HasKey<T, K(==)>(gs: seq<Group<K, T>>, k: K)
  {
    exists i :: 0 <= i < |gs| && gs[i].key == k
  }

  /** The members accumulated under `k`, or none if no group has that key. */
  function MembersOf<T, K(==)>(gs: seq<Group<K, T>>, k: K): seq<T>
  {
    if |gs| == 0 then []
    else if gs[0].key == k then gs[0].members
    else MembersOf(gs[1..], k)
  }

  ghost predicate DistinctKeys<T, K>(gs: seq<Group<K, T>>)
  {
    forall i, j :: 0 <= i < j < |gs| ==> gs[i].key != gs[j].key
  }

  lemma {:induction false} MembersOfAt<T, K>(gs: seq<Group<K, T>>, i: nat)
    requires DistinctKeys(gs)
    requires i < |gs|
    ensures MembersOf(gs, gs[i].key) == gs[i].members
  {
    if i > 0 {
      assert gs[0].key != gs[i].key;
      assert gs[1..][i - 1] == gs[i];
      MembersOfAt(gs[1..], i - 1);
    }
  }

  lemma {:induction false} MembersOfAbsent<T, K>(gs: seq<Group<K, T>>, k: K)
    requires !HasKey(gs, k)
    ensures MembersOf(gs, k) == []
  {
    if |gs| > 0 {
      assert gs[0].key != k;
      assert !HasKey(gs[1..], k) by {
        assert forall i :: 0 <= i < |gs[1..]| ==> gs[1..][i] == gs[i + 1];
      }
      MembersOfAbsent(gs[1..], k);
    }
  }

  /**
    Folding in a row either keeps the key sequence (the key is already
    present) or appends one new group at the end (first appearance).
  */
  lemma {:induction false} AddToGroupsShape<T, K>(gs: seq<Group<K, T>>, x: T, key: T -> K)
    ensures HasKey(gs, key(x)) ==>
      |AddToGroups(gs, x, key)| == |gs| &&
      forall i :: 0 <= i < |gs| ==> AddToGroups(gs, x, key)[i].key == gs[i].key
    ensures !HasKey(gs, key(x)) ==> AddToGroups(gs, x, key) == gs + [Group(key(x), [x])]
  {
    if |gs| > 0 && gs[0].key != key(x) {
      var tail := gs[1..];
      AddToGroupsShape(tail, x, key);
      var r := AddToGroups(gs, x, key);
      var rt := AddToGroups(tail, x, key);
      assert r == [gs[0]] + rt;
      if HasKey(gs, key(x)) {
        var i :| 0 <= i < |gs| && gs[i].key == key(x);
        assert tail[i - 1].key == key(x);
        forall i | 0 <= i < |gs|
          ensures r[i].key == gs[i].key
        {
          if i > 0 {
            assert r[i] == rt[i - 1];
          }
        }
      } else {
        assert !HasKey(tail, key(x)) by {
          forall m | 0 <= m < |tail|
            ensures tail[m].key != key(x)
          {
            assert tail[m] == gs[m + 1];
          }
        }
        assert gs == [gs[0]] + tail;
      }
    }
  }

  lemma {:induction false} AddToGroupsMembers<T, K>(gs: seq<Group<K, T>>, x: T, key: T -> K, k: K)
    ensures MembersOf(AddToGroups(gs, x, key), k) == MembersOf(gs, k) + (if key(x) == k then [x] else [])
  {
    if |gs| > 0 && gs[0].key != key(x) {
      AddToGroupsMembers(gs[1..], x, key, k);
    } else if |gs| > 0 && k != key(x) {
      assert AddToGroups(gs, x, key)[1..] == gs[1..];
    }
  }

  /** The effect of folding in one row, key by key. */
  lemma AddToGroupsEffect<T, K>(gs: seq<Group<K, T>>, x: T, key: T -> K)
    requires DistinctKeys(gs)
    ensures DistinctKeys(AddToGroups(gs, x, key))
    ensures forall k {:trigger MembersOf(AddToGroups(gs, x, key), k)} ::
      MembersOf(AddToGroups(gs, x, key), k) == MembersOf(gs, k) + (if key(x) == k then [x] else [])
    ensures forall k {:trigger HasKey(AddToGroups(gs, x, key), k)} ::
      HasKey(AddToGroups(gs, x, key), k) <==> HasKey(gs, k) || k == key(x)
    ensures HasKey(gs, key(x)) ==>
      |AddToGroups(gs, x, key)| == |gs| &&
      forall i :: 0 <= i < |gs| ==> AddToGroups(gs, x, key)[i].key == gs[i].key
    ensures !HasKey(gs, key(x)) ==> AddToGroups(gs, x, key) == gs + [Group(key(x), [x])]
  {
    var r := AddToGroups(gs, x, key);
    AddToGroupsShape(gs, x, key);
    forall k ensures MembersOf(r, k) == MembersOf(gs, k) + (if key(x) == k then [x] else []) {
      AddToGroupsMembers(gs, x, key, k);
    }
    if HasKey(gs, key(x)) {
      forall k ensures HasKey(r, k) <==> HasKey(gs, k) || k == key(x) {
        if HasKey(r, k) {
          var i :| 0 <= i < |r| && r[i].key == k;
          assert gs[i].key == k;
        }
        if HasKey(gs, k) {
          var i :| 0 <= i < |gs| && gs[i].key == k;
          assert r[i].key == k;
        }
      }
    } else {
      forall k ensures HasKey(r, k) <==> HasKey(gs, k) || k == key(x) {
        if HasKey(r, k) {
          var i :| 0 <= i < |r| && r[i].key == k;
          if i < |gs| {
            assert gs[i].key == k;
          }
        }
        if HasKey(gs, k) {
          var i :| 0 <= i < |gs| && gs[i].key == k;
          assert r[i].key == k;
        }
        if k == key(x) {
          assert r[|gs|].key == k;
        }
      }
    }
  }

  /**
    The grouping is exact: one group per distinct key of the input, no group
    for any other key, and each group's members are the input elements with
    that key, in input order (hence never empty).
  */
  lemma {:induction false} GroupByExact<T, K>(xs: seq<T>, key: T -> K)
    ensures DistinctKeys(GroupBy(xs, key))
    ensures forall k {:trigger MembersOf(GroupBy(xs, key), k)} ::
      MembersOf(GroupBy(xs, key), k) == Filter(xs, KeyIs(key, k))
    ensures forall k {:trigger HasKey(GroupBy(xs, key), k)} ::
      HasKey(GroupBy(xs, key), k) <==> exists j :: 0 <= j < |xs| && key(xs[j]) == k
  {
    if |xs| > 0 {
      var n := |xs| - 1;
      var prefix := xs[..n];
      var x := xs[n];
      GroupByExact(prefix, key);
      AddToGroupsEffect(GroupBy(prefix, key), x, key);
      assert xs == prefix + [x];
      forall k ensures MembersOf(GroupBy(xs, key), k) == Filter(xs, KeyIs(key, k)) {
        FilterAppend(prefix, [x], KeyIs(key, k));
      }
      forall k ensures HasKey(GroupBy(xs, key), k) <==> exists j :: 0 <= j < |xs| && key(xs[j]) == k {
        if exists j :: 0 <= j < |xs| && key(xs[j]) == k {
          var j :| 0 <= j < |xs| && key(xs[j]) == k;
          if j < n {
            assert prefix[j] == xs[j];
          }
        }
        if exists j :: 0 <= j < |prefix| && key(prefix[j]) == k {
          var j :| 0 <= j < |prefix| && key(prefix[j]) == k;
          assert xs[j] == prefix[j];
        }
      }
    }
  }

  /** Each group holds exactly the input elements with its key. */
  lemma GroupMembers<T, K>(xs: seq<T>, key: T -> K, i: nat)
    requires i < |GroupBy(xs, key)|
    ensures GroupBy(xs, key)[i].members == Filter(xs, KeyIs(key, GroupBy(xs, key)[i].key))
    ensures |GroupBy(xs, key)[i].members| > 0
  {
    var gs := GroupBy(xs, key);
    GroupByExact(xs, key);
    MembersOfAt(gs, i);
    assert HasKey(gs, gs[i].key);
    var j :| 0 <= j < |xs| && key(xs[j]) == gs[i].key;
    FilterMembership(xs, KeyIs(key, gs[i].key));
    assert xs[j] in Filter(xs, KeyIs(key, gs[i].key));
  }

  /**
    Grouping input that is already ordered by key yields groups in strictly
    ascending key order.
  */
  lemma {:induction false} GroupBySortedAscending<T, K(!new)>(xs: seq<T>, key: T -> K, less: (K, K) -> bool)
    requires StrictTotalOrder(less)
    requires SortedBy(xs, key, less)
    ensures forall i, j :: 0 <= i < j < |GroupBy(xs, key)| ==>
      less(GroupBy(xs, key)[i].key, GroupBy(xs, key)[j].key)
  {
    if |xs| > 0 {
      var n := |xs| - 1;
      var prefix := xs[..n];
      var x := xs[n];
      assert SortedBy(prefix, key, less) by {
        assert forall i :: 0 <= i < n ==> prefix[i] == xs[i];
      }
      GroupBySortedAscending(prefix, key, less);
      var gs := GroupBy(prefix, key);
      GroupByExact(prefix, key);
      AddToGroupsEffect(gs, x, key);
      if !HasKey(gs, key(x)) {
        forall i | 0 <= i < |gs|
          ensures less(gs[i].key, key(x))
        {
          assert HasKey(gs, gs[i].key);
          var j :| 0 <= j < |prefix| && key(prefix[j]) == gs[i].key;
          assert xs[j] == prefix[j];
          assert !less(key(xs[n]), key(xs[j]));
          assert gs[i].key != key(x);
        }
      }
    }
  }

  /** One chart entry per group, in group order (`Object.keys(acc).map(k => f(k, acc[k]))`). */
  function MapGroups<K, T, U>(gs: seq<Group<K, T>>, f: Group<K, T> -> U): seq<U>
  {
    seq(|gs|, i requires 0 <= i < |gs| => f(gs[i]))
  }

  /** Whether an element is kept depends on its key alone (as "skip rows whose district is empty"). */
  ghost predicate KeyDecides<T(!new), K>(keep: T -> bool, key: T -> K)
  {
    forall x, y :: key(x) == key(y) ==> keep(x) == keep(y)
  }

  /**
    Grouping after a filter that is decided by the key: each group holds all
    the input elements with its key, it is non-empty, and its key is the key
    of a kept input element.
  */
  lemma GroupByKept<T(!new), K>(xs: seq<T>, keep: T -> bool, key: T -> K, i: nat)
    requires KeyDecides(keep, key)
    requires i < |GroupBy(Filter(xs, keep), key)|
    ensures GroupBy(Filter(xs, keep), key)[i].members == Filter(xs, KeyIs(key, GroupBy(Filter(xs, keep), key)[i].key))
    ensures |GroupBy(Filter(xs, keep), key)[i].members| > 0
    ensures exists j :: 0 <= j < |xs| && keep(xs[j]) && key(xs[j]) == GroupBy(Filter(xs, keep), key)[i].key
  {
    var kept := Filter(xs, keep);
    var g := GroupBy(kept, key)[i];
    GroupMembers(kept, key, i);
    var m := g.members[0];
    FilterMembership(kept, KeyIs(key, g.key));
    assert m in Filter(kept, KeyIs(key, g.key));
    FilterMembership(xs, keep);
    assert m in kept;
    forall x | KeyIs(key, g.key)(x)
      ensures keep(x)
    {
      assert key(x) == key(m);
    }
    FilterNarrows(xs, keep, KeyIs(key, g.key));
    var j :| 0 <= j < |xs| && xs[j] == m;
  }

  /** Every kept input element's key has a group. */
  lemma GroupByKeptCovers<T, K>(xs: seq<T>, keep: T -> bool, key: T -> K, j: nat)
    requires j < |xs| && keep(xs[j])
    ensures exists i :: 0 <= i < |GroupBy(Filter(xs, keep), key)| && GroupBy(Filter(xs, keep), key)[i].key == key(xs[j])
  {
    var kept := Filter(xs, keep);
    FilterMembership(xs, keep);
    assert xs[j] in kept;
    var jj :| 0 <= jj < |kept| && kept[jj] == xs[j];
    GroupByExact(kept, key);
    assert HasKey(GroupBy(kept, key), key(xs[j]));
  }

  /** The sum of `f` over every member of every group. */
  function GroupedSum<T, K>(gs: seq<Group<K, T>>, f: T -> real): real
  {
    if |gs| == 0 then 0.0 else SumOf(gs[0].members, f) + GroupedSum(gs[1..], f)
  }

  lemma {:induction false} AddToGroupsSum<T, K>(gs: seq<Group<K, T>>, x: T, key: T -> K, f: T -> real)
    ensures GroupedSum(AddToGroups(gs, x, key), f) == GroupedSum(gs, f) + f(x)
  {
    if |gs| == 0 {
      assert SumOf([x], f) == f(x);
    } else if gs[0].key == key(x) {
      SumOfAppend(gs[0].members, [x], f);
      assert AddToGroups(gs, x, key)[1..] == gs[1..];
      assert SumOf([x], f) == f(x);
    } else {
      AddToGroupsSum(gs[1..], x, key, f);
      assert AddToGroups(gs, x, key)[1..] == AddToGroups(gs[1..], x, key);
    }
  }

  /** Grouping partitions the input: summing per group and adding up gives the plain sum. */
  lemma {:induction false} GroupByConservesSum<T, K>(xs: seq<T>, key: T -> K, f: T -> real)
    ensures GroupedSum(GroupBy(xs, key), f) == SumOf(xs, f)
  {
    if |xs| > 0 {
      var n := |xs| - 1;
      GroupByConservesSum(xs[..n], key, f);
      AddToGroupsSum(GroupBy(xs[..n], key), xs[n], key, f);
      SumOfAppend(xs[..n], [xs[n]], f);
      assert xs == xs[..n] + [xs[n]];
      assert SumOf([xs[n]], f) == f(xs[n]);
    }
  }
}
