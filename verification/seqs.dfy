/** Generic facts about sequences used by the tables of the store. */
module Seqs {

  /** No two positions of `xs` carry the same key: a primary-key constraint on a table. */
  ghost predicate DistinctBy<T, K>(xs: seq<T>, key: T -> K) {
    forall i, j :: 0 <= i < j < |xs| ==> key(xs[i]) != key(xs[j])
  }

  lemma FirstIsMember<T>(xs: seq<T>)
    requires |xs| > 0
    ensures xs[0] in xs
  {
  }

  /** A sequence with no members is empty. */
  lemma NoMemberMeansEmpty<T>(xs: seq<T>)
    requires forall x :: x !in xs
    ensures xs == []
  {
    if |xs| > 0 {
      FirstIsMember(xs);
      assert false;
    }
  }

  /** The rows of `xs` that `keep` accepts, in their original order. */
  function Filter<T(!new)>(xs: seq<T>, keep: T -> bool): (r: seq<T>)
    ensures forall x :: x in r <==> x in xs && keep(x)
    ensures |r| <= |xs|
    ensures (forall x :: x in xs ==> keep(x)) ==> r == xs
  {
    if |xs| == 0 then []
    else
      var n := |xs| - 1;
      assert xs == xs[..n] + [xs[n]];
      Filter(xs[..n], keep) + (if keep(xs[n]) then [xs[n]] else [])
  }

  /** Filtering a table never breaks its primary-key constraint. */
  lemma {:induction false} FilterKeepsDistinct<T(!new), K>(xs: seq<T>, keep: T -> bool, key: T -> K)
    requires DistinctBy(xs, key)
    ensures DistinctBy(Filter(xs, keep), key)
  {
    if |xs| > 0 {
      var n := |xs| - 1;
      var prefix := xs[..n];
      assert DistinctBy(prefix, key) by {
        forall i, j | 0 <= i < j < |prefix| ensures key(prefix[i]) != key(prefix[j]) {
          assert prefix[i] == xs[i] && prefix[j] == xs[j];
        }
      }
      FilterKeepsDistinct(prefix, keep, key);
      var head := Filter(prefix, keep);
      if keep(xs[n]) {
        var r := head + [xs[n]];
        forall i, j | 0 <= i < j < |r| ensures key(r[i]) != key(r[j]) {
          if j == |head| {
            assert r[i] in prefix;
            var k :| 0 <= k < n && prefix[k] == r[i];
            assert xs[k] == r[i];
          } else {
            assert r[i] == head[i] && r[j] == head[j];
          }
        }
      }
    }
  }

  /** Filtering the sequence extended by one row filters the sequence, then keeps or drops the row. */
  lemma FilterSnoc<T(!new)>(xs: seq<T>, x: T, keep: T -> bool)
    ensures Filter(xs + [x], keep) == Filter(xs, keep) + (if keep(x) then [x] else [])
  {
    assert (xs + [x])[..|xs|] == xs;
  }

  /** Filtering a sequence that starts with `x` keeps or drops `x`, then filters the rest. */
  lemma {:induction false} FilterCons<T(!new)>(x: T, xs: seq<T>, keep: T -> bool)
    ensures Filter([x] + xs, keep) == (if keep(x) then [x] else []) + Filter(xs, keep)
    decreases |xs|
  {
    if |xs| > 0 {
      var n := |xs| - 1;
      var ys := [x] + xs;
      assert ys[..|xs|] == [x] + xs[..n];
      assert ys[|xs|] == xs[n];
      FilterCons(x, xs[..n], keep);
      var first := if keep(x) then [x] else [];
      var last := if keep(xs[n]) then [xs[n]] else [];
      assert Filter(ys, keep) == Filter([x] + xs[..n], keep) + last;
      assert Filter(xs, keep) == Filter(xs[..n], keep) + last;
      ConcatAssociates(first, Filter(xs[..n], keep), last);
    }
  }

  lemma ConcatAssociates<T>(a: seq<T>, b: seq<T>, c: seq<T>)
    ensures a + (b + c) == (a + b) + c
  {
  }

  /** Filtering a non-empty sequence keeps or drops its first row, then filters the rest. */
  lemma FilterFirst<T(!new)>(xs: seq<T>, keep: T -> bool)
    requires |xs| > 0
    ensures Filter(xs, keep) == (if keep(xs[0]) then [xs[0]] else []) + Filter(xs[1..], keep)
  {
    var ys := [xs[0]] + xs[1..];
    FilterCons(xs[0], xs[1..], keep);
    assert ys == xs;
  }

  /** A row that occurs at two positions is counted at least twice. */
  lemma MultisetTwoPositions<T>(xs: seq<T>, i: int, j: int)
    requires 0 <= i < j < |xs| && xs[i] == xs[j]
    ensures multiset(xs)[xs[i]] >= 2
  {
    assert xs == xs[..i] + [xs[i]] + xs[i + 1..j] + [xs[j]] + xs[j + 1..];
  }

  /** In a table with distinct keys every row occurs at most once. */
  lemma {:induction false} DistinctCountsOnce<T, K>(xs: seq<T>, key: T -> K, y: T)
    requires DistinctBy(xs, key)
    ensures multiset(xs)[y] <= 1
  {
    if |xs| > 0 {
      var n := |xs| - 1;
      var prefix := xs[..n];
      assert xs == prefix + [xs[n]];
      assert DistinctBy(prefix, key) by {
        forall i, j | 0 <= i < j < |prefix| ensures key(prefix[i]) != key(prefix[j]) {
          assert prefix[i] == xs[i] && prefix[j] == xs[j];
        }
      }
      DistinctCountsOnce(prefix, key, y);
      if xs[n] == y {
        forall k | 0 <= k < n ensures prefix[k] != y {
          assert prefix[k] == xs[k];
        }
      }
    }
  }

  /** A permutation of a table with distinct keys has distinct keys. */
  lemma PermutationKeepsDistinct<T, K>(xs: seq<T>, ys: seq<T>, key: T -> K)
    requires multiset(xs) == multiset(ys)
    requires DistinctBy(xs, key)
    ensures DistinctBy(ys, key)
  {
    forall i, j | 0 <= i < j < |ys| ensures key(ys[i]) != key(ys[j]) {
      if ys[i] == ys[j] {
        MultisetTwoPositions(ys, i, j);
        DistinctCountsOnce(xs, key, ys[i]);
      } else {
        assert ys[i] in multiset(xs) && ys[j] in multiset(xs);
        var a :| 0 <= a < |xs| && xs[a] == ys[i];
        var b :| 0 <= b < |xs| && xs[b] == ys[j];
      }
    }
  }
}
