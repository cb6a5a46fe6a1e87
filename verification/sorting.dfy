/** Python's `sorted(..., key=...)` over string keys, as a stable insertion sort. */
module Sorting {
  import opened Seqs

  /** Python's `<=` on `str`: lexicographic comparison of code points, a prefix first. */
  predicate StrLe(a: string, b: string)
    decreases |a|
  {
    |a| == 0 || (|b| > 0 && (a[0] < b[0] || (a[0] == b[0] && StrLe(a[1..], b[1..]))))
  }

  /** Python's `<` on `str`. */
  predicate StrLt(a: string, b: string) {
    StrLe(a, b) && a != b
  }

  /** `StrLe` is a total order: reflexive, total, transitive and antisymmetric. */
  lemma {:induction false} StrLeReflexive(a: string)
    ensures StrLe(a, a)
    decreases |a|
  {
    if |a| > 0 {
      StrLeReflexive(a[1..]);
    }
  }

  lemma {:induction false} StrLeTotal(a: string, b: string)
    ensures StrLe(a, b) || StrLe(b, a)
    decreases |a|
  {
    if |a| > 0 && |b| > 0 && a[0] == b[0] {
      StrLeTotal(a[1..], b[1..]);
    }
  }

  lemma {:induction false} StrLeTransitive(a: string, b: string, c: string)
    requires StrLe(a, b) && StrLe(b, c)
    ensures StrLe(a, c)
    decreases |a|
  {
    if |a| > 0 && a[0] == b[0] && b[0] == c[0] {
      StrLeTransitive(a[1..], b[1..], c[1..]);
    }
  }

  lemma {:induction false} StrLeAntisymmetric(a: string, b: string)
    requires StrLe(a, b) && StrLe(b, a)
    ensures a == b
    decreases |a|
  {
    if |a| > 0 {
      StrLeAntisymmetric(a[1..], b[1..]);
      assert a == [a[0]] + a[1..] && b == [b[0]] + b[1..];
    }
  }

  /** Non-decreasing by `key`, as `sorted` returns it. */
  ghost predicate SortedBy<T>(xs: seq<T>, key: T -> string) {
    forall i, j :: 0 <= i < j < |xs| ==> StrLe(key(xs[i]), key(xs[j]))
  }

  /** Strictly increasing by `key`. */
  ghost predicate StrictlySortedBy<T>(xs: seq<T>, key: T -> string) {
    forall i, j :: 0 <= i < j < |xs| ==> StrLt(key(xs[i]), key(xs[j]))
  }

  /** Places `x` after every row whose key is not greater, so equal keys keep their arrival order. */
  function Insert<T>(x: T, xs: seq<T>, key: T -> string): (r: seq<T>)
    requires SortedBy(xs, key)
    ensures SortedBy(r, key)
    ensures multiset(r) == multiset(xs) + multiset{x}
  {
    if |xs| == 0 then [x]
    else if !StrLe(key(xs[0]), key(x)) then
      StrLeTotal(key(xs[0]), key(x));
      assert forall j :: 0 <= j < |xs| ==> StrLe(key(x), key(xs[j])) by {
        forall j | 0 <= j < |xs| ensures StrLe(key(x), key(xs[j])) {
          if j > 0 { StrLeTransitive(key(x), key(xs[0]), key(xs[j])); }
        }
      }
      [x] + xs
    else
      var tail := Insert(x, xs[1..], key);
      assert forall y :: y in tail ==> StrLe(key(xs[0]), key(y)) by {
        forall y | y in tail ensures StrLe(key(xs[0]), key(y)) {
          assert y in multiset(tail);
          if y != x {
            assert y in xs[1..];
          }
        }
      }
      assert xs == [xs[0]] + xs[1..];
      var r := [xs[0]] + tail;
      assert SortedBy(r, key) by {
        forall i, j | 0 <= i < j < |r| ensures StrLe(key(r[i]), key(r[j])) {
          if i == 0 { assert r[j] in tail; }
        }
      }
      r
  }

  /** `sorted(xs, key=key)`: a permutation of `xs` that is non-decreasing by `key`. */
  function SortBy<T>(xs: seq<T>, key: T -> string): (r: seq<T>)
    ensures SortedBy(r, key)
    ensures multiset(r) == multiset(xs)
    ensures |r| == |xs|
  {
    if |xs| == 0 then []
    else
      var n := |xs| - 1;
      assert xs == xs[..n] + [xs[n]];
      var r := Insert(xs[n], SortBy(xs[..n], key), key);
      assert |r| == |multiset(r)|;
      r
  }

  /** Sorting a sequence whose keys are distinct orders it strictly. */
  lemma SortByDistinctIsStrict<T>(xs: seq<T>, key: T -> string)
    requires DistinctBy(xs, key)
    ensures StrictlySortedBy(SortBy(xs, key), key)
  {
    var r := SortBy(xs, key);
    PermutationKeepsDistinct(xs, r, key);
    forall i, j | 0 <= i < j < |r| ensures StrLt(key(r[i]), key(r[j])) {
    }
  }

  /** Selects the rows whose key is `k`. */
  function HasKey<T>(key: T -> string, k: string): T -> bool {
    (x: T) => key(x) == k
  }

  /** No row of a sorted sequence has a key below the key of its first row. */
  lemma BelowFirstIsAbsent<T(!new)>(xs: seq<T>, key: T -> string, k: string)
    requires SortedBy(xs, key)
    requires |xs| > 0 && !StrLe(key(xs[0]), k)
    ensures Filter(xs, HasKey(key, k)) == []
  {
    forall y | y in xs ensures key(y) != k {
      var j :| 0 <= j < |xs| && xs[j] == y;
      if j == 0 {
        StrLeReflexive(k);
      } else {
        assert StrLe(key(xs[0]), key(xs[j]));
      }
    }
    NoMemberMeansEmpty(Filter(xs, HasKey(key, k)));
  }

  /** Inserting `x` puts it after every row with the same key. */
  lemma {:induction false} InsertIsStable<T(!new)>(x: T, xs: seq<T>, key: T -> string, k: string)
    requires SortedBy(xs, key)
    ensures Filter(Insert(x, xs, key), HasKey(key, k)) == Filter(xs, HasKey(key, k)) + (if key(x) == k then [x] else [])
    decreases |xs|
  {
    var keep := HasKey(key, k);
    if |xs| > 0 {
      if !StrLe(key(xs[0]), key(x)) {
        assert Insert(x, xs, key) == [x] + xs;
        FilterCons(x, xs, keep);
        if key(x) == k {
          BelowFirstIsAbsent(xs, key, k);
        }
      } else {
        var rest := xs[1..];
        assert SortedBy(rest, key);
        var tail := Insert(x, rest, key);
        assert Insert(x, xs, key) == [xs[0]] + tail;
        InsertIsStable(x, rest, key, k);
        var head := if keep(xs[0]) then [xs[0]] else [];
        var added := if key(x) == k then [x] else [];
        FilterCons(xs[0], tail, keep);
        FilterFirst(xs, keep);
        ConcatAssociates(head, Filter(rest, keep), added);
      }
    }
  }

  /**
   * `sorted` is stable: the rows that share a key come out in the order they
   * went in.
   */
  lemma {:induction false} SortByIsStable<T(!new)>(xs: seq<T>, key: T -> string, k: string)
    ensures Filter(SortBy(xs, key), HasKey(key, k)) == Filter(xs, HasKey(key, k))
    decreases |xs|
  {
    if |xs| > 0 {
      var n := |xs| - 1;
      SortByIsStable(xs[..n], key, k);
      InsertIsStable(xs[n], SortBy(xs[..n], key), key, k);
    }
  }
}
