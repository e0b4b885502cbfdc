/**
 * The stable length-descending sort used before every dictionary loop:
 * `keys.sort((a, b) => b.length - a.length)`. `Array.prototype.sort` is stable, so
 * keys of equal length keep their original relative order.
 */
module Sorting {

  /** Non-increasing by `len`. */
  ghost predicate SortedDesc<T>(xs: seq<T>, len: T -> nat) {
    forall a, b :: 0 <= a < b < |xs| ==> len(xs[a]) >= len(xs[b])
  }

  /** Places `x` after every element at least as long, that is, after all its equals. */
  function InsertDesc<T>(x: T, xs: seq<T>, len: T -> nat): seq<T> {
    if xs == [] then [x]
    else if len(xs[0]) >= len(x) then [xs[0]] + InsertDesc(x, xs[1..], len)
    else [x] + xs
  }

  /** Stable sort by non-increasing `len` (insertion sort over the prefix). */
  function SortDesc<T>(xs: seq<T>, len: T -> nat): seq<T> {
    if xs == [] then []
    else InsertDesc(xs[|xs| - 1], SortDesc(xs[..|xs| - 1], len), len)
  }

  /** The elements of length `n`, in order. */
  function WithLen<T>(xs: seq<T>, len: T -> nat, n: nat): seq<T> {
    if xs == [] then []
    else (if len(xs[0]) == n then [xs[0]] else []) + WithLen(xs[1..], len, n)
  }

  lemma {:induction false} WithLenSnoc<T>(xs: seq<T>, y: T, len: T -> nat, n: nat)
    ensures WithLen(xs + [y], len, n) == WithLen(xs, len, n) + (if len(y) == n then [y] else [])
  {
    if xs != [] {
      assert (xs + [y])[1..] == xs[1..] + [y];
      WithLenSnoc(xs[1..], y, len, n);
    } else {
      assert [y][1..] == [];
    }
  }

  lemma {:induction false} WithLenNone<T>(xs: seq<T>, len: T -> nat, n: nat)
    requires forall k :: 0 <= k < |xs| ==> len(xs[k]) < n
    ensures WithLen(xs, len, n) == []
  {
    if xs != [] {
      WithLenNone(xs[1..], len, n);
    }
  }

  lemma {:induction false} InsertDescBound<T>(x: T, xs: seq<T>, len: T -> nat, bound: nat)
    requires len(x) <= bound
    requires forall k :: 0 <= k < |xs| ==> len(xs[k]) <= bound
    ensures |InsertDesc(x, xs, len)| == |xs| + 1
    ensures forall k :: 0 <= k < |InsertDesc(x, xs, len)| ==> len(InsertDesc(x, xs, len)[k]) <= bound
  {
    if xs != [] && len(xs[0]) >= len(x) {
      InsertDescBound(x, xs[1..], len, bound);
    }
  }

  lemma {:induction false} InsertDescSorted<T>(x: T, xs: seq<T>, len: T -> nat)
    requires SortedDesc(xs, len)
    ensures SortedDesc(InsertDesc(x, xs, len), len)
  {
    var r := InsertDesc(x, xs, len);
    if xs != [] && len(xs[0]) >= len(x) {
      var t := InsertDesc(x, xs[1..], len);
      InsertDescSorted(x, xs[1..], len);
      InsertDescBound(x, xs[1..], len, len(xs[0]));
      assert r == [xs[0]] + t;
      forall a, b | 0 <= a < b < |r| ensures len(r[a]) >= len(r[b]) {
        assert r[b] == t[b - 1];
        if a > 0 {
          assert r[a] == t[a - 1];
        }
      }
    } else if xs != [] {
      assert r == [x] + xs;
      forall a, b | 0 <= a < b < |r| ensures len(r[a]) >= len(r[b]) {
        assert r[b] == xs[b - 1];
        if a == 0 {
          assert len(xs[0]) >= len(xs[b - 1]);
        } else {
          assert r[a] == xs[a - 1];
        }
      }
    }
  }

  lemma {:induction false} InsertDescMultiset<T>(x: T, xs: seq<T>, len: T -> nat)
    ensures multiset(InsertDesc(x, xs, len)) == multiset(xs) + multiset{x}
  {
    if xs != [] && len(xs[0]) >= len(x) {
      InsertDescMultiset(x, xs[1..], len);
      assert xs == [xs[0]] + xs[1..];
    }
  }

  lemma {:induction false} InsertDescWithLen<T>(x: T, xs: seq<T>, len: T -> nat, n: nat)
    requires SortedDesc(xs, len)
    ensures WithLen(InsertDesc(x, xs, len), len, n) == WithLen(xs, len, n) + (if len(x) == n then [x] else [])
  {
    var r := InsertDesc(x, xs, len);
    if xs == [] {
      assert r[1..] == [];
    } else if len(xs[0]) >= len(x) {
      InsertDescWithLen(x, xs[1..], len, n);
      assert r[1..] == InsertDesc(x, xs[1..], len);
    } else {
      assert r[1..] == xs;
      if len(x) == n {
        forall k | 0 <= k < |xs| ensures len(xs[k]) < n {
          assert len(xs[0]) >= len(xs[k]) || k == 0;
        }
        WithLenNone(xs, len, n);
      }
    }
  }

  /**
   * The sort's contract: sorted by non-increasing length, a permutation of its input,
   * and stable (for every length, the elements of that length keep their order).
   */
  lemma {:induction false} SortDescFacts<T>(xs: seq<T>, len: T -> nat)
    ensures SortedDesc(SortDesc(xs, len), len)
    ensures multiset(SortDesc(xs, len)) == multiset(xs)
    ensures forall n :: WithLen(SortDesc(xs, len), len, n) == WithLen(xs, len, n)
  {
    if xs != [] {
      var init, last := xs[..|xs| - 1], xs[|xs| - 1];
      SortDescFacts(init, len);
      InsertDescSorted(last, SortDesc(init, len), len);
      InsertDescMultiset(last, SortDesc(init, len), len);
      assert xs == init + [last];
      forall n ensures WithLen(SortDesc(xs, len), len, n) == WithLen(xs, len, n) {
        InsertDescWithLen(last, SortDesc(init, len), len, n);
        WithLenSnoc(init, last, len, n);
      }
    }
  }

  /** The sort never changes the number of elements. */
  lemma SortDescLength<T>(xs: seq<T>, len: T -> nat)
    ensures |SortDesc(xs, len)| == |xs|
  {
    SortDescFacts(xs, len);
    assert |multiset(SortDesc(xs, len))| == |multiset(xs)|;
  }
}
