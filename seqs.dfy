/** Option type shared by the pipeline stages. */
module Wrappers {
  datatype Option<+T> = None | Some(value: T)
}

/**
 * Generic sequence operations the dashboard's pipeline is built from:
 * an order-preserving filter-map (the shape of both the region filter and
 * the recommendation pass) and an insertion sort by a "may come before"
 * relation (the shape of `sorted(...)` and of pandas' descending sorts).
 */
module Seqs {
  import opened Wrappers

  /** No element occurs twice. */
  predicate Distinct<T(==)>(s: seq<T>) {
    forall i, j :: 0 <= i < j < |s| ==> s[i] != s[j]
  }

  /** Keeps, in order, the `u` of every element `x` with `f(x) == Some(u)`. */
  function FilterMap<T, U>(s: seq<T>, f: T -> Option<U>): (r: seq<U>)
    ensures |r| <= |s|
  {
    if s == [] then []
    else match f(s[0])
      case Some(u) => [u] + FilterMap(s[1..], f)
      case None => FilterMap(s[1..], f)
  }

  lemma {:induction false} FilterMapAppend<T, U>(a: seq<T>, b: seq<T>, f: T -> Option<U>)
    ensures FilterMap(a + b, f) == FilterMap(a, f) + FilterMap(b, f)
  {
    if a != [] {
      assert (a + b)[1..] == a[1..] + b;
      FilterMapAppend(a[1..], b, f);
    } else {
      assert a + b == b;
    }
  }

  function Shift(idx: seq<nat>): (r: seq<nat>)
    ensures |r| == |idx| && forall k :: 0 <= k < |r| ==> r[k] == idx[k] + 1
  {
    seq(|idx|, k requires 0 <= k < |idx| => idx[k] + 1)
  }

  /** The positions of `s` at which `f` gives a value, in ascending order. */
  function Hits<T, U>(s: seq<T>, f: T -> Option<U>): (r: seq<nat>)
    ensures forall k :: 0 <= k < |r| ==> r[k] < |s|
  {
    if s == [] then []
    else if f(s[0]).Some? then [0] + Shift(Hits(s[1..], f))
    else Shift(Hits(s[1..], f))
  }

  lemma {:induction false} HitsValues<T, U>(s: seq<T>, f: T -> Option<U>)
    ensures |Hits(s, f)| == |FilterMap(s, f)|
    ensures forall k :: 0 <= k < |Hits(s, f)| ==> f(s[Hits(s, f)[k]]) == Some(FilterMap(s, f)[k])
  {
    if s != [] {
      HitsValues(s[1..], f);
      var rest, fm := Hits(s[1..], f), FilterMap(s[1..], f);
      var shifted := Shift(rest);
      forall k | 0 <= k < |shifted| ensures f(s[shifted[k]]) == Some(fm[k]) {
        assert s[shifted[k]] == s[1..][rest[k]];
      }
      match f(s[0])
      case Some(u) =>
        var h, r := [0] + shifted, [u] + fm;
        assert Hits(s, f) == h && FilterMap(s, f) == r;
        forall k | 0 < k < |h| ensures f(s[h[k]]) == Some(r[k]) {
          assert h[k] == shifted[k - 1] && r[k] == fm[k - 1];
        }
      case None =>
        assert Hits(s, f) == shifted && FilterMap(s, f) == fm;
    }
  }

  lemma {:induction false} HitsAscending<T, U>(s: seq<T>, f: T -> Option<U>)
    ensures forall k, l :: 0 <= k < l < |Hits(s, f)| ==> Hits(s, f)[k] < Hits(s, f)[l]
  {
    if s != [] {
      HitsAscending(s[1..], f);
      var shifted := Shift(Hits(s[1..], f));
      if f(s[0]).Some? {
        var h := [0] + shifted;
        forall k, l | 0 <= k < l < |h| ensures h[k] < h[l] {
          assert h[l] == shifted[l - 1];
          if k > 0 {
            assert h[k] == shifted[k - 1];
          }
        }
      }
    }
  }

  lemma {:induction false} HitsCover<T, U>(s: seq<T>, f: T -> Option<U>)
    ensures forall i :: 0 <= i < |s| ==> (i in Hits(s, f) <==> f(s[i]).Some?)
  {
    if s != [] {
      HitsCover(s[1..], f);
      var rest := Hits(s[1..], f);
      var shifted := Shift(rest);
      forall i | 1 <= i < |s| ensures i in shifted <==> f(s[i]).Some? {
        assert s[i] == s[1..][i - 1];
        if i in shifted {
          var k :| 0 <= k < |shifted| && shifted[k] == i;
        }
        if i - 1 in rest {
          var k :| 0 <= k < |rest| && rest[k] == i - 1;
          assert shifted[k] == i;
        }
      }
      assert 0 !in shifted;
    }
  }

  /**
   * `FilterMap` is an order-preserving selection: its k-th value comes from
   * position `Hits(s, f)[k]`, those positions ascend, and a position is
   * selected exactly when `f` gives a value there.
   */
  lemma FilterMapHits<T, U>(s: seq<T>, f: T -> Option<U>)
    ensures |Hits(s, f)| == |FilterMap(s, f)|
    ensures forall k :: 0 <= k < |Hits(s, f)| ==> f(s[Hits(s, f)[k]]) == Some(FilterMap(s, f)[k])
    ensures forall k, l :: 0 <= k < l < |Hits(s, f)| ==> Hits(s, f)[k] < Hits(s, f)[l]
    ensures forall i :: 0 <= i < |s| ==> (i in Hits(s, f) <==> f(s[i]).Some?)
  {
    HitsValues(s, f);
    HitsAscending(s, f);
    HitsCover(s, f);
  }

  /** `before(a, b)`: `a` may be placed ahead of `b`. */
  predicate SortedBy<T>(s: seq<T>, before: (T, T) -> bool) {
    forall i :: 0 <= i < |s| - 1 ==> before(s[i], s[i + 1])
  }

  /** Every two elements are comparable one way or the other. */
  ghost predicate Connected<T(!new)>(before: (T, T) -> bool) {
    forall a, b :: before(a, b) || before(b, a)
  }

  /** Places `x` ahead of the first element it may precede. */
  function Insert<T(==)>(x: T, s: seq<T>, before: (T, T) -> bool): (r: seq<T>)
    ensures multiset(r) == multiset(s) + multiset{x}
    ensures |r| == |s| + 1
    ensures r[0] == x || (s != [] && r[0] == s[0])
  {
    if s == [] || before(x, s[0]) then
      [x] + s
    else
      assert s == [s[0]] + s[1..];
      [s[0]] + Insert(x, s[1..], before)
  }

  lemma {:induction false} InsertDistinct<T>(x: T, s: seq<T>, before: (T, T) -> bool)
    requires x !in s && Distinct(s)
    ensures Distinct(Insert(x, s, before))
  {
    if s != [] && !before(x, s[0]) {
      var t := Insert(x, s[1..], before);
      assert s[0] !in s[1..] by {
        assert forall k :: 1 <= k < |s| ==> s[k] != s[0];
      }
      assert x !in s[1..] && Distinct(s[1..]) by {
        assert forall k :: 0 <= k < |s| - 1 ==> s[1..][k] == s[k + 1];
      }
      InsertDistinct(x, s[1..], before);
      assert s[0] !in multiset(t);
    }
  }

  lemma {:induction false} InsertSorted<T(!new)>(x: T, s: seq<T>, before: (T, T) -> bool)
    requires Connected(before)
    requires SortedBy(s, before)
    ensures SortedBy(Insert(x, s, before), before)
  {
    if s != [] && !before(x, s[0]) {
      assert before(s[0], x);
      InsertSorted(x, s[1..], before);
    }
  }

  /** Insertion sort: a permutation of `s`, sorted when `before` is connected. */
  function InsertionSort<T(==)>(s: seq<T>, before: (T, T) -> bool): (r: seq<T>)
    ensures multiset(r) == multiset(s)
    ensures |r| == |s|
  {
    if s == [] then []
    else
      assert s == [s[0]] + s[1..];
      Insert(s[0], InsertionSort(s[1..], before), before)
  }

  lemma {:induction false} InsertionSortDistinct<T>(s: seq<T>, before: (T, T) -> bool)
    requires Distinct(s)
    ensures Distinct(InsertionSort(s, before))
  {
    if s != [] {
      var t := InsertionSort(s[1..], before);
      assert s[0] !in s[1..] by {
        assert forall k :: 1 <= k < |s| ==> s[k] != s[0];
      }
      assert Distinct(s[1..]) by {
        assert forall k :: 0 <= k < |s| - 1 ==> s[1..][k] == s[k + 1];
      }
      InsertionSortDistinct(s[1..], before);
      assert s[0] !in multiset(t);
      InsertDistinct(s[0], t, before);
    }
  }

  lemma {:induction false} InsertionSortSorted<T(!new)>(s: seq<T>, before: (T, T) -> bool)
    requires Connected(before)
    ensures SortedBy(InsertionSort(s, before), before)
  {
    if s != [] {
      InsertionSortSorted(s[1..], before);
      InsertSorted(s[0], InsertionSort(s[1..], before), before);
    }
  }
}
