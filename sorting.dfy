/** Stable sorting by a caller-given order, as Python's `sorted` does it.

    `Sort` is an insertion sort: each element is placed before the first
    element it is ordered before or tied with, so elements with equal keys
    keep their input order. */
module Sorting {

  /** `le` relates every pair one way or the other. */
  ghost predicate Total<T(!new)>(le: (T, T) -> bool) {
    forall a, b :: le(a, b) || le(b, a)
  }

  ghost predicate Transitive<T(!new)>(le: (T, T) -> bool) {
    forall a, b, c :: le(a, b) && le(b, c) ==> le(a, c)
  }

  /** Every element is ordered before or tied with every later one. */
  ghost predicate Sorted<T>(s: seq<T>, le: (T, T) -> bool) {
    forall p, q :: 0 <= p < q < |s| ==> le(s[p], s[q])
  }

  function Insert<T(==)>(x: T, ys: seq<T>, le: (T, T) -> bool): (r: seq<T>)
    ensures multiset(r) == multiset(ys) + multiset{x}
    ensures |r| == |ys| + 1
  {
    if ys == [] || le(x, ys[0]) then [x] + ys
    else
      assert ys == [ys[0]] + ys[1..];
      [ys[0]] + Insert(x, ys[1..], le)
  }

  /** The sorted permutation of `s`. */
  function Sort<T(==)>(s: seq<T>, le: (T, T) -> bool): (r: seq<T>)
    ensures multiset(r) == multiset(s)
    ensures |r| == |s|
  {
    if s == [] then []
    else
      assert s == [s[0]] + s[1..];
      Insert(s[0], Sort(s[1..], le), le)
  }

  lemma {:induction false} InsertSorted<T(!new)>(x: T, ys: seq<T>, le: (T, T) -> bool)
    requires Total(le) && Transitive(le) && Sorted(ys, le)
    ensures Sorted(Insert(x, ys, le), le)
  {
    var r := Insert(x, ys, le);
    if ys == [] || le(x, ys[0]) {
      forall p, q | 0 <= p < q < |r| ensures le(r[p], r[q]) {
        if p > 0 {
          assert r[p] == ys[p - 1] && r[q] == ys[q - 1];
        } else {
          assert r[q] == ys[q - 1];
        }
      }
    } else {
      var tail := Insert(x, ys[1..], le);
      assert Sorted(ys[1..], le) by {
        forall p, q | 0 <= p < q < |ys[1..]| ensures le(ys[1..][p], ys[1..][q]) {
          assert ys[1..][p] == ys[p + 1] && ys[1..][q] == ys[q + 1];
        }
      }
      InsertSorted(x, ys[1..], le);
      assert r == [ys[0]] + tail;
      forall q | 0 <= q < |tail| ensures le(ys[0], tail[q]) {
        assert tail[q] in multiset(tail);
        if tail[q] != x {
          assert tail[q] in ys[1..];
          var k :| 1 <= k < |ys| && ys[k] == tail[q];
        }
      }
      forall p, q | 0 <= p < q < |r| ensures le(r[p], r[q]) {
        if p > 0 {
          assert r[p] == tail[p - 1] && r[q] == tail[q - 1];
        } else {
          assert r[q] == tail[q - 1];
        }
      }
    }
  }

  lemma {:induction false} SortSorted<T(!new)>(s: seq<T>, le: (T, T) -> bool)
    requires Total(le) && Transitive(le)
    ensures Sorted(Sort(s, le), le)
  {
    if s != [] {
      SortSorted(s[1..], le);
      InsertSorted(s[0], Sort(s[1..], le), le);
    }
  }

  /** Sorting an already sorted sequence leaves it as it is. */
  lemma {:induction false} SortOfSorted<T(!new)>(s: seq<T>, le: (T, T) -> bool)
    requires Sorted(s, le)
    ensures Sort(s, le) == s
  {
    if s != [] {
      assert Sorted(s[1..], le) by {
        forall p, q | 0 <= p < q < |s[1..]| ensures le(s[1..][p], s[1..][q]) {
          assert s[1..][p] == s[p + 1] && s[1..][q] == s[q + 1];
        }
      }
      SortOfSorted(s[1..], le);
      assert s == [s[0]] + s[1..];
    }
  }
}
