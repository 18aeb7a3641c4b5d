/**
 * The stable sort of the Java collections (`List.sort`, `Stream.sorted`) and of
 * Python's `list.sort`, over a real-valued sort key: an insertion sort that places
 * each element before the first element whose key is not smaller, so that elements
 * with equal keys keep their input order.
 */
module Sorting {
  ghost predicate SortedBy<T>(s: seq<T>, rank: T -> real)
  {
    forall i, j :: 0 <= i < j < |s| ==> rank(s[i]) <= rank(s[j])
  }

  /** The elements of `s` whose key is `q`, in their order in `s`. */
  function WithRank<T>(s: seq<T>, rank: T -> real, q: real): seq<T>
  {
    if s == [] then [] else (if rank(s[0]) == q then [s[0]] else []) + WithRank(s[1..], rank, q)
  }

  function Insert<T>(x: T, s: seq<T>, rank: T -> real): (r: seq<T>)
    ensures |r| == |s| + 1
  {
    if s == [] || rank(x) <= rank(s[0]) then [x] + s else [s[0]] + Insert(x, s[1..], rank)
  }

  function SortBy<T>(s: seq<T>, rank: T -> real): (r: seq<T>)
    ensures |r| == |s|
  {
    if s == [] then [] else Insert(s[0], SortBy(s[1..], rank), rank)
  }

  lemma {:induction false} InsertPermutes<T>(x: T, s: seq<T>, rank: T -> real)
    ensures multiset(Insert(x, s, rank)) == multiset{x} + multiset(s)
  {
    if s != [] && rank(x) > rank(s[0]) {
      InsertPermutes(x, s[1..], rank);
      assert s == [s[0]] + s[1..];
    }
  }

  lemma {:induction false} InsertKeepsSorted<T>(x: T, s: seq<T>, rank: T -> real)
    requires SortedBy(s, rank)
    ensures SortedBy(Insert(x, s, rank), rank)
  {
    if s != [] && rank(x) > rank(s[0]) {
      var t := Insert(x, s[1..], rank);
      InsertKeepsSorted(x, s[1..], rank);
      InsertPermutes(x, s[1..], rank);
      forall k | 0 <= k < |t| ensures rank(s[0]) <= rank(t[k]) {
        assert t[k] in multiset(t);
        assert t[k] == x || t[k] in multiset(s[1..]);
      }
      var r := Insert(x, s, rank);
      assert r == [s[0]] + t;
    }
  }

  lemma {:induction false} InsertKeepsRankOrder<T>(x: T, s: seq<T>, rank: T -> real, q: real)
    ensures WithRank(Insert(x, s, rank), rank, q) == (if rank(x) == q then [x] else []) + WithRank(s, rank, q)
  {
    var r := Insert(x, s, rank);
    if s == [] || rank(x) <= rank(s[0]) {
      assert r[1..] == s;
    } else {
      var t := Insert(x, s[1..], rank);
      InsertKeepsRankOrder(x, s[1..], rank, q);
      assert r[1..] == t;
      assert WithRank(r, rank, q) == (if rank(s[0]) == q then [s[0]] else []) + WithRank(t, rank, q);
    }
  }

  /**
   * SortBy is a stable sort: its output is ordered by the key, is a permutation of
   * its input, and lists the elements of each key in their input order.
   */
  lemma {:induction false} SortByIsStableSort<T>(s: seq<T>, rank: T -> real)
    ensures SortedBy(SortBy(s, rank), rank)
    ensures multiset(SortBy(s, rank)) == multiset(s)
    ensures forall q :: WithRank(SortBy(s, rank), rank, q) == WithRank(s, rank, q)
  {
    if s != [] {
      var t := SortBy(s[1..], rank);
      SortByIsStableSort(s[1..], rank);
      InsertPermutes(s[0], t, rank);
      InsertKeepsSorted(s[0], t, rank);
      forall q ensures WithRank(SortBy(s, rank), rank, q) == WithRank(s, rank, q) {
        InsertKeepsRankOrder(s[0], t, rank, q);
      }
      assert s == [s[0]] + s[1..];
    }
  }

  predicate NoDup<T(==)>(s: seq<T>)
  {
    forall i, j :: 0 <= i < j < |s| ==> s[i] != s[j]
  }

  lemma {:induction false} NoDupMultiplicity<T>(s: seq<T>)
    ensures NoDup(s) <==> forall x :: multiset(s)[x] <= 1
  {
    if s != [] {
      var t := s[1..];
      assert s == [s[0]] + t;
      NoDupMultiplicity(t);
      if NoDup(s) {
        assert NoDup(t) by {
          forall i, j | 0 <= i < j < |t| ensures t[i] != t[j] { assert t[i] == s[i + 1] && t[j] == s[j + 1]; }
        }
        forall k | 0 <= k < |t| ensures t[k] != s[0] { assert t[k] == s[k + 1]; }
        assert multiset(t)[s[0]] == 0;
      }
      if forall x :: multiset(s)[x] <= 1 {
        assert forall x :: multiset(t)[x] <= multiset(s)[x];
        assert multiset(t)[s[0]] == 0;
        forall i, j | 0 <= i < j < |s| ensures s[i] != s[j] {
          assert s[j] == t[j - 1];
          if i > 0 { assert s[i] == t[i - 1]; } else { assert t[j - 1] in multiset(t); }
        }
      }
    }
  }

  /** A permutation of a sequence without repetitions has none either. */
  lemma NoDupPermutation<T>(a: seq<T>, b: seq<T>)
    requires NoDup(a) && multiset(a) == multiset(b)
    ensures NoDup(b)
  {
    NoDupMultiplicity(a);
    NoDupMultiplicity(b);
  }
}
