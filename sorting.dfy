/** A stable insertion sort over an arbitrary "comes no later than" relation.
    It stands for JavaScript's `Array.prototype.sort` and Java's `List.sort`,
    both of which are required to be stable; one definition serves all three
    comparators of the system. What is proved of it is the order and the
    permutation; stability itself is not stated. */
module Sorting {

  /** `leq` orders every pair of elements of `s` one way or the other. */
  ghost predicate TotalOn<T>(s: seq<T>, leq: (T, T) -> bool) {
    forall x, y :: x in s && y in s ==> leq(x, y) || leq(y, x)
  }

  /** `leq` is transitive on the elements of `s`. */
  ghost predicate TransitiveOn<T>(s: seq<T>, leq: (T, T) -> bool) {
    forall x, y, z :: x in s && y in s && z in s && leq(x, y) && leq(y, z) ==> leq(x, z)
  }

  /** Every element comes no later than each element after it. */
  predicate SortedBy<T>(s: seq<T>, leq: (T, T) -> bool) {
    forall i, j :: 0 <= i < j < |s| ==> leq(s[i], s[j])
  }

  /** No element occurs twice. */
  predicate Distinct<T(==)>(s: seq<T>) {
    forall i, j :: 0 <= i < j < |s| ==> s[i] != s[j]
  }

  /** Places `x` in front of the first element it may precede. */
  function Insert<T>(x: T, s: seq<T>, leq: (T, T) -> bool): (r: seq<T>)
    ensures |r| == |s| + 1
    ensures multiset(r) == multiset(s) + multiset{x}
  {
    if s == [] || leq(x, s[0]) then [x] + s
    else
      assert s == [s[0]] + s[1..];
      [s[0]] + Insert(x, s[1..], leq)
  }

  /** Sorts `s` by inserting its head into the sorted tail; an element is
      placed before the later elements it ties with, so the sort is stable. */
  function InsertionSort<T>(s: seq<T>, leq: (T, T) -> bool): (r: seq<T>)
    ensures |r| == |s|
  {
    if s == [] then []
    else Insert(s[0], InsertionSort(s[1..], leq), leq)
  }

  /** The sort is a permutation of its input. */
  lemma {:induction false} InsertionSortPermutes<T>(s: seq<T>, leq: (T, T) -> bool)
    ensures multiset(InsertionSort(s, leq)) == multiset(s)
  {
    if s != [] {
      assert s == [s[0]] + s[1..];
      InsertionSortPermutes(s[1..], leq);
    }
  }

  lemma {:induction false} InsertSorted<T>(x: T, s: seq<T>, leq: (T, T) -> bool)
    requires SortedBy(s, leq)
    requires TotalOn([x] + s, leq) && TransitiveOn([x] + s, leq)
    ensures SortedBy(Insert(x, s, leq), leq)
  {
    if s == [] || leq(x, s[0]) {
      forall j | 0 <= j < |s| ensures leq(x, s[j]) {
        if j > 0 {
          assert s[0] in [x] + s && s[j] in [x] + s && x in [x] + s;
        }
      }
    } else {
      assert x in [x] + s && s[0] in [x] + s;
      assert leq(s[0], x);
      var rest := s[1..];
      forall y | y in [x] + rest ensures y in [x] + s {
        if y != x { assert y in s; }
      }
      InsertSorted(x, rest, leq);
      var tail := Insert(x, rest, leq);
      forall j | 0 <= j < |tail| ensures leq(s[0], tail[j]) {
        assert tail[j] in multiset(tail);
        if tail[j] != x {
          assert tail[j] in multiset(rest);
          var k :| 0 <= k < |rest| && rest[k] == tail[j];
          assert s[k + 1] == tail[j];
        }
      }
    }
  }

  lemma {:induction false} InsertionSortSorted<T>(s: seq<T>, leq: (T, T) -> bool)
    requires TotalOn(s, leq) && TransitiveOn(s, leq)
    ensures SortedBy(InsertionSort(s, leq), leq)
  {
    if s != [] {
      var rest := s[1..];
      forall y | y in rest ensures y in s { }
      InsertionSortSorted(rest, leq);
      InsertionSortPermutes(rest, leq);
      var sorted := InsertionSort(rest, leq);
      forall y | y in [s[0]] + sorted ensures y in s {
        if y != s[0] {
          assert y in multiset(sorted);
          assert y in rest;
        }
      }
      InsertSorted(s[0], sorted, leq);
    }
  }

  /** The elements of a sorted sequence are exactly those of its input. */
  lemma SortMembers<T>(s: seq<T>, leq: (T, T) -> bool, x: T)
    ensures x in InsertionSort(s, leq) <==> x in s
  {
    InsertionSortPermutes(s, leq);
    assert x in InsertionSort(s, leq) <==> x in multiset(InsertionSort(s, leq));
  }

  lemma {:induction false} DistinctCounts<T>(s: seq<T>, x: T)
    requires Distinct(s)
    ensures multiset(s)[x] <= 1
  {
    if s != [] {
      assert s == [s[0]] + s[1..];
      DistinctCounts(s[1..], x);
      if x == s[0] {
        assert x !in s[1..] by {
          forall k | 0 <= k < |s[1..]| ensures s[1..][k] != x {
            assert s[1..][k] == s[k + 1];
          }
        }
      }
    }
  }

  /** A permutation of a sequence without duplicates has none either. */
  lemma {:induction false} PermutationKeepsDistinct<T>(s: seq<T>, t: seq<T>)
    requires Distinct(s) && multiset(s) == multiset(t)
    ensures Distinct(t)
  {
    forall i, j | 0 <= i < j < |t| ensures t[i] != t[j] {
      if t[i] == t[j] {
        assert t == t[..i] + [t[i]] + t[i + 1..j] + [t[j]] + t[j + 1..];
        assert multiset(t)[t[i]] >= 2;
        DistinctCounts(s, t[i]);
      }
    }
  }
}
