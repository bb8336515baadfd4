/** The order in which both server-side `FileNode.sortChildren` methods put
    a directory's children: larger first, equal sizes by name ignoring
    case. The sort itself is `List.sort`, a stable sort, modelled by the
    stable insertion sort of `Sorting` on (key, child) pairs taken before
    the sort. */
module ChildOrder {
  import opened Text
  import opened Sorting

  /** What the comparator looks at: the size and the name. */
  datatype SortKey = SortKey(size: int, name: string)

  /** The comparator `Long.compare(b.size, a.size)`, then
      `a.name.compareToIgnoreCase(b.name)`, read as "a may come before b". */
  predicate KeyLeq(a: SortKey, b: SortKey) {
    a.size > b.size || (a.size == b.size && CompareIgnoreCase(a.name, b.name) <= 0)
  }

  lemma KeyLeqTotal(a: SortKey, b: SortKey)
    ensures KeyLeq(a, b) || KeyLeq(b, a)
  {
    CompareIgnoreCaseAntisymmetric(a.name, b.name);
  }

  lemma KeyLeqTransitive(a: SortKey, b: SortKey, c: SortKey)
    requires KeyLeq(a, b) && KeyLeq(b, c)
    ensures KeyLeq(a, c)
  {
    if a.size == b.size && b.size == c.size {
      CompareIgnoreCaseTransitive(a.name, b.name, c.name);
    }
  }

  /** An element to be sorted together with its key. */
  datatype Keyed<T> = Keyed(key: SortKey, item: T)

  function KeyedLeq<T>(p: Keyed<T>, q: Keyed<T>): bool {
    KeyLeq(p.key, q.key)
  }

  /** `List.sort` with the comparator above. */
  function SortKeyed<T>(s: seq<Keyed<T>>): (r: seq<Keyed<T>>)
    ensures |r| == |s|
  {
    InsertionSort(s, KeyedLeq)
  }

  /** The elements themselves, keys dropped. */
  function Items<T>(s: seq<Keyed<T>>): (r: seq<T>)
    ensures |r| == |s|
    ensures forall i :: 0 <= i < |s| ==> r[i] == s[i].item
  {
    seq(|s|, i requires 0 <= i < |s| => s[i].item)
  }

  /** The sorted pairs come in key order and are a permutation of the
      input. */
  lemma SortKeyedCorrect<T>(s: seq<Keyed<T>>)
    ensures SortedBy(SortKeyed(s), KeyedLeq)
    ensures multiset(SortKeyed(s)) == multiset(s)
  {
    forall p, q | p in s && q in s
      ensures KeyedLeq(p, q) || KeyedLeq(q, p)
    {
      KeyLeqTotal(p.key, q.key);
    }
    forall p, q, r | p in s && q in s && r in s && KeyedLeq(p, q) && KeyedLeq(q, r)
      ensures KeyedLeq(p, r)
    {
      KeyLeqTransitive(p.key, q.key, r.key);
    }
    InsertionSortSorted(s, KeyedLeq);
    InsertionSortPermutes(s, KeyedLeq);
  }

  lemma ItemsCons<T>(x: Keyed<T>, s: seq<Keyed<T>>)
    ensures Items([x] + s) == [x.item] + Items(s)
  {
  }

  lemma {:induction false} ItemsOfInsert<T>(x: Keyed<T>, s: seq<Keyed<T>>)
    ensures multiset(Items(Insert(x, s, KeyedLeq))) == multiset(Items(s)) + multiset{x.item}
  {
    if s == [] || KeyedLeq(x, s[0]) {
      ItemsCons(x, s);
    } else {
      assert s == [s[0]] + s[1..];
      ItemsOfInsert(x, s[1..]);
      ItemsCons(s[0], Insert(x, s[1..], KeyedLeq));
      ItemsCons(s[0], s[1..]);
    }
  }

  /** Sorting the pairs permutes the elements. */
  lemma {:induction false} ItemsOfSort<T>(s: seq<Keyed<T>>)
    ensures multiset(Items(SortKeyed(s))) == multiset(Items(s))
  {
    if s != [] {
      assert s == [s[0]] + s[1..];
      ItemsOfSort(s[1..]);
      ItemsOfInsert(s[0], InsertionSort(s[1..], KeyedLeq));
      ItemsCons(s[0], s[1..]);
    }
  }

  /** The sum of the sizes in the keys. */
  function KeySum<T>(s: seq<Keyed<T>>): int {
    if s == [] then 0 else s[0].key.size + KeySum(s[1..])
  }

  lemma {:induction false} KeySumOfInsert<T>(x: Keyed<T>, s: seq<Keyed<T>>)
    ensures KeySum(Insert(x, s, KeyedLeq)) == KeySum(s) + x.key.size
  {
    if s != [] && !KeyedLeq(x, s[0]) {
      KeySumOfInsert(x, s[1..]);
      assert ([s[0]] + Insert(x, s[1..], KeyedLeq))[1..] == Insert(x, s[1..], KeyedLeq);
    } else {
      assert ([x] + s)[1..] == s;
    }
  }

  /** Sorting keeps the total size. */
  lemma {:induction false} KeySumOfSort<T>(s: seq<Keyed<T>>)
    ensures KeySum(SortKeyed(s)) == KeySum(s)
  {
    if s != [] {
      KeySumOfSort(s[1..]);
      KeySumOfInsert(s[0], InsertionSort(s[1..], KeyedLeq));
    }
  }

  /** Every pair of a permutation of consistent pairs is consistent. */
  lemma PermutationMembers<T>(s: seq<Keyed<T>>, t: seq<Keyed<T>>, i: int)
    requires multiset(s) == multiset(t) && 0 <= i < |s|
    ensures exists k :: 0 <= k < |t| && t[k] == s[i]
  {
    assert s[i] in multiset(t);
  }
}
