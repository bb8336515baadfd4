/** `com.voba.model.FileNode`: a file or directory of a scan, built from a
    path. A directory has a (possibly empty) list of children; a file has
    none at all (`null`), which is what `isDirectory` tests. */
module VobaFileNode {
  import opened Wrappers
  import opened Text
  import opened Sorting
  import opened ChildOrder

  /** The part of `java.nio.file.Path` the class uses: its text and its
      last name element, which a root path lacks. */
  datatype FilePath = FilePath(text: string, fileName: Option<string>)

  /** The extension the constructor derives: for a file whose path has a
      name with a dot, the lower-cased text after the last dot; otherwise
      none. */
  function ExtensionFor(path: FilePath, isDirectory: bool): (e: Option<string>)
    ensures e.None? <==> isDirectory || path.fileName.None? || '.' !in path.fileName.value
    ensures e.Some? ==> IsLowerCase(e.value)
    ensures e.Some? ==> exists k :: LastDotAt(path.fileName.value, k) && e.value == Lower(path.fileName.value[k + 1..])
  {
    if !isDirectory && path.fileName.Some? then ExtensionOf(path.fileName.value) else None
  }

  /** The sum of the sizes of `cs`. This and the lemmas after it have
      the same shape as those of `DriveFileNode`, over this module's own
      `FileNode` class: the two Java classes are unrelated types, so each
      needs its own. */
  function SizeSum(cs: seq<FileNode>): int
    reads cs
  {
    if cs == [] then 0 else cs[0].size + SizeSum(cs[1..])
  }

  lemma {:induction false} SizeSumSnoc(cs: seq<FileNode>, c: FileNode)
    ensures SizeSum(cs + [c]) == SizeSum(cs) + c.size
  {
    if cs != [] {
      assert (cs + [c])[1..] == cs[1..] + [c];
      SizeSumSnoc(cs[1..], c);
    }
  }

  lemma {:induction false} SizeSumAppend(xs: seq<FileNode>, ys: seq<FileNode>)
    ensures SizeSum(xs + ys) == SizeSum(xs) + SizeSum(ys)
  {
    if xs == [] {
      assert xs + ys == ys;
    } else {
      assert (xs + ys)[1..] == xs[1..] + ys;
      SizeSumAppend(xs[1..], ys);
    }
  }

  /** Taking the node at `j` out of the list takes its size out of the
      sum. */
  lemma {:induction false} SizeSumRemove(t: seq<FileNode>, j: nat)
    requires j < |t|
    ensures SizeSum(t) == t[j].size + SizeSum(t[..j] + t[j + 1..])
  {
    if j == 0 {
      assert t[..0] + t[1..] == t[1..];
    } else {
      SizeSumRemove(t[1..], j - 1);
      assert t[..j] + t[j + 1..] == [t[0]] + (t[1..][..j - 1] + t[1..][j..]);
      assert (t[..j] + t[j + 1..])[1..] == t[1..][..j - 1] + t[1..][j..];
    }
  }

  /** ... and one copy of it out of the multiset. */
  lemma RemoveAt(t: seq<FileNode>, j: nat)
    requires j < |t|
    ensures multiset(t[..j] + t[j + 1..]) == multiset(t) - multiset{t[j]}
  {
    assert t == t[..j] + [t[j]] + t[j + 1..];
  }

  /** Reordering nodes does not change their summed size. */
  lemma {:induction false} SizeSumPermutation(xs: seq<FileNode>, ys: seq<FileNode>)
    requires multiset(xs) == multiset(ys)
    ensures SizeSum(xs) == SizeSum(ys)
    decreases |xs|
  {
    if xs == [] {
      assert |ys| == |multiset(ys)| == 0;
    } else {
      assert xs[0] in multiset(ys);
      var k :| 0 <= k < |ys| && ys[k] == xs[0];
      SizeSumRemove(ys, k);
      RemoveAt(ys, k);
      assert xs == [xs[0]] + xs[1..];
      assert multiset(xs[1..]) == multiset(xs) - multiset{xs[0]};
      SizeSumPermutation(xs[1..], ys[..k] + ys[k + 1..]);
    }
  }

  /** Nodes whose sizes are as they were sum to what they summed to. */
  twostate lemma {:induction false} SizeSumOfUnchangedSizes(xs: seq<FileNode>)
    requires forall c :: c in xs ==> c.size == old(c.size)
    ensures SizeSum(xs) == old(SizeSum(xs))
  {
    if xs != [] {
      SizeSumOfUnchangedSizes(xs[1..]);
    }
  }

  /** Nodes whose children were only reordered, and whose children's sizes
      are as they were, keep their size equal to the children's sum. */
  twostate lemma SumsKept(r: set<FileNode>)
    requires forall o :: o in r ==> o.size == old(o.size) && multiset(o.children) == multiset(old(o.children))
    requires forall o, c :: o in r && c in old(o.children) ==> c.size == old(c.size)
    ensures forall o :: o in r && old(o.SizeIsSum()) ==> o.SizeIsSum()
  {
    forall o | o in r && old(o.SizeIsSum())
      ensures o.SizeIsSum()
    {
      SizeSumOfUnchangedSizes(old(o.children));
      SizeSumPermutation(old(o.children), o.children);
    }
  }

  /** With keys that hold each node's size, the keys' sum is the nodes'. */
  lemma {:induction false} SizeSumOfItems(ks: seq<Keyed<FileNode>>)
    requires forall i :: 0 <= i < |ks| ==> ks[i].key.size == ks[i].item.size
    ensures SizeSum(Items(ks)) == KeySum(ks)
  {
    if ks != [] {
      assert Items(ks)[1..] == Items(ks[1..]);
      SizeSumOfItems(ks[1..]);
    }
  }

  class FileNode {
    const path: FilePath
    /** Whether the node has a child list (`children != null`). */
    const directory: bool
    const extension: Option<string>
    var size: int
    var children: seq<FileNode>
    ghost var repr: set<FileNode>

    /** A tree whose files have no children: every child lies in the
        footprint, is a tree itself that does not reach back here, no child
        occurs twice, and the subtrees of two children share nothing. */
    ghost predicate Valid()
      reads this, repr
      decreases repr
    {
      && this in repr
      && (!directory ==> children == [])
      && Distinct(children)
      && (forall c :: c in children ==> c in repr && c.repr <= repr && this !in c.repr && c.Valid())
      && (forall c, d :: c in children && d in children && c != d ==> c.repr !! d.repr)
    }

    /** `size` is the sum of the children's sizes. */
    ghost predicate SizeIsSum()
      reads this, children
    {
      size == SizeSum(children)
    }

    /** `getName()`: the last name element of the path, or the whole path
        when it has none. */
    function GetName(): (n: string)
      reads this
      ensures path.fileName.Some? ==> n == path.fileName.value
      ensures path.fileName.None? ==> n == path.text
    {
      path.fileName.GetOr(path.text)
    }

    /** `isDirectory()`. */
    function IsDirectory(): (d: bool)
      reads this
      ensures d == directory
    {
      directory
    }

    /** `getChildren()`: a file answers with the empty list. */
    function GetChildren(): (cs: seq<FileNode>)
      reads this
      ensures directory ==> cs == children
      ensures !directory ==> cs == []
    {
      if directory then children else []
    }

    /** What the comparator of `sortChildren` reads. */
    function Key(): SortKey
      reads this
    {
      SortKey(size, GetName())
    }

    /** The children stand in comparator order. */
    ghost predicate ChildrenSorted()
      reads this, children
    {
      forall i, j :: 0 <= i < j < |children| ==> KeyLeq(children[i].Key(), children[j].Key())
    }

    /** The children stand in comparator order, and so do those of every
        directory below. */
    ghost predicate DeepSorted()
      requires Valid()
      reads this, repr
      decreases repr
    {
      && ChildrenSorted()
      && forall j :: 0 <= j < |children| && children[j].directory ==> children[j].DeepSorted()
    }

    /** `new FileNode(path, isDirectory)`. */
    constructor (path: FilePath, isDirectory: bool)
      ensures this.path == path && directory == isDirectory
      ensures extension == ExtensionFor(path, isDirectory)
      ensures size == 0 && children == [] && repr == {this}
      ensures Valid() && SizeIsSum()
    {
      this.path := path;
      directory := isDirectory;
      size := 0;
      children := [];
      extension := if !isDirectory && path.fileName.Some? then ExtensionOf(path.fileName.value) else None;
      repr := {this};
    }

    /** `setSize(size)`. */
    method SetSize(size: int)
      modifies this`size
      ensures this.size == size
    {
      this.size := size;
    }

    /** `addChild(child)`: on a directory, append the child and add its size;
        on a file the missing list makes the call throw and nothing changes.
        A tree stays a tree when the child's subtree is separate from this
        one, and the size stays the sum of the children's sizes unless the
        node becomes its own child. */
    method AddChild(child: FileNode) returns (outcome: Outcome<string>)
      modifies this
      ensures outcome.Fail? <==> !directory
      ensures outcome.Fail? ==> outcome.error == "NullPointerException"
      ensures !directory ==> children == old(children) && size == old(size) && repr == old(repr)
      ensures directory ==> children == old(children) + [child]
      ensures directory ==> size == old(size) + old(child.size)
      ensures directory ==> repr == old(repr) + old(child.repr)
      ensures old(SizeIsSum()) && this !in children ==> SizeIsSum()
      ensures old(Valid()) && old(child.Valid()) && old(repr) !! old(child.repr) ==> Valid()
    {
      if !directory {
        return Fail("NullPointerException");
      }
      ghost var wasValid := Valid() && child.Valid() && repr !! child.repr;
      ghost var wasSum := SizeIsSum();
      ghost var before := children;
      children := children + [child];
      size := size + child.size;
      repr := repr + child.repr;
      if wasSum && this !in children {
        assert SizeSum(before) == old(SizeSum(children));
        SizeSumSnoc(before, child);
      }
      if wasValid {
        assert child in child.repr;
        assert child !in before;
        assert Distinct(children);
      }
      outcome := Pass;
    }

    /** The pairs the sort works on: each child with its key. */
    function KeyedChildren(): (ks: seq<Keyed<FileNode>>)
      reads this, children
      ensures |ks| == |children|
      ensures forall i :: 0 <= i < |ks| ==> ks[i] == Keyed(children[i].Key(), children[i])
    {
      seq(|children|, i requires 0 <= i < |children| reads this, children => Keyed(children[i].Key(), children[i]))
    }

    /** `sortChildren()`: nothing for a file; for a directory, order the
        children by the comparator, then sort every directory child in
        turn. At every node of the footprint the children are only
        reordered and no size changes, so wherever the size was the
        children's sum it still is. */
    method SortChildren()
      requires Valid()
      modifies repr
      decreases repr, 1
      ensures Valid() && repr == old(repr)
      ensures !directory ==> children == old(children)
      ensures forall o :: o in repr ==> o.size == old(o.size)
      ensures multiset(children) == multiset(old(children))
      ensures forall o :: o in repr ==> multiset(o.children) == multiset(old(o.children))
      ensures DeepSorted()
      ensures old(SizeIsSum()) ==> SizeIsSum()
      ensures forall o :: o in repr && old(o.SizeIsSum()) ==> o.SizeIsSum()
    {
      if !directory {
        return;
      }
      ghost var sorted := ReorderChildren();
      SortSubdirectories();
      SortedAfterward(sorted);
      SumsKept(repr);
    }

    /** The loop of `sortChildren`: sort every directory child in turn,
        leaving this node's own list of children as it is. */
    method SortSubdirectories()
      requires Valid()
      modifies repr - {this}
      decreases repr, 0
      ensures Valid() && repr == old(repr) && children == old(children)
      ensures forall o :: o in repr ==> o.size == old(o.size)
      ensures forall o :: o in repr ==> multiset(o.children) == multiset(old(o.children))
      ensures forall j :: 0 <= j < |children| && children[j].directory ==> children[j].DeepSorted()
    {
      var i := 0;
      while i < |children|
        invariant 0 <= i <= |children|
        invariant repr == old(repr) && children == old(children)
        invariant Valid()
        invariant forall o :: o in repr ==> o.size == old(o.size)
        invariant forall o :: o in repr ==> multiset(o.children) == multiset(old(o.children))
        invariant forall j :: 0 <= j < i && children[j].directory ==> children[j].DeepSorted()
      {
        var child := children[i];
        if child.IsDirectory() {
          label Before:
          child.SortChildren();
          ChildSortedInPlace@Before(i);
        }
        i := i + 1;
      }
    }

    /** The first step of `sortChildren`: the children in comparator order.
        The returned pairs are the keys the order was decided on. */
    method ReorderChildren() returns (ghost sorted: seq<Keyed<FileNode>>)
      requires Valid() && directory
      modifies this
      ensures Valid() && repr == old(repr) && size == old(size)
      ensures children == Items(sorted)
      ensures multiset(children) == multiset(old(children))
      ensures SortedBy(sorted, KeyedLeq)
      ensures forall i :: 0 <= i < |sorted| ==> sorted[i].key == sorted[i].item.Key()
      ensures KeySum(sorted) == old(SizeSum(children))
    {
      var keyed := KeyedChildren();
      var ordered := SortKeyed(keyed);
      sorted := ordered;
      ghost var before := children;
      SortOrdersChildren(keyed, sorted);
      children := Items(ordered);
      PermutationKeepsDistinct(before, children);
      assert forall c :: c in children <==> c in before by {
        forall c ensures c in children <==> c in before {
          assert c in children <==> c in multiset(children);
          assert c in before <==> c in multiset(before);
        }
      }
    }

    /** After one child has sorted itself in place, this node is still a
        tree, and the other children and their subtrees are as they were. */
    twostate lemma ChildSortedInPlace(k: nat)
      requires old(Valid()) && unchanged(this) && k < |children|
      requires children[k].Valid() && children[k].repr == old(children[k].repr)
      requires forall o :: o in old(repr) && o !in old(children[k].repr) ==> unchanged(o)
      ensures Valid()
      ensures forall j :: 0 <= j < |children| && j != k && children[j].directory && old(children[j].DeepSorted()) ==>
                children[j].DeepSorted()
    {
      forall d | d in children && d != children[k]
        ensures d.repr == old(d.repr) && d.Valid()
        ensures d.directory && old(d.DeepSorted()) ==> d.DeepSorted()
      {
        assert forall o :: o in old(d.repr) ==> unchanged(o);
      }
      forall j | 0 <= j < |children| && j != k
        ensures children[j] != children[k]
      {
      }
    }

    /** The children are the sorted pairs' elements and every key still
        agrees with its child: the children stand in comparator order and
        their sizes add up to the keys'. */
    lemma SortedAfterward(sorted: seq<Keyed<FileNode>>)
      requires Valid() && children == Items(sorted)
      requires SortedBy(sorted, KeyedLeq)
      requires forall i :: 0 <= i < |sorted| ==> sorted[i].key == sorted[i].item.Key()
      ensures ChildrenSorted()
      ensures SizeSum(children) == KeySum(sorted)
    {
      SizeSumOfItems(sorted);
    }

    /** What sorting the pairs gives: the children in comparator order, as
        a permutation, with the same total size. */
    lemma SortOrdersChildren(keyed: seq<Keyed<FileNode>>, sorted: seq<Keyed<FileNode>>)
      requires keyed == KeyedChildren() && sorted == SortKeyed(keyed)
      ensures multiset(Items(sorted)) == multiset(children)
      ensures SortedBy(sorted, KeyedLeq)
      ensures forall i :: 0 <= i < |sorted| ==> sorted[i].key == sorted[i].item.Key()
      ensures KeySum(sorted) == SizeSum(children)
    {
      SortKeyedCorrect(keyed);
      ItemsOfSort(keyed);
      assert Items(keyed) == children;
      forall i | 0 <= i < |sorted|
        ensures sorted[i].key == sorted[i].item.Key()
      {
        PermutationMembers(sorted, keyed, i);
      }
      KeySumOfSort(keyed);
      SizeSumOfItems(keyed);
    }
  }
}
