/** The directory snapshot as the browser sees it: the JSON form of
    `FileNode`, held in an arena. A `NodeId` is an index into the arena and
    stands for the object reference the JavaScript code compares with `===`;
    the tree itself is never changed after a scan. */
module TreeModel {
  import opened Wrappers
  import opened Sorting

  type NodeId = nat

  /** A file or directory; `children` lists ids, in the order the scanner
      produced them. A JSON `children: null` is the empty list. */
  datatype Node = Node(
    name: string,
    path: string,
    directory: bool,
    size: nat,
    extension: Option<string>,
    children: seq<NodeId>)

  type Arena = seq<Node>

  /** Every child id names a node and is larger than its parent's id, so the
      child relation is acyclic and recursion along it terminates. */
  predicate WellFormed(a: Arena) {
    forall i, k :: 0 <= i < |a| && 0 <= k < |a[i].children| ==> i < a[i].children[k] < |a|
  }

  /** Each node is the child of at most one node, at one position: the arena
      holds a forest, as a parsed JSON document does. */
  predicate TreeShaped(a: Arena) {
    forall i, k, j, l ::
      0 <= i < |a| && 0 <= j < |a| && 0 <= k < |a[i].children| && 0 <= l < |a[j].children|
      && a[i].children[k] == a[j].children[l]
      ==> i == j && k == l
  }

  /** The scanner's aggregation: a node with children is as large as its
      children together. */
  predicate SizesAggregated(a: Arena)
    requires WellFormed(a)
  {
    forall i :: 0 <= i < |a| && |a[i].children| > 0 ==> a[i].size == SumSizes(a, a[i].children)
  }

  /** Files carry no children (both Java models give files an empty list). */
  predicate FilesAreLeaves(a: Arena) {
    forall i :: 0 <= i < |a| && !a[i].directory ==> a[i].children == []
  }

  /** A directory with at least one child: the nodes the list view can
      expand and the treemap can zoom into. */
  predicate Expandable(a: Arena, n: NodeId)
    requires n < |a|
  {
    a[n].directory && |a[n].children| > 0
  }

  /** A node's size, 0 for an id outside the arena. */
  function SizeOf(a: Arena, n: NodeId): nat {
    if n < |a| then a[n].size else 0
  }

  predicate Ids(a: Arena, s: seq<NodeId>) {
    forall i :: 0 <= i < |s| ==> s[i] < |a|
  }

  function SumSizes(a: Arena, s: seq<NodeId>): nat
    requires Ids(a, s)
  {
    if s == [] then 0 else a[s[0]].size + SumSizes(a, s[1..])
  }

  // ---------------------------------------------------------------------------
  // Reachability
  // ---------------------------------------------------------------------------

  /** `n` lies in the subtree of `r` (`r` itself included). */
  predicate Reaches(a: Arena, r: NodeId, n: NodeId)
    requires WellFormed(a) && r < |a|
    decreases |a| - r
  {
    r == n || exists k :: 0 <= k < |a[r].children| && Reaches(a, a[r].children[k], n)
  }

  /** `n` lies in the subtree of `r` and is not `r`. */
  predicate ProperDescendant(a: Arena, r: NodeId, n: NodeId)
    requires WellFormed(a) && r < |a|
  {
    exists k :: 0 <= k < |a[r].children| && Reaches(a, a[r].children[k], n)
  }

  lemma {:induction false} ReachesOrdered(a: Arena, r: NodeId, n: NodeId)
    requires WellFormed(a) && r < |a| && Reaches(a, r, n)
    ensures r <= n < |a|
    decreases |a| - r
  {
    if r != n {
      var k :| 0 <= k < |a[r].children| && Reaches(a, a[r].children[k], n);
      ReachesOrdered(a, a[r].children[k], n);
    }
  }

  lemma ReachesChild(a: Arena, r: NodeId, k: nat)
    requires WellFormed(a) && r < |a| && k < |a[r].children|
    ensures Reaches(a, r, a[r].children[k])
  {
    assert Reaches(a, a[r].children[k], a[r].children[k]);
  }

  lemma {:induction false} ReachesTransitive(a: Arena, x: NodeId, y: NodeId, z: NodeId)
    requires WellFormed(a) && x < |a| && y < |a|
    requires Reaches(a, x, y) && Reaches(a, y, z)
    ensures Reaches(a, x, z)
    decreases |a| - x
  {
    if x != y {
      var k :| 0 <= k < |a[x].children| && Reaches(a, a[x].children[k], y);
      ReachesTransitive(a, a[x].children[k], y, z);
    }
  }

  /** In a forest, a path from `y` into the child `c` of `x` passes `x`. */
  lemma {:induction false} ReachesThroughParent(a: Arena, y: NodeId, x: NodeId, k: nat)
    requires WellFormed(a) && TreeShaped(a) && y < |a| && x < |a| && k < |a[x].children|
    requires Reaches(a, y, a[x].children[k]) && y != a[x].children[k]
    ensures Reaches(a, y, x)
    decreases |a| - y
  {
    var c := a[x].children[k];
    var j :| 0 <= j < |a[y].children| && Reaches(a, a[y].children[j], c);
    var d := a[y].children[j];
    if d == c {
      assert a[y].children[j] == a[x].children[k];
    } else {
      ReachesThroughParent(a, d, x, k);
      ReachesChild(a, y, j);
      ReachesTransitive(a, y, d, x);
    }
  }

  /** In a forest, two nodes with a common descendant are on one line. */
  lemma {:induction false} ReachesLinear(a: Arena, x: NodeId, y: NodeId, m: NodeId)
    requires WellFormed(a) && TreeShaped(a) && x < |a| && y < |a|
    requires Reaches(a, x, m) && Reaches(a, y, m)
    ensures Reaches(a, x, y) || Reaches(a, y, x)
    decreases (|a| - x) + (|a| - y)
  {
    if x != m && y != m {
      var k :| 0 <= k < |a[x].children| && Reaches(a, a[x].children[k], m);
      var cx := a[x].children[k];
      ReachesLinear(a, cx, y, m);
      ReachesChild(a, x, k);
      if Reaches(a, cx, y) {
        ReachesTransitive(a, x, cx, y);
      } else if y != cx {
        ReachesThroughParent(a, y, x, k);
      }
    }
  }

  /** The subtrees of two different children of one node do not meet. */
  lemma SiblingSubtreesDisjoint(a: Arena, r: NodeId, k: nat, l: nat, m: NodeId)
    requires WellFormed(a) && TreeShaped(a) && r < |a|
    requires k < |a[r].children| && l < |a[r].children| && k != l
    requires Reaches(a, a[r].children[k], m)
    ensures !Reaches(a, a[r].children[l], m)
  {
    var ck, cl := a[r].children[k], a[r].children[l];
    if Reaches(a, cl, m) {
      ReachesLinear(a, ck, cl, m);
      if Reaches(a, ck, cl) {
        ReachesThroughParent(a, ck, r, l);
        ReachesOrdered(a, ck, r);
      } else {
        ReachesThroughParent(a, cl, r, k);
        ReachesOrdered(a, cl, r);
      }
    }
  }

  /** No node is a proper descendant of itself. */
  lemma NotProperDescendantOfSelf(a: Arena, r: NodeId)
    requires WellFormed(a) && r < |a|
    ensures !ProperDescendant(a, r, r)
  {
    if ProperDescendant(a, r, r) {
      var k :| 0 <= k < |a[r].children| && Reaches(a, a[r].children[k], r);
      ReachesOrdered(a, a[r].children[k], r);
    }
  }

  // ---------------------------------------------------------------------------
  // Pre-order listing: the reference order of every recursive search
  // ---------------------------------------------------------------------------

  /** The nodes of the subtree of `r`, parent before children, children in
      their stored order. */
  function Preorder(a: Arena, r: NodeId): seq<NodeId>
    requires WellFormed(a) && r < |a|
    decreases |a| - r, 1
  {
    [r] + PreorderFrom(a, r, 0)
  }

  /** The pre-order listings of the children of `r` from position `k` on. */
  function PreorderFrom(a: Arena, r: NodeId, k: nat): seq<NodeId>
    requires WellFormed(a) && r < |a| && k <= |a[r].children|
    decreases |a| - r, 0, |a[r].children| - k
  {
    if k == |a[r].children| then []
    else Preorder(a, a[r].children[k]) + PreorderFrom(a, r, k + 1)
  }

  lemma {:induction false} PreorderMembers(a: Arena, r: NodeId, m: NodeId)
    requires WellFormed(a) && r < |a|
    ensures m in Preorder(a, r) <==> Reaches(a, r, m)
    decreases |a| - r, 1
  {
    PreorderFromMembers(a, r, 0, m);
  }

  lemma {:induction false} PreorderFromMembers(a: Arena, r: NodeId, k: nat, m: NodeId)
    requires WellFormed(a) && r < |a| && k <= |a[r].children|
    ensures m in PreorderFrom(a, r, k) <==>
            exists j :: k <= j < |a[r].children| && Reaches(a, a[r].children[j], m)
    decreases |a| - r, 0, |a[r].children| - k
  {
    if k < |a[r].children| {
      var c := a[r].children[k];
      PreorderMembers(a, c, m);
      PreorderFromMembers(a, r, k + 1, m);
      assert PreorderFrom(a, r, k) == Preorder(a, c) + PreorderFrom(a, r, k + 1);
      if m in PreorderFrom(a, r, k) && !(m in Preorder(a, c)) {
        var j :| k + 1 <= j < |a[r].children| && Reaches(a, a[r].children[j], m);
        assert k <= j;
      }
      if exists j :: k <= j < |a[r].children| && Reaches(a, a[r].children[j], m) {
        var j :| k <= j < |a[r].children| && Reaches(a, a[r].children[j], m);
        if j > k {
          assert m in PreorderFrom(a, r, k + 1);
        }
      }
    }
  }

  /** The first element of `s` that satisfies `p`. */
  function FirstSatisfying(s: seq<NodeId>, p: NodeId -> bool): (r: Option<NodeId>)
    ensures r.Some? ==> r.value in s && p(r.value)
    ensures r.None? <==> forall x :: x in s ==> !p(x)
  {
    if s == [] then None
    else if p(s[0]) then Some(s[0])
    else
      var r := FirstSatisfying(s[1..], p);
      assert forall x :: x in s ==> x == s[0] || x in s[1..];
      r
  }

  lemma {:induction false} FirstSatisfyingAppend(xs: seq<NodeId>, ys: seq<NodeId>, p: NodeId -> bool)
    ensures FirstSatisfying(xs + ys, p) ==
            if FirstSatisfying(xs, p).Some? then FirstSatisfying(xs, p) else FirstSatisfying(ys, p)
  {
    if xs != [] {
      assert (xs + ys)[1..] == xs[1..] + ys;
      FirstSatisfyingAppend(xs[1..], ys, p);
    } else {
      assert xs + ys == ys;
    }
  }

  /** The shape shared by `findNodeInTree` (treemap.js) and `findNodeByPath`
      (filetree.js): test the node, then search the children in order and
      return the first hit. */
  function PreorderFind(a: Arena, r: NodeId, p: NodeId -> bool): Option<NodeId>
    requires WellFormed(a) && r < |a|
    decreases |a| - r, 1
  {
    if p(r) then Some(r) else PreorderFindFrom(a, r, 0, p)
  }

  function PreorderFindFrom(a: Arena, r: NodeId, k: nat, p: NodeId -> bool): Option<NodeId>
    requires WellFormed(a) && r < |a| && k <= |a[r].children|
    decreases |a| - r, 0, |a[r].children| - k
  {
    if k == |a[r].children| then None
    else
      var found := PreorderFind(a, a[r].children[k], p);
      if found.Some? then found else PreorderFindFrom(a, r, k + 1, p)
  }

  /** The recursive search returns the first pre-order node that matches. */
  lemma {:induction false} PreorderFindIsFirst(a: Arena, r: NodeId, p: NodeId -> bool)
    requires WellFormed(a) && r < |a|
    ensures PreorderFind(a, r, p) == FirstSatisfying(Preorder(a, r), p)
    decreases |a| - r, 1
  {
    PreorderFindFromIsFirst(a, r, 0, p);
    FirstSatisfyingAppend([r], PreorderFrom(a, r, 0), p);
  }

  lemma {:induction false} PreorderFindFromIsFirst(a: Arena, r: NodeId, k: nat, p: NodeId -> bool)
    requires WellFormed(a) && r < |a| && k <= |a[r].children|
    ensures PreorderFindFrom(a, r, k, p) == FirstSatisfying(PreorderFrom(a, r, k), p)
    decreases |a| - r, 0, |a[r].children| - k
  {
    if k < |a[r].children| {
      PreorderFindIsFirst(a, a[r].children[k], p);
      PreorderFindFromIsFirst(a, r, k + 1, p);
      FirstSatisfyingAppend(Preorder(a, a[r].children[k]), PreorderFrom(a, r, k + 1), p);
    }
  }

  /** What the search promises its callers: a hit is a matching node of the
      subtree, and there is no hit exactly when no node of the subtree
      matches. */
  lemma PreorderFindCorrect(a: Arena, r: NodeId, p: NodeId -> bool)
    requires WellFormed(a) && r < |a|
    ensures PreorderFind(a, r, p).Some? ==>
              Reaches(a, r, PreorderFind(a, r, p).value) && p(PreorderFind(a, r, p).value)
    ensures PreorderFind(a, r, p).None? <==> forall m :: Reaches(a, r, m) ==> !p(m)
  {
    PreorderFindIsFirst(a, r, p);
    var found := PreorderFind(a, r, p);
    if found.Some? {
      PreorderMembers(a, r, found.value);
    }
    forall m | Reaches(a, r, m) ensures m in Preorder(a, r) {
      PreorderMembers(a, r, m);
    }
  }

  // ---------------------------------------------------------------------------
  // Parent search: findParent / findParentInFullTree (treemap.js) and
  // findParentNode (filetree.js) are the same loop
  // ---------------------------------------------------------------------------

  /** The first node of the subtree of `r`, in pre-order of the search, that
      holds `n` among its children. */
  function FindParent(a: Arena, r: NodeId, n: NodeId): (p: Option<NodeId>)
    requires WellFormed(a) && r < |a|
    ensures p.Some? ==> p.value < |a|
    decreases |a| - r, 1
  {
    FindParentFrom(a, r, 0, n)
  }

  function FindParentFrom(a: Arena, r: NodeId, k: nat, n: NodeId): (p: Option<NodeId>)
    requires WellFormed(a) && r < |a| && k <= |a[r].children|
    ensures p.Some? ==> p.value < |a|
    decreases |a| - r, 0, |a[r].children| - k
  {
    if k == |a[r].children| then None
    else
      var child := a[r].children[k];
      if child == n then Some(r)
      else
        var found := FindParent(a, child, n);
        if found.Some? then found else FindParentFrom(a, r, k + 1, n)
  }

  /** A parent is found exactly when `n` is a proper descendant of `r`, and
      what is found lies in the subtree and holds `n` as a child. */
  lemma {:induction false} FindParentCorrect(a: Arena, r: NodeId, n: NodeId)
    requires WellFormed(a) && r < |a|
    ensures FindParent(a, r, n).Some? <==> ProperDescendant(a, r, n)
    ensures FindParent(a, r, n).Some? ==>
              Reaches(a, r, FindParent(a, r, n).value) && n in a[FindParent(a, r, n).value].children
    decreases |a| - r, 1
  {
    FindParentFromCorrect(a, r, 0, n);
  }

  lemma {:induction false} FindParentFromCorrect(a: Arena, r: NodeId, k: nat, n: NodeId)
    requires WellFormed(a) && r < |a| && k <= |a[r].children|
    ensures FindParentFrom(a, r, k, n).Some? <==>
              exists j :: k <= j < |a[r].children| && Reaches(a, a[r].children[j], n)
    ensures FindParentFrom(a, r, k, n).Some? ==>
              Reaches(a, r, FindParentFrom(a, r, k, n).value) &&
              n in a[FindParentFrom(a, r, k, n).value].children
    decreases |a| - r, 0, |a[r].children| - k
  {
    if k < |a[r].children| {
      var c := a[r].children[k];
      if c == n {
        assert Reaches(a, c, n);
      } else {
        FindParentCorrect(a, c, n);
        FindParentFromCorrect(a, r, k + 1, n);
        var found := FindParent(a, c, n);
        if found.Some? {
          ReachesChild(a, r, k);
          ReachesTransitive(a, r, c, found.value);
        }
      }
    }
  }

  /** A node is never its own parent within its own subtree: the treemap's
      sibling and parent moves do nothing at the zoom root. */
  lemma FindParentOfRootIsNone(a: Arena, r: NodeId)
    requires WellFormed(a) && r < |a|
    ensures FindParent(a, r, r) == None
  {
    FindParentCorrect(a, r, r);
    NotProperDescendantOfSelf(a, r);
  }

  /** In a forest the parent found is the one node that lists `n` as a
      child, wherever the search starts above it. */
  lemma FindParentUnique(a: Arena, r: NodeId, p: NodeId, k: nat)
    requires WellFormed(a) && TreeShaped(a) && r < |a| && p < |a| && k < |a[p].children|
    requires Reaches(a, r, p)
    ensures FindParent(a, r, a[p].children[k]) == Some(p)
  {
    var n := a[p].children[k];
    FindParentCorrect(a, r, n);
    ReachesChild(a, p, k);
    if r == p {
      assert Reaches(a, a[r].children[k], n);
    } else {
      var j :| 0 <= j < |a[r].children| && Reaches(a, a[r].children[j], p);
      ReachesTransitive(a, a[r].children[j], p, n);
    }
    var q := FindParent(a, r, n).value;
    var l :| 0 <= l < |a[q].children| && a[q].children[l] == n;
  }

  // ---------------------------------------------------------------------------
  // Root-to-node paths: findPathToNode (filetree.js)
  // ---------------------------------------------------------------------------

  /** Each element after the first is a child of the one before it. */
  predicate ChildPath(a: Arena, p: seq<NodeId>) {
    && |p| >= 1
    && (forall i :: 0 <= i < |p| ==> p[i] < |a|)
    && (forall i :: 0 <= i < |p| - 1 ==> p[i + 1] in a[p[i]].children)
  }

  /** The list of nodes from `r` down to `t`, found by trying the children in
      order; none when `t` is not in the subtree. */
  function FindPathToNode(a: Arena, r: NodeId, t: NodeId): Option<seq<NodeId>>
    requires WellFormed(a) && r < |a|
    decreases |a| - r, 1
  {
    if r == t then Some([r])
    else
      match FindPathFrom(a, r, 0, t)
      case Some(rest) => Some([r] + rest)
      case None => None
  }

  function FindPathFrom(a: Arena, r: NodeId, k: nat, t: NodeId): Option<seq<NodeId>>
    requires WellFormed(a) && r < |a| && k <= |a[r].children|
    decreases |a| - r, 0, |a[r].children| - k
  {
    if k == |a[r].children| then None
    else
      var found := FindPathToNode(a, a[r].children[k], t);
      if found.Some? then found else FindPathFrom(a, r, k + 1, t)
  }

  /** A path is found exactly when `t` is in the subtree of `r`; it starts at
      `r`, ends at `t` and steps from parent to child. */
  lemma {:induction false} FindPathToNodeCorrect(a: Arena, r: NodeId, t: NodeId)
    requires WellFormed(a) && r < |a|
    ensures FindPathToNode(a, r, t).Some? <==> Reaches(a, r, t)
    ensures FindPathToNode(a, r, t).Some? ==>
              var p := FindPathToNode(a, r, t).value;
              ChildPath(a, p) && p[0] == r && p[|p| - 1] == t
    decreases |a| - r, 1
  {
    if r != t {
      FindPathFromCorrect(a, r, 0, t);
      var rest := FindPathFrom(a, r, 0, t);
      if rest.Some? {
        var p := [r] + rest.value;
        var j :| 0 <= j < |a[r].children| && rest.value[0] == a[r].children[j];
        assert p[1] in a[p[0]].children;
        forall i | 0 <= i < |p| - 1 ensures p[i + 1] in a[p[i]].children {
          if i > 0 { assert p[i] == rest.value[i - 1] && p[i + 1] == rest.value[i]; }
        }
      }
    }
  }

  lemma {:induction false} FindPathFromCorrect(a: Arena, r: NodeId, k: nat, t: NodeId)
    requires WellFormed(a) && r < |a| && k <= |a[r].children|
    ensures FindPathFrom(a, r, k, t).Some? <==>
              exists j :: k <= j < |a[r].children| && Reaches(a, a[r].children[j], t)
    ensures FindPathFrom(a, r, k, t).Some? ==>
              var p := FindPathFrom(a, r, k, t).value;
              ChildPath(a, p) && p[|p| - 1] == t &&
              exists j :: k <= j < |a[r].children| && p[0] == a[r].children[j]
    decreases |a| - r, 0, |a[r].children| - k
  {
    if k < |a[r].children| {
      FindPathToNodeCorrect(a, a[r].children[k], t);
      FindPathFromCorrect(a, r, k + 1, t);
    }
  }

  // ---------------------------------------------------------------------------
  // Sizes
  // ---------------------------------------------------------------------------

  lemma {:induction false} SumSizesAppend(a: Arena, s: seq<NodeId>, t: seq<NodeId>)
    requires Ids(a, s) && Ids(a, t)
    ensures SumSizes(a, s + t) == SumSizes(a, s) + SumSizes(a, t)
  {
    if s != [] {
      assert (s + t)[1..] == s[1..] + t;
      SumSizesAppend(a, s[1..], t);
    } else {
      assert s + t == t;
    }
  }

  lemma PermutationIds(a: Arena, s: seq<NodeId>, t: seq<NodeId>)
    requires Ids(a, s) && multiset(s) == multiset(t)
    ensures Ids(a, t)
  {
    forall i | 0 <= i < |t| ensures t[i] < |a| {
      assert t[i] in multiset(s);
      var j :| 0 <= j < |s| && s[j] == t[i];
    }
  }

  lemma RemoveAt(t: seq<NodeId>, j: nat)
    requires j < |t|
    ensures multiset(t[..j] + t[j + 1..]) == multiset(t) - multiset{t[j]}
  {
    assert t == t[..j] + [t[j]] + t[j + 1..];
  }

  lemma SumSizesRemove(a: Arena, t: seq<NodeId>, j: nat)
    requires Ids(a, t) && j < |t|
    ensures Ids(a, t[..j] + t[j + 1..])
    ensures SumSizes(a, t) == a[t[j]].size + SumSizes(a, t[..j] + t[j + 1..])
  {
    assert t == t[..j] + ([t[j]] + t[j + 1..]);
    SumSizesAppend(a, t[..j], [t[j]] + t[j + 1..]);
    SumSizesAppend(a, [t[j]], t[j + 1..]);
    SumSizesAppend(a, t[..j], t[j + 1..]);
  }

  /** Reordering the children does not change what they add up to. */
  lemma {:induction false} SumSizesPermutation(a: Arena, s: seq<NodeId>, t: seq<NodeId>)
    requires Ids(a, s) && multiset(s) == multiset(t)
    ensures Ids(a, t) && SumSizes(a, s) == SumSizes(a, t)
    decreases |s|
  {
    PermutationIds(a, s, t);
    if s != [] {
      assert s[0] in multiset(t);
      var j :| 0 <= j < |t| && t[j] == s[0];
      var rest := t[..j] + t[j + 1..];
      RemoveAt(t, j);
      assert s == [s[0]] + s[1..];
      assert multiset(s[1..]) == multiset(s) - multiset{s[0]};
      SumSizesRemove(a, t, j);
      SumSizesPermutation(a, s[1..], rest);
    }
  }

  lemma {:induction false} MemberNoLargerThanSum(a: Arena, s: seq<NodeId>, i: nat)
    requires Ids(a, s) && i < |s|
    ensures a[s[i]].size <= SumSizes(a, s)
  {
    if i > 0 {
      MemberNoLargerThanSum(a, s[1..], i - 1);
    }
  }

  /** Under the scanner's aggregation a child is never larger than its
      parent. */
  lemma ChildNoLargerThanParent(a: Arena, p: NodeId, k: nat)
    requires WellFormed(a) && SizesAggregated(a) && p < |a| && k < |a[p].children|
    ensures a[a[p].children[k]].size <= a[p].size
  {
    MemberNoLargerThanSum(a, a[p].children, k);
  }

  /** Children lists of a forest hold no id twice. */
  lemma ChildrenDistinct(a: Arena, p: NodeId)
    requires WellFormed(a) && TreeShaped(a) && p < |a|
    ensures Distinct(a[p].children)
  {
  }
}
