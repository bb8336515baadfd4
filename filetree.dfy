/** The file-tree explorer: the list view of the snapshot, with the set of
    expanded directories and the selected node. Every toggle and selection
    re-renders the whole list, so the rendered rows are a function of the
    state (`FileTreeExplorer.RenderedRows`). */
module FileTree {
  import opened Wrappers
  import opened Sorting
  import opened TreeModel

  // ---------------------------------------------------------------------------
  // Order of an expanded directory's children
  // ---------------------------------------------------------------------------

  /** `n` is a directory; false for an id outside the arena. */
  predicate IsDirectory(a: Arena, n: NodeId) {
    n < |a| && a[n].directory
  }

  /** The comparator of `renderNode`, read as "comes no later than":
      directories before files, then the larger before the smaller. */
  function DirectoriesFirst(a: Arena): (NodeId, NodeId) -> bool {
    (x: NodeId, y: NodeId) =>
      if IsDirectory(a, x) != IsDirectory(a, y) then IsDirectory(a, x)
      else SizeOf(a, x) >= SizeOf(a, y)
  }

  lemma DirectoriesFirstIsPreorder(a: Arena, s: seq<NodeId>)
    ensures TotalOn(s, DirectoriesFirst(a)) && TransitiveOn(s, DirectoriesFirst(a))
  {
  }

  /** `[...node.children].sort(...)` in `renderNode`; ties keep their stored
      order, as the sort is stable. */
  function ListOrder(a: Arena, n: NodeId): (r: seq<NodeId>)
    requires WellFormed(a) && n < |a|
    ensures |r| == |a[n].children|
    ensures forall i :: 0 <= i < |r| ==> r[i] in a[n].children && n < r[i] < |a|
  {
    InsertionSortPermutes(a[n].children, DirectoriesFirst(a));
    var r := InsertionSort(a[n].children, DirectoriesFirst(a));
    assert forall i :: 0 <= i < |r| ==> r[i] in multiset(a[n].children);
    r
  }

  /** The list shows each child exactly as often as it is stored. */
  lemma ListOrderPermutes(a: Arena, n: NodeId)
    requires WellFormed(a) && n < |a|
    ensures multiset(ListOrder(a, n)) == multiset(a[n].children)
  {
    InsertionSortPermutes(a[n].children, DirectoriesFirst(a));
  }

  /** Directories come before files, and within each kind larger entries
      come first. */
  lemma ListOrderDirectoriesFirst(a: Arena, n: NodeId)
    requires WellFormed(a) && n < |a|
    ensures var r := ListOrder(a, n);
            forall i, j :: 0 <= i < j < |r| ==>
              && (a[r[j]].directory ==> a[r[i]].directory)
              && (a[r[i]].directory == a[r[j]].directory ==> a[r[i]].size >= a[r[j]].size)
  {
    DirectoriesFirstIsPreorder(a, a[n].children);
    InsertionSortSorted(a[n].children, DirectoriesFirst(a));
    var r := ListOrder(a, n);
    forall i, j | 0 <= i < j < |r|
      ensures a[r[j]].directory ==> a[r[i]].directory
      ensures a[r[i]].directory == a[r[j]].directory ==> a[r[i]].size >= a[r[j]].size
    {
      assert DirectoriesFirst(a)(r[i], r[j]);
    }
  }

  // ---------------------------------------------------------------------------
  // Rendered rows
  // ---------------------------------------------------------------------------

  /** One `tree-node` element: the node and its indentation level. */
  datatype Row = Row(node: NodeId, level: nat)

  /** `renderNode(n, _, level)`: the node's row, then, when it is an expanded
      non-empty directory, the rows of its children in list order. */
  function Rows(a: Arena, n: NodeId, level: nat, expanded: set<NodeId>): (r: seq<Row>)
    requires WellFormed(a) && n < |a|
    ensures |r| >= 1 && r[0] == Row(n, level)
    decreases |a| - n, 1
  {
    [Row(n, level)]
    + if Expandable(a, n) && n in expanded then RowsOf(a, n, ListOrder(a, n), level + 1, expanded) else []
  }

  function RowsOf(a: Arena, n: NodeId, kids: seq<NodeId>, level: nat, expanded: set<NodeId>): seq<Row>
    requires WellFormed(a) && n < |a| && forall i :: 0 <= i < |kids| ==> n < kids[i] < |a|
    decreases |a| - n, 0, |kids|
  {
    if kids == [] then []
    else Rows(a, kids[0], level, expanded) + RowsOf(a, n, kids[1..], level, expanded)
  }

  /** `m` is rendered under `r`: it is `r`, or `r` is an expanded non-empty
      directory and `m` is rendered under one of its children. Equivalently,
      every strict ancestor of `m` below `r` is expanded. */
  ghost predicate Shown(a: Arena, r: NodeId, m: NodeId, expanded: set<NodeId>)
    requires WellFormed(a) && r < |a|
    decreases |a| - r
  {
    r == m || (Expandable(a, r) && r in expanded &&
               exists k :: 0 <= k < |a[r].children| && Shown(a, a[r].children[k], m, expanded))
  }

  predicate HasRow(rows: seq<Row>, m: NodeId) {
    exists i :: 0 <= i < |rows| && rows[i].node == m
  }

  lemma HasRowAppend(xs: seq<Row>, ys: seq<Row>, m: NodeId)
    ensures HasRow(xs + ys, m) <==> HasRow(xs, m) || HasRow(ys, m)
  {
    if HasRow(xs + ys, m) {
      var i :| 0 <= i < |xs + ys| && (xs + ys)[i].node == m;
      if i >= |xs| {
        assert ys[i - |xs|].node == m;
      }
    }
    if HasRow(xs, m) {
      var i :| 0 <= i < |xs| && xs[i].node == m;
      assert (xs + ys)[i].node == m;
    }
    if HasRow(ys, m) {
      var i :| 0 <= i < |ys| && ys[i].node == m;
      assert (xs + ys)[|xs| + i].node == m;
    }
  }

  /** A node has a row exactly when it is shown. */
  lemma {:induction false} RowsAreShown(a: Arena, r: NodeId, level: nat, expanded: set<NodeId>, m: NodeId)
    requires WellFormed(a) && r < |a|
    ensures HasRow(Rows(a, r, level, expanded), m) <==> Shown(a, r, m, expanded)
    decreases |a| - r, 1
  {
    var rows := Rows(a, r, level, expanded);
    assert rows[0].node == r;
    if r != m && Expandable(a, r) && r in expanded {
      var kids := ListOrder(a, r);
      var below := RowsOf(a, r, kids, level + 1, expanded);
      HasRowAppend([Row(r, level)], below, m);
      RowsOfAreShown(a, r, kids, level + 1, expanded, m);
      if exists j :: 0 <= j < |kids| && Shown(a, kids[j], m, expanded) {
        var j :| 0 <= j < |kids| && Shown(a, kids[j], m, expanded);
        var k :| 0 <= k < |a[r].children| && a[r].children[k] == kids[j];
      }
      if exists k :: 0 <= k < |a[r].children| && Shown(a, a[r].children[k], m, expanded) {
        var k :| 0 <= k < |a[r].children| && Shown(a, a[r].children[k], m, expanded);
        SortMembers(a[r].children, DirectoriesFirst(a), a[r].children[k]);
        var j :| 0 <= j < |kids| && kids[j] == a[r].children[k];
      }
    } else if r != m {
      assert rows == [Row(r, level)];
    }
  }

  lemma {:induction false} RowsOfAreShown(a: Arena, n: NodeId, kids: seq<NodeId>, level: nat, expanded: set<NodeId>, m: NodeId)
    requires WellFormed(a) && n < |a| && forall i :: 0 <= i < |kids| ==> n < kids[i] < |a|
    ensures HasRow(RowsOf(a, n, kids, level, expanded), m) <==>
            exists j :: 0 <= j < |kids| && Shown(a, kids[j], m, expanded)
    decreases |a| - n, 0, |kids|
  {
    if kids != [] {
      HasRowAppend(Rows(a, kids[0], level, expanded), RowsOf(a, n, kids[1..], level, expanded), m);
      RowsAreShown(a, kids[0], level, expanded, m);
      RowsOfAreShown(a, n, kids[1..], level, expanded, m);
      if exists j :: 1 <= j < |kids| && Shown(a, kids[j], m, expanded) {
        var j :| 1 <= j < |kids| && Shown(a, kids[j], m, expanded);
        assert kids[1..][j - 1] == kids[j];
      }
      if exists j :: 0 <= j < |kids[1..]| && Shown(a, kids[1..][j], m, expanded) {
        var j :| 0 <= j < |kids[1..]| && Shown(a, kids[1..][j], m, expanded);
        assert kids[1..][j] == kids[j + 1];
      }
    }
  }

  /** Only nodes of the subtree are shown. */
  lemma {:induction false} ShownReaches(a: Arena, r: NodeId, m: NodeId, expanded: set<NodeId>)
    requires WellFormed(a) && r < |a| && Shown(a, r, m, expanded)
    ensures Reaches(a, r, m)
    decreases |a| - r
  {
    if r != m {
      var k :| 0 <= k < |a[r].children| && Shown(a, a[r].children[k], m, expanded);
      ShownReaches(a, a[r].children[k], m, expanded);
    }
  }

  /** Right after `setData(d)` the list is the root and, when it is a
      non-empty directory, its children. */
  lemma ShownAfterSetData(a: Arena, d: NodeId, m: NodeId)
    requires WellFormed(a) && d < |a|
    ensures Shown(a, d, m, {d}) <==> m == d || (Expandable(a, d) && m in a[d].children)
  {
    if m != d && Expandable(a, d) {
      forall k | 0 <= k < |a[d].children|
        ensures Shown(a, a[d].children[k], m, {d}) <==> a[d].children[k] == m
      {
        assert a[d].children[k] != d;
      }
    }
  }

  /** With every non-empty directory of the subtree expanded, the whole
      subtree is shown. */
  lemma {:induction false} AllExpandedShowsSubtree(a: Arena, r: NodeId, m: NodeId, expanded: set<NodeId>)
    requires WellFormed(a) && FilesAreLeaves(a) && r < |a|
    requires forall x: nat :: x < |a| && Reaches(a, r, x) && Expandable(a, x) ==> x in expanded
    ensures Shown(a, r, m, expanded) <==> Reaches(a, r, m)
    decreases |a| - r
  {
    if Shown(a, r, m, expanded) {
      ShownReaches(a, r, m, expanded);
    }
    if r != m && Reaches(a, r, m) {
      var k :| 0 <= k < |a[r].children| && Reaches(a, a[r].children[k], m);
      var c := a[r].children[k];
      forall x: nat | x < |a| && Reaches(a, c, x) && Expandable(a, x) ensures x in expanded {
        ReachesChild(a, r, k);
        ReachesTransitive(a, r, c, x);
      }
      AllExpandedShowsSubtree(a, c, m, expanded);
    }
  }

  // ---------------------------------------------------------------------------
  // Expansion sets
  // ---------------------------------------------------------------------------

  /** `toggleExpand(n)`: flip the membership of `n`. */
  function Toggled(s: set<NodeId>, n: NodeId): (r: set<NodeId>)
    ensures n in r <==> n !in s
    ensures forall m :: m != n ==> (m in r <==> m in s)
  {
    if n in s then s - {n} else s + {n}
  }

  /** Toggling the same node twice restores the set. */
  lemma ToggleTwiceRestores(s: set<NodeId>, n: NodeId)
    ensures Toggled(Toggled(s, n), n) == s
  {
  }

  /** What `expandAllNodes(n)` adds: `n` when it is a non-empty directory,
      and then whatever the calls on its children add. */
  function ExpandableBelow(a: Arena, n: NodeId): set<NodeId>
    requires WellFormed(a) && n < |a|
    decreases |a| - n, 1
  {
    if Expandable(a, n) then {n} + ExpandableKids(a, n, |a[n].children|) else {}
  }

  /** What the calls on the first `k` children add. */
  function ExpandableKids(a: Arena, n: NodeId, k: nat): set<NodeId>
    requires WellFormed(a) && n < |a| && k <= |a[n].children|
    decreases |a| - n, 0, k
  {
    if k == 0 then {} else ExpandableKids(a, n, k - 1) + ExpandableBelow(a, a[n].children[k - 1])
  }

  /** `expandAll` reaches exactly the non-empty directories of the subtree. */
  lemma {:induction false} ExpandableBelowExactly(a: Arena, r: NodeId, m: NodeId)
    requires WellFormed(a) && FilesAreLeaves(a) && r < |a|
    ensures m in ExpandableBelow(a, r) <==> m < |a| && Reaches(a, r, m) && Expandable(a, m)
    decreases |a| - r, 1
  {
    if Expandable(a, r) {
      ExpandableKidsExactly(a, r, |a[r].children|, m);
    } else {
      assert a[r].children == [];
    }
  }

  lemma {:induction false} ExpandableKidsExactly(a: Arena, r: NodeId, k: nat, m: NodeId)
    requires WellFormed(a) && FilesAreLeaves(a) && r < |a| && k <= |a[r].children|
    ensures m in ExpandableKids(a, r, k) <==>
            m < |a| && Expandable(a, m) && exists j :: 0 <= j < k && Reaches(a, a[r].children[j], m)
    decreases |a| - r, 0, k
  {
    if k > 0 {
      ExpandableKidsExactly(a, r, k - 1, m);
      ExpandableBelowExactly(a, a[r].children[k - 1], m);
    }
  }

  /** The non-empty directories on `p`. */
  function ExpandablesOn(a: Arena, p: seq<NodeId>): set<NodeId> {
    set x | x in p && x < |a| && Expandable(a, x)
  }

  /** What `expandToNode(t)` adds under root `r`: the non-empty directories
      on the path `findPathToNode` returns, nothing when there is none. */
  function PathExpansion(a: Arena, r: NodeId, t: NodeId): set<NodeId>
    requires WellFormed(a) && r < |a|
  {
    match FindPathToNode(a, r, t)
    case None => {}
    case Some(p) => ExpandablesOn(a, p)
  }

  /** Along a child path each element lies below the first and above the
      last. */
  lemma {:induction false} ChildPathReaches(a: Arena, p: seq<NodeId>, i: nat)
    requires WellFormed(a) && ChildPath(a, p) && i < |p|
    ensures Reaches(a, p[0], p[i]) && Reaches(a, p[i], p[|p| - 1])
    decreases |p|
  {
    if |p| > 1 {
      var q := p[1..];
      assert ChildPath(a, q) by {
        forall j | 0 <= j < |q| - 1 ensures q[j + 1] in a[q[j]].children {
          assert q[j] == p[j + 1] && q[j + 1] == p[j + 2];
        }
      }
      var k :| 0 <= k < |a[p[0]].children| && a[p[0]].children[k] == p[1];
      ReachesChild(a, p[0], k);
      if i == 0 {
        ChildPathReaches(a, q, |q| - 1);
        ReachesTransitive(a, p[0], p[1], p[|p| - 1]);
      } else {
        ChildPathReaches(a, q, i - 1);
        ReachesTransitive(a, p[0], p[1], p[i]);
      }
    }
  }

  /** `expandToNode` adds exactly non-empty directories on the way from the
      root to the target, and nothing for a target outside the tree. */
  lemma PathExpansionOnThePath(a: Arena, r: NodeId, t: NodeId, m: NodeId)
    requires WellFormed(a) && r < |a|
    ensures !Reaches(a, r, t) ==> PathExpansion(a, r, t) == {}
    ensures m in PathExpansion(a, r, t) ==>
              m < |a| && Expandable(a, m) && Reaches(a, r, m) && Reaches(a, m, t)
  {
    FindPathToNodeCorrect(a, r, t);
    if m in PathExpansion(a, r, t) {
      var p := FindPathToNode(a, r, t).value;
      var i :| 0 <= i < |p| && p[i] == m;
      ChildPathReaches(a, p, i);
    }
  }

  /** A child path whose inner nodes are all expanded shows its last node. */
  lemma {:induction false} ExpandedPathShows(a: Arena, p: seq<NodeId>, expanded: set<NodeId>)
    requires WellFormed(a) && FilesAreLeaves(a) && ChildPath(a, p)
    requires forall i :: 0 <= i < |p| - 1 ==> p[i] in expanded
    ensures Shown(a, p[0], p[|p| - 1], expanded)
    decreases |p|
  {
    if |p| > 1 {
      var q := p[1..];
      assert ChildPath(a, q) by {
        forall j | 0 <= j < |q| - 1 ensures q[j + 1] in a[q[j]].children {
          assert q[j] == p[j + 1] && q[j + 1] == p[j + 2];
        }
      }
      forall i | 0 <= i < |q| - 1 ensures q[i] in expanded {
        assert q[i] == p[i + 1];
      }
      ExpandedPathShows(a, q, expanded);
      var k :| 0 <= k < |a[p[0]].children| && a[p[0]].children[k] == p[1];
      assert Shown(a, a[p[0]].children[k], p[|p| - 1], expanded);
    }
  }

  /** After `expandToNode(t)` the target is shown (and so gets a row). */
  lemma ExpandToNodeReveals(a: Arena, r: NodeId, t: NodeId, expanded: set<NodeId>)
    requires WellFormed(a) && FilesAreLeaves(a) && r < |a| && Reaches(a, r, t)
    ensures Shown(a, r, t, expanded + PathExpansion(a, r, t))
  {
    FindPathToNodeCorrect(a, r, t);
    var p := FindPathToNode(a, r, t).value;
    var e := expanded + PathExpansion(a, r, t);
    forall i | 0 <= i < |p| - 1 ensures p[i] in e {
      assert p[i + 1] in a[p[i]].children;
      assert Expandable(a, p[i]);
    }
    ExpandedPathShows(a, p, e);
  }

  /** `findNodeByPath(root, path)`: the pre-order search for a node whose
      `path` string equals `path`. */
  function FindNodeByPath(a: Arena, r: NodeId, path: string): Option<NodeId>
    requires WellFormed(a) && r < |a|
  {
    PreorderFind(a, r, (m: NodeId) => m < |a| && a[m].path == path)
  }

  /** The search finds the first node in pre-order whose path matches, and
      nothing only when no node of the subtree has that path. */
  lemma FindNodeByPathCorrect(a: Arena, r: NodeId, path: string)
    requires WellFormed(a) && r < |a|
    ensures FindNodeByPath(a, r, path) == FirstSatisfying(Preorder(a, r), (m: NodeId) => m < |a| && a[m].path == path)
    ensures FindNodeByPath(a, r, path).Some? ==>
              var m := FindNodeByPath(a, r, path).value;
              m < |a| && Reaches(a, r, m) && a[m].path == path
    ensures FindNodeByPath(a, r, path).None? <==> forall m: nat :: m < |a| && Reaches(a, r, m) ==> a[m].path != path
  {
    var p := (m: NodeId) => m < |a| && a[m].path == path;
    PreorderFindIsFirst(a, r, p);
    PreorderFindCorrect(a, r, p);
    assert forall m: nat :: p(m) <==> m < |a| && a[m].path == path;
  }

  // ---------------------------------------------------------------------------
  // Size bar
  // ---------------------------------------------------------------------------

  /** A JavaScript number as the size bar sees it: a real, or `NaN`. */
  datatype Percent = Pct(value: real) | NotANumber

  /** `Math.min(100, (size / reference) * 100)`: a zero reference gives
      `Infinity`, clamped to 100, for a positive size and `NaN` for a zero
      one. */
  function SizePercentage(size: nat, reference: nat): (p: Percent)
    ensures p.Pct? ==> 0.0 <= p.value <= 100.0
    ensures p.NotANumber? <==> size == 0 && reference == 0
  {
    if reference == 0 then (if size == 0 then NotANumber else Pct(100.0))
    else
      var q := (size as real / reference as real) * 100.0;
      Pct(if q < 100.0 then q else 100.0)
  }

  /** A part of its reference is not clamped: it is its exact share. */
  lemma SharePercentage(size: nat, reference: nat)
    requires 0 < reference && size <= reference
    ensures SizePercentage(size, reference) == Pct((size as real / reference as real) * 100.0)
  {
    var s, t := size as real, reference as real;
    assert s / t <= 1.0 by {
      assert s / t * t == s;
    }
  }

  /** The size `renderNode` compares a node with: its parent's, or the
      root's own for a node without a parent under the root. */
  function ReferenceSize(a: Arena, data: NodeId, n: NodeId): nat
    requires WellFormed(a) && data < |a|
  {
    match FindParent(a, data, n)
    case Some(p) => a[p].size
    case None => a[data].size
  }

  function RowPercentage(a: Arena, data: NodeId, n: NodeId): Percent
    requires WellFormed(a) && data < |a| && n < |a|
  {
    SizePercentage(a[n].size, ReferenceSize(a, data, n))
  }

  /** The root's bar is full, or `NaN` for an empty root. */
  lemma RootPercentage(a: Arena, data: NodeId)
    requires WellFormed(a) && data < |a|
    ensures RowPercentage(a, data, data) == if a[data].size == 0 then NotANumber else Pct(100.0)
  {
    FindParentOfRootIsNone(a, data);
    if a[data].size > 0 {
      SharePercentage(a[data].size, a[data].size);
    }
  }

  /** With aggregated sizes a node below the root shows its exact share of
      its parent, or `NaN` when the parent is empty. */
  lemma ChildPercentage(a: Arena, data: NodeId, n: NodeId)
    requires WellFormed(a) && TreeShaped(a) && SizesAggregated(a) && data < |a| && n < |a|
    requires ProperDescendant(a, data, n)
    ensures FindParent(a, data, n).Some?
    ensures var p := FindParent(a, data, n).value;
            && n in a[p].children
            && RowPercentage(a, data, n) ==
               if a[p].size == 0 then NotANumber
               else Pct((a[n].size as real / a[p].size as real) * 100.0)
  {
    FindParentCorrect(a, data, n);
    var p := FindParent(a, data, n).value;
    var k :| 0 <= k < |a[p].children| && a[p].children[k] == n;
    ChildNoLargerThanParent(a, p, k);
    if a[p].size > 0 {
      SharePercentage(a[n].size, a[p].size);
    }
  }

  /** `getSizeColor`: five bands; `NaN` fails every comparison and lands in
      the last. */
  function SizeBand(p: Percent): (b: nat)
    ensures b <= 4
    ensures p.NotANumber? ==> b == 4
  {
    if p.NotANumber? then 4
    else if p.value < 25.0 then 0
    else if p.value < 50.0 then 1
    else if p.value < 75.0 then 2
    else if p.value < 90.0 then 3
    else 4
  }

  const SizePalette: seq<string> := ["#28a745", "#7bc043", "#ffc107", "#fd7e14", "#dc3545"]

  function SizeColor(p: Percent): string {
    SizePalette[SizeBand(p)]
  }

  /** A larger share never gets a colour further towards green. */
  lemma SizeBandMonotone(p: Percent, q: Percent)
    requires p.Pct? && q.Pct? && p.value <= q.value
    ensures SizeBand(p) <= SizeBand(q)
  {
  }

  /** The band edges: below 25 is green, from 90 on (and `NaN`) red. */
  lemma SizeColorEdges(p: Percent)
    ensures p.Pct? && p.value < 25.0 ==> SizeColor(p) == "#28a745"
    ensures (p.Pct? && p.value >= 90.0) || p.NotANumber? ==> SizeColor(p) == "#dc3545"
  {
  }

  // ---------------------------------------------------------------------------
  // The explorer
  // ---------------------------------------------------------------------------

  class FileTreeExplorer {
    /** The snapshot the views share; `data` names its root once loaded. */
    const tree: Arena
    var data: Option<NodeId>
    var expandedNodes: set<NodeId>
    var selectedNode: Option<NodeId>

    ghost predicate Valid()
      reads this
    {
      && WellFormed(tree)
      && (data.Some? ==> data.value < |tree|)
      && (selectedNode.Some? ==> selectedNode.value < |tree|)
    }

    constructor (tree: Arena)
      requires WellFormed(tree)
      ensures Valid() && this.tree == tree
      ensures data == None && expandedNodes == {} && selectedNode == None
    {
      this.tree := tree;
      data := None;
      expandedNodes := {};
      selectedNode := None;
    }

    /** `render()`: nothing without data, else the rows from the root. */
    function RenderedRows(): seq<Row>
      requires Valid()
      reads this
    {
      if data.None? then [] else Rows(tree, data.value, 0, expandedNodes)
    }

    /** `setData(d)`: only the root expanded and selected; a `null` snapshot
        clears the set and leaves the selection. */
    method SetData(d: Option<NodeId>)
      requires Valid() && (d.Some? ==> d.value < |tree|)
      modifies this`data, this`expandedNodes, this`selectedNode
      ensures Valid() && data == d
      ensures expandedNodes == if d.Some? then {d.value} else {}
      ensures selectedNode == if d.Some? then d else old(selectedNode)
    {
      data := d;
      expandedNodes := {};
      if d.Some? {
        expandedNodes := expandedNodes + {d.value};
        selectedNode := d;
      }
    }

    /** `toggleExpand(n)`. */
    method ToggleExpand(n: NodeId)
      modifies this`expandedNodes
      ensures expandedNodes == Toggled(old(expandedNodes), n)
    {
      if n in expandedNodes {
        expandedNodes := expandedNodes - {n};
      } else {
        expandedNodes := expandedNodes + {n};
      }
    }

    /** `selectNode(n)`: select and hand `n` to the callback, once. */
    method SelectNode(n: NodeId) returns (fired: Option<NodeId>)
      requires Valid() && n < |tree|
      modifies this`selectedNode
      ensures Valid() && selectedNode == Some(n) && fired == Some(n)
    {
      selectedNode := Some(n);
      fired := Some(n);
    }

    /** `expandAll()`: `expandAllNodes(this.data)`, which needs data. */
    method ExpandAll()
      requires Valid() && data.Some?
      modifies this`expandedNodes
      ensures expandedNodes == old(expandedNodes) + ExpandableBelow(tree, data.value)
    {
      ExpandAllNodes(data.value);
    }

    /** `expandAllNodes(node)`. */
    method ExpandAllNodes(node: NodeId)
      requires Valid() && node < |tree|
      modifies this`expandedNodes
      ensures expandedNodes == old(expandedNodes) + ExpandableBelow(tree, node)
      decreases |tree| - node
    {
      if tree[node].directory && |tree[node].children| > 0 {
        expandedNodes := expandedNodes + {node};
        var children := tree[node].children;
        var k := 0;
        while k < |children|
          invariant 0 <= k <= |children|
          invariant expandedNodes == old(expandedNodes) + {node} + ExpandableKids(tree, node, k)
          decreases |children| - k
        {
          ExpandAllNodes(children[k]);
          k := k + 1;
        }
      }
    }

    /** `collapseAll()`: only the root stays expanded. */
    method CollapseAll()
      modifies this`expandedNodes
      ensures expandedNodes == if data.Some? then {data.value} else {}
    {
      expandedNodes := {};
      if data.Some? {
        expandedNodes := expandedNodes + {data.value};
      }
    }

    /** `expandToNode(t)`: add the non-empty directories on the path from the
        root; `findPathToNode` on a `null` root would fail, so data is
        needed. */
    method ExpandToNode(target: NodeId)
      requires Valid() && data.Some?
      modifies this`expandedNodes
      ensures expandedNodes == old(expandedNodes) + PathExpansion(tree, data.value, target)
    {
      var path := FindPathToNode(tree, data.value, target);
      FindPathToNodeCorrect(tree, data.value, target);
      if path.Some? {
        var p := path.value;
        var i := 0;
        while i < |p|
          invariant 0 <= i <= |p|
          invariant expandedNodes == old(expandedNodes) + ExpandablesOn(tree, p[..i])
          decreases |p| - i
        {
          var node := p[i];
          assert p[..i + 1] == p[..i] + [node];
          if tree[node].directory && |tree[node].children| > 0 {
            expandedNodes := expandedNodes + {node};
          }
          i := i + 1;
        }
        assert p[..i] == p;
      }
    }

    /** `selectNodeExternal(node)`: a `null` node does nothing. */
    method SelectNodeExternal(node: Option<NodeId>) returns (fired: Option<NodeId>)
      requires Valid() && (node.Some? ==> data.Some? && node.value < |tree|)
      modifies this`expandedNodes, this`selectedNode
      ensures Valid() && fired == node
      ensures node.None? ==> expandedNodes == old(expandedNodes) && selectedNode == old(selectedNode)
      ensures node.Some? ==>
                && expandedNodes == old(expandedNodes) + PathExpansion(tree, data.value, node.value)
                && selectedNode == node
    {
      fired := None;
      if node.Some? {
        ExpandToNode(node.value);
        fired := SelectNode(node.value);
      }
    }

    /** `selectNodeByPath(path)`: an unknown path does nothing; the search
        starts at `this.data`, so data is needed. */
    method SelectNodeByPath(path: string) returns (fired: Option<NodeId>)
      requires Valid() && data.Some?
      modifies this`expandedNodes, this`selectedNode
      ensures Valid() && fired == FindNodeByPath(tree, data.value, path)
      ensures fired.None? ==> expandedNodes == old(expandedNodes) && selectedNode == old(selectedNode)
      ensures fired.Some? ==>
                && expandedNodes == old(expandedNodes) + PathExpansion(tree, data.value, fired.value)
                && selectedNode == fired
    {
      var node := FindNodeByPath(tree, data.value, path);
      FindNodeByPathCorrect(tree, data.value, path);
      fired := None;
      if node.Some? {
        ExpandToNode(node.value);
        fired := SelectNode(node.value);
      }
    }
  }
}
