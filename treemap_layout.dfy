/** The slice-and-dice layout of `drawTreemap`, the hit test of
    `findSmallestNodeAtPosition` and the colour choice of `drawRect`, all as
    functions of the tree. Coordinates are reals: the browser's floating
    point rounding is not modelled. */
module TreemapLayout {
  import opened Wrappers
  import opened Sorting
  import opened TreeModel

  datatype Rect = Rect(x: real, y: real, width: real, height: real)

  /** One entry of `nodeRectMap`: a node and the rectangle it was given. */
  datatype Entry = Entry(node: NodeId, rect: Rect)

  /** The cut-off of `drawTreemap`: the rectangle is narrower or lower than
      the minimum pixel size. */
  predicate TooSmall(r: Rect, minPx: int) {
    r.width < minPx as real || r.height < minPx as real
  }

  /** Where a rectangle starts, and how long it is, along the slice axis. */
  function Start(r: Rect, horizontal: bool): real {
    if horizontal then r.x else r.y
  }

  function Extent(r: Rect, horizontal: bool): real {
    if horizontal then r.width else r.height
  }

  /** `inner` is a rectangle of non-negative size inside `outer`. */
  predicate Inside(inner: Rect, outer: Rect) {
    && 0.0 <= inner.width && 0.0 <= inner.height
    && outer.x <= inner.x && inner.x + inner.width <= outer.x + outer.width
    && outer.y <= inner.y && inner.y + inner.height <= outer.y + outer.height
  }

  // ---------------------------------------------------------------------------
  // Proportional shares
  // ---------------------------------------------------------------------------

  /** `child.size / node.size` as written: JavaScript yields NaN for `0 / 0`
      and Infinity for a positive size over 0; both are "not a finite
      ratio" here. */
  function SliceRatioAsWritten(childSize: nat, nodeSize: nat): (r: Option<real>)
    ensures r.None? <==> nodeSize == 0
    ensures r.Some? ==> r.value * nodeSize as real == childSize as real
    ensures r.Some? ==> r.value == childSize as real / nodeSize as real
  {
    if nodeSize == 0 then None else Some(childSize as real / nodeSize as real)
  }

  /** The ratio with the division guarded: a node of size 0 gives its
      children nothing. */
  function Ratio(childSize: nat, nodeSize: nat): (r: real)
    ensures 0.0 <= r
    ensures nodeSize == 0 ==> r == 0.0
    ensures childSize <= nodeSize ==> r <= 1.0
  {
    if nodeSize == 0 then 0.0 else childSize as real / nodeSize as real
  }

  /** For a positive node size the guarded ratio is the quotient the
      source computes. */
  lemma RatioIsQuotient(childSize: nat, nodeSize: nat)
    requires nodeSize > 0
    ensures Ratio(childSize, nodeSize) * nodeSize as real == childSize as real
    ensures SliceRatioAsWritten(childSize, nodeSize) == Some(Ratio(childSize, nodeSize))
  {
  }

  /** The part of an extent `e` that a child of size `s` receives. */
  function Share(e: real, s: nat, total: nat): real {
    e * Ratio(s, total)
  }

  lemma ShareAdd(e: real, s: nat, t: nat, total: nat)
    ensures Share(e, s + t, total) == Share(e, s, total) + Share(e, t, total)
  {
    if total > 0 {
      var T := total as real;
      var x, y := s as real, t as real;
      assert (s + t) as real == x + y;
      QuotientAdd(x, y, T);
      assert Ratio(s + t, total) == Ratio(s, total) + Ratio(t, total);
      Distribute(e, Ratio(s, total), Ratio(t, total));
    }
  }

  lemma QuotientAdd(x: real, y: real, d: real)
    requires d != 0.0
    ensures (x + y) / d == x / d + y / d
  {
  }

  lemma Distribute(e: real, p: real, q: real)
    ensures e * (p + q) == e * p + e * q
  {
  }

  lemma ShareBounds(e: real, s: nat, total: nat)
    requires 0.0 <= e
    ensures 0.0 <= Share(e, s, total)
    ensures s <= total ==> Share(e, s, total) <= e
  {
    var q := Ratio(s, total);
    assert 0.0 <= e * q;
    if s <= total {
      assert e * q <= e * 1.0;
    }
  }

  lemma ShareWhole(e: real, total: nat)
    requires total > 0
    ensures Share(e, total, total) == e
  {
    assert Ratio(total, total) == 1.0;
  }

  // ---------------------------------------------------------------------------
  // Slices
  // ---------------------------------------------------------------------------

  function ChildRect(rect: Rect, horizontal: bool, pos: real, ext: real): Rect {
    if horizontal then Rect(pos, rect.y, ext, rect.height)
    else Rect(rect.x, pos, rect.width, ext)
  }

  /** The `forEach` of `drawTreemap`: each child in turn gets the slice that
      starts at the running position and is as long as its share of the
      parent's extent; the position then moves past it. */
  function SliceRects(a: Arena, kids: seq<NodeId>, rect: Rect, horizontal: bool, total: nat, pos: real): (r: seq<Rect>)
    ensures |r| == |kids|
  {
    if kids == [] then []
    else
      var ext := Share(Extent(rect, horizontal), SizeOf(a, kids[0]), total);
      [ChildRect(rect, horizontal, pos, ext)]
        + SliceRects(a, kids[1..], rect, horizontal, total, pos + ext)
  }

  /** The extents of `rs` along the slice axis, added up. */
  function ExtentSum(rs: seq<Rect>, horizontal: bool): real {
    if rs == [] then 0.0 else Extent(rs[0], horizontal) + ExtentSum(rs[1..], horizontal)
  }

  /** Each slice spans the parent's full cross axis and takes the child's
      share along the slice axis. */
  lemma {:induction false} SliceRectsShape(a: Arena, kids: seq<NodeId>, rect: Rect, horizontal: bool, total: nat, pos: real, i: nat)
    requires i < |kids|
    ensures var r := SliceRects(a, kids, rect, horizontal, total, pos)[i];
            && Extent(r, horizontal) == Share(Extent(rect, horizontal), SizeOf(a, kids[i]), total)
            && (horizontal ==> r.y == rect.y && r.height == rect.height)
            && (!horizontal ==> r.x == rect.x && r.width == rect.width)
  {
    if i > 0 {
      var ext := Share(Extent(rect, horizontal), SizeOf(a, kids[0]), total);
      SliceRectsShape(a, kids[1..], rect, horizontal, total, pos + ext, i - 1);
    }
  }

  /** The slices are consecutive: each starts where the ones before it
      end, the first at `pos`. */
  lemma {:induction false} SliceRectsConsecutive(a: Arena, kids: seq<NodeId>, rect: Rect, horizontal: bool, total: nat, pos: real, i: nat)
    requires i < |kids|
    ensures var rs := SliceRects(a, kids, rect, horizontal, total, pos);
            Start(rs[i], horizontal) == pos + ExtentSum(rs[..i], horizontal)
  {
    var rs := SliceRects(a, kids, rect, horizontal, total, pos);
    if i > 0 {
      var ext := Share(Extent(rect, horizontal), SizeOf(a, kids[0]), total);
      var rest := SliceRects(a, kids[1..], rect, horizontal, total, pos + ext);
      SliceRectsConsecutive(a, kids[1..], rect, horizontal, total, pos + ext, i - 1);
      assert rs[..i][1..] == rest[..i - 1];
      assert Extent(rs[0], horizontal) == ext;
    }
  }

  /** Together the slices are as long as the children's share of the
      parent's extent. */
  lemma {:induction false} SliceRectsExtentSum(a: Arena, kids: seq<NodeId>, rect: Rect, horizontal: bool, total: nat, pos: real)
    requires Ids(a, kids)
    ensures ExtentSum(SliceRects(a, kids, rect, horizontal, total, pos), horizontal)
            == Share(Extent(rect, horizontal), SumSizes(a, kids), total)
  {
    if kids != [] {
      var e := Extent(rect, horizontal);
      var ext := Share(e, SizeOf(a, kids[0]), total);
      SliceRectsExtentSum(a, kids[1..], rect, horizontal, total, pos + ext);
      ShareAdd(e, a[kids[0]].size, SumSizes(a, kids[1..]), total);
    }
  }

  /** The tiling promised when the children's sizes add up to the parent's
      positive size: the slices start at the parent's start, follow each
      other without gap or overlap, cover the parent's cross axis and
      together fill exactly the parent's extent. */
  lemma SliceRectsTile(a: Arena, kids: seq<NodeId>, rect: Rect, horizontal: bool, total: nat)
    requires Ids(a, kids) && total > 0 && SumSizes(a, kids) == total
    ensures var rs := SliceRects(a, kids, rect, horizontal, total, Start(rect, horizontal));
            && |rs| == |kids|
            && (forall i :: 0 <= i < |rs| ==>
                  Start(rs[i], horizontal) == Start(rect, horizontal) + ExtentSum(rs[..i], horizontal))
            && (forall i :: 0 <= i < |rs| ==>
                  if horizontal then rs[i].y == rect.y && rs[i].height == rect.height
                  else rs[i].x == rect.x && rs[i].width == rect.width)
            && ExtentSum(rs, horizontal) == Extent(rect, horizontal)
  {
    var pos := Start(rect, horizontal);
    var rs := SliceRects(a, kids, rect, horizontal, total, pos);
    forall i | 0 <= i < |rs|
      ensures Start(rs[i], horizontal) == pos + ExtentSum(rs[..i], horizontal)
      ensures if horizontal then rs[i].y == rect.y && rs[i].height == rect.height
              else rs[i].x == rect.x && rs[i].width == rect.width
    {
      SliceRectsConsecutive(a, kids, rect, horizontal, total, pos, i);
      SliceRectsShape(a, kids, rect, horizontal, total, pos, i);
    }
    SliceRectsExtentSum(a, kids, rect, horizontal, total, pos);
    ShareWhole(Extent(rect, horizontal), total);
  }

  /** With the guarded ratio every slice stays inside the parent, also for
      a parent of size 0, as long as the children do not add up to more
      than the parent. */
  lemma {:induction false} SliceRectsInsideFrom(a: Arena, kids: seq<NodeId>, rect: Rect, horizontal: bool, total: nat, pos: real)
    requires Ids(a, kids) && 0.0 <= rect.width && 0.0 <= rect.height
    requires Start(rect, horizontal) <= pos
    requires pos + Share(Extent(rect, horizontal), SumSizes(a, kids), total)
             <= Start(rect, horizontal) + Extent(rect, horizontal)
    ensures forall r :: r in SliceRects(a, kids, rect, horizontal, total, pos) ==> Inside(r, rect)
  {
    if kids != [] {
      var e := Extent(rect, horizontal);
      var s0 := a[kids[0]].size;
      var ext := Share(e, s0, total);
      ShareAdd(e, s0, SumSizes(a, kids[1..]), total);
      ShareBounds(e, s0, total);
      ShareBounds(e, SumSizes(a, kids[1..]), total);
      SliceRectsInsideFrom(a, kids[1..], rect, horizontal, total, pos + ext);
    }
  }

  lemma SliceRectsInside(a: Arena, kids: seq<NodeId>, rect: Rect, horizontal: bool, total: nat)
    requires Ids(a, kids) && 0.0 <= rect.width && 0.0 <= rect.height
    requires SumSizes(a, kids) <= total
    ensures forall r :: r in SliceRects(a, kids, rect, horizontal, total, Start(rect, horizontal)) ==> Inside(r, rect)
  {
    ShareBounds(Extent(rect, horizontal), SumSizes(a, kids), total);
    SliceRectsInsideFrom(a, kids, rect, horizontal, total, Start(rect, horizontal));
  }

  // ---------------------------------------------------------------------------
  // The layout
  // ---------------------------------------------------------------------------

  /** The comparator `(a, b) => b.size - a.size`, read as "comes no later
      than". */
  function BySizeDescending(a: Arena): (NodeId, NodeId) -> bool {
    (x: NodeId, y: NodeId) => SizeOf(a, x) >= SizeOf(a, y)
  }

  /** `[...node.children].sort(...)`: the children, largest first, ties in
      their stored order. */
  function SortedChildren(a: Arena, n: NodeId): (r: seq<NodeId>)
    requires WellFormed(a) && n < |a|
    ensures |r| == |a[n].children|
    ensures forall i :: 0 <= i < |r| ==> r[i] in a[n].children && n < r[i] < |a|
  {
    InsertionSortPermutes(a[n].children, BySizeDescending(a));
    var r := InsertionSort(a[n].children, BySizeDescending(a));
    assert forall i :: 0 <= i < |r| ==> r[i] in multiset(a[n].children);
    r
  }

  /** The sorted children are a permutation of the stored ones. */
  lemma SortedChildrenPermutes(a: Arena, n: NodeId)
    requires WellFormed(a) && n < |a|
    ensures multiset(SortedChildren(a, n)) == multiset(a[n].children)
  {
    InsertionSortPermutes(a[n].children, BySizeDescending(a));
  }

  lemma SortedChildrenDescending(a: Arena, n: NodeId)
    requires WellFormed(a) && n < |a|
    ensures var kids := SortedChildren(a, n);
            forall i, j :: 0 <= i < j < |kids| ==> a[kids[i]].size >= a[kids[j]].size
  {
    InsertionSortSorted(a[n].children, BySizeDescending(a));
  }

  /** The entries `drawTreemap(node, rect, horizontal)` adds to
      `nodeRectMap`, in the order it adds them. */
  function Layout(a: Arena, n: NodeId, rect: Rect, horizontal: bool, minPx: int): (r: seq<Entry>)
    requires WellFormed(a) && n < |a|
    ensures |r| >= 1 && r[0] == Entry(n, rect)
    decreases |a| - n, 1
  {
    if TooSmall(rect, minPx) then [Entry(n, rect)]
    else if |a[n].children| == 1 then [Entry(n, rect)] + Layout(a, a[n].children[0], rect, horizontal, minPx)
    else if |a[n].children| == 0 then [Entry(n, rect)]
    else
      var kids := SortedChildren(a, n);
      var rects := SliceRects(a, kids, rect, horizontal, a[n].size, Start(rect, horizontal));
      [Entry(n, rect)] + LayoutAll(a, n, kids, rects, !horizontal, minPx)
  }

  /** The layouts of the children `kids` of `n`, each in its rectangle. */
  function LayoutAll(a: Arena, n: NodeId, kids: seq<NodeId>, rects: seq<Rect>, horizontal: bool, minPx: int): seq<Entry>
    requires WellFormed(a) && n < |a| && |kids| == |rects|
    requires forall i :: 0 <= i < |kids| ==> n < kids[i] < |a|
    decreases |a| - n, 0, |kids|
  {
    if kids == [] then []
    else Layout(a, kids[0], rects[0], horizontal, minPx) + LayoutAll(a, n, kids[1..], rects[1..], horizontal, minPx)
  }

  /** With several children and room to spare the layout is the node's
      own entry followed by the layouts of its sorted children in their
      slices, orientation flipped. */
  lemma LayoutSliced(a: Arena, n: NodeId, rect: Rect, horizontal: bool, minPx: int)
    requires WellFormed(a) && n < |a| && Slices(a, n, rect, minPx)
    ensures var kids := SortedChildren(a, n);
            var rects := SliceRects(a, kids, rect, horizontal, a[n].size, Start(rect, horizontal));
            Layout(a, n, rect, horizontal, minPx) == [Entry(n, rect)] + LayoutAll(a, n, kids, rects, !horizontal, minPx)
  {
  }

  /** The slicing loop read as one pass: each child in turn is laid out,
      orientation flipped, in the slice starting at the running position,
      which then moves past it. */
  function SliceLayouts(a: Arena, kids: seq<NodeId>, rect: Rect, horizontal: bool, total: nat, pos: real, minPx: int): seq<Entry>
    requires WellFormed(a) && Ids(a, kids)
    decreases |kids|
  {
    if kids == [] then []
    else
      var ext := Share(Extent(rect, horizontal), SizeOf(a, kids[0]), total);
      Layout(a, kids[0], ChildRect(rect, horizontal, pos, ext), !horizontal, minPx)
      + SliceLayouts(a, kids[1..], rect, horizontal, total, pos + ext, minPx)
  }

  lemma AppendAssociates(xs: seq<Entry>, ys: seq<Entry>, zs: seq<Entry>)
    ensures (xs + ys) + zs == xs + (ys + zs)
  {
  }

  /** The pass is the children's layouts in their slices. */
  lemma {:induction false} SliceLayoutsAreLayoutAll(a: Arena, n: NodeId, kids: seq<NodeId>, rect: Rect, horizontal: bool, total: nat, pos: real, minPx: int)
    requires WellFormed(a) && n < |a| && forall j :: 0 <= j < |kids| ==> n < kids[j] < |a|
    ensures Ids(a, kids)
    ensures LayoutAll(a, n, kids, SliceRects(a, kids, rect, horizontal, total, pos), !horizontal, minPx)
            == SliceLayouts(a, kids, rect, horizontal, total, pos, minPx)
    decreases |kids|
  {
    if kids != [] {
      var ext := Share(Extent(rect, horizontal), SizeOf(a, kids[0]), total);
      SliceLayoutsAreLayoutAll(a, n, kids[1..], rect, horizontal, total, pos + ext, minPx);
    }
  }

  /** One turn of the drawing loop: child `i` at position `pos`, then the
      children after it from the position past its slice. */
  lemma SliceLayoutsStep(a: Arena, kids: seq<NodeId>, rect: Rect, horizontal: bool, total: nat, pos: real, minPx: int, i: nat)
    requires WellFormed(a) && Ids(a, kids) && i < |kids|
    ensures Ids(a, kids[i..]) && Ids(a, kids[i + 1..])
    ensures var ext := Share(Extent(rect, horizontal), SizeOf(a, kids[i]), total);
            SliceLayouts(a, kids[i..], rect, horizontal, total, pos, minPx)
            == Layout(a, kids[i], ChildRect(rect, horizontal, pos, ext), !horizontal, minPx)
               + SliceLayouts(a, kids[i + 1..], rect, horizontal, total, pos + ext, minPx)
  {
    assert kids[i..][1..] == kids[i + 1..];
  }

  /** The conditions under which `drawTreemap` slices `n` among several
      children. */
  predicate Slices(a: Arena, n: NodeId, rect: Rect, minPx: int)
    requires n < |a|
  {
    !TooSmall(rect, minPx) && |a[n].children| >= 2
  }

  /** A rectangle below the minimum size ends the descent: the node keeps
      its entry and nothing under it is laid out. */
  lemma LayoutTooSmall(a: Arena, n: NodeId, rect: Rect, horizontal: bool, minPx: int)
    requires WellFormed(a) && n < |a| && TooSmall(rect, minPx)
    ensures Layout(a, n, rect, horizontal, minPx) == [Entry(n, rect)]
  {
  }

  /** A chain link with one child hands the same rectangle and the same
      orientation down: parent and child get identical rectangles. */
  lemma LayoutFlattens(a: Arena, n: NodeId, rect: Rect, horizontal: bool, minPx: int)
    requires WellFormed(a) && n < |a| && !TooSmall(rect, minPx) && |a[n].children| == 1
    ensures var l := Layout(a, n, rect, horizontal, minPx);
            && |l| >= 2
            && l[1] == Entry(a[n].children[0], rect)
            && l[1..] == Layout(a, a[n].children[0], rect, horizontal, minPx)
            && l == [Entry(n, rect)] + Layout(a, a[n].children[0], rect, horizontal, minPx)
  {
  }

  /** Every entry of a layout lies in the subtree of its root. */
  lemma {:induction false} LayoutReaches(a: Arena, n: NodeId, rect: Rect, horizontal: bool, minPx: int, i: nat)
    requires WellFormed(a) && n < |a| && i < |Layout(a, n, rect, horizontal, minPx)|
    ensures Reaches(a, n, Layout(a, n, rect, horizontal, minPx)[i].node)
    decreases |a| - n, 2
  {
    if i > 0 {
      assert !TooSmall(rect, minPx) && |a[n].children| != 0;
      if |a[n].children| == 1 {
        FlatLayoutReaches(a, n, rect, horizontal, minPx, i);
      } else {
        SlicedLayoutReaches(a, n, rect, horizontal, minPx, i);
      }
    }
  }

  lemma {:induction false} FlatLayoutReaches(a: Arena, n: NodeId, rect: Rect, horizontal: bool, minPx: int, i: nat)
    requires WellFormed(a) && n < |a| && !TooSmall(rect, minPx) && |a[n].children| == 1
    requires 0 < i < |Layout(a, n, rect, horizontal, minPx)|
    ensures Reaches(a, n, Layout(a, n, rect, horizontal, minPx)[i].node)
    decreases |a| - n, 1
  {
    var c := a[n].children[0];
    var x := Layout(a, n, rect, horizontal, minPx)[i].node;
    LayoutFlattens(a, n, rect, horizontal, minPx);
    assert x == Layout(a, c, rect, horizontal, minPx)[i - 1].node;
    LayoutReaches(a, c, rect, horizontal, minPx, i - 1);
    ReachesChild(a, n, 0);
    ReachesTransitive(a, n, c, x);
  }

  lemma {:induction false} SlicedLayoutReaches(a: Arena, n: NodeId, rect: Rect, horizontal: bool, minPx: int, i: nat)
    requires WellFormed(a) && n < |a| && Slices(a, n, rect, minPx)
    requires 0 < i < |Layout(a, n, rect, horizontal, minPx)|
    ensures Reaches(a, n, Layout(a, n, rect, horizontal, minPx)[i].node)
    decreases |a| - n, 1
  {
    var kids := SortedChildren(a, n);
    var rects := SliceRects(a, kids, rect, horizontal, a[n].size, Start(rect, horizontal));
    var x := Layout(a, n, rect, horizontal, minPx)[i].node;
    LayoutSliced(a, n, rect, horizontal, minPx);
    assert x == LayoutAll(a, n, kids, rects, !horizontal, minPx)[i - 1].node;
    LayoutAllReaches(a, n, kids, rects, !horizontal, minPx, i - 1);
    var k :| 0 <= k < |kids| && Reaches(a, kids[k], x);
    var j :| 0 <= j < |a[n].children| && a[n].children[j] == kids[k];
    ReachesChild(a, n, j);
    ReachesTransitive(a, n, kids[k], x);
  }

  lemma {:induction false} LayoutAllReaches(a: Arena, n: NodeId, kids: seq<NodeId>, rects: seq<Rect>, horizontal: bool, minPx: int, i: nat)
    requires WellFormed(a) && n < |a| && |kids| == |rects|
    requires forall j :: 0 <= j < |kids| ==> n < kids[j] < |a|
    requires i < |LayoutAll(a, n, kids, rects, horizontal, minPx)|
    ensures exists k :: 0 <= k < |kids| && Reaches(a, kids[k], LayoutAll(a, n, kids, rects, horizontal, minPx)[i].node)
    decreases |a| - n, 0, |kids|
  {
    var head := Layout(a, kids[0], rects[0], horizontal, minPx);
    var tail := LayoutAll(a, n, kids[1..], rects[1..], horizontal, minPx);
    if i < |head| {
      LayoutReaches(a, kids[0], rects[0], horizontal, minPx, i);
    } else {
      LayoutAllReaches(a, n, kids[1..], rects[1..], horizontal, minPx, i - |head|);
      var k :| 0 <= k < |kids[1..]| && Reaches(a, kids[1..][k], tail[i - |head|].node);
      assert kids[1..][k] == kids[k + 1];
    }
  }

  // ---------------------------------------------------------------------------
  // Distinct entries: `nodeRectMap.set` never overwrites within one pass
  // ---------------------------------------------------------------------------

  /** No node has two entries. */
  predicate DistinctNodes(es: seq<Entry>) {
    forall i, j :: 0 <= i < j < |es| ==> es[i].node != es[j].node
  }

  /** `kids` lists children of `n`, none twice. */
  predicate KidsOf(a: Arena, n: NodeId, kids: seq<NodeId>)
    requires n < |a|
  {
    Distinct(kids) && forall i :: 0 <= i < |kids| ==> kids[i] in a[n].children && n < kids[i] < |a|
  }

  lemma SortedChildrenAreKids(a: Arena, n: NodeId)
    requires WellFormed(a) && TreeShaped(a) && n < |a|
    ensures KidsOf(a, n, SortedChildren(a, n))
  {
    ChildrenDistinct(a, n);
    SortedChildrenPermutes(a, n);
    PermutationKeepsDistinct(a[n].children, SortedChildren(a, n));
  }

  /** The subtrees of two different children do not meet. */
  lemma KidsSeparate(a: Arena, n: NodeId, kids: seq<NodeId>, p: nat, q: nat, x: NodeId)
    requires WellFormed(a) && TreeShaped(a) && n < |a| && KidsOf(a, n, kids)
    requires p < |kids| && q < |kids| && p != q && Reaches(a, kids[p], x)
    ensures !Reaches(a, kids[q], x)
  {
    var kp :| 0 <= kp < |a[n].children| && a[n].children[kp] == kids[p];
    var kq :| 0 <= kq < |a[n].children| && a[n].children[kq] == kids[q];
    SiblingSubtreesDisjoint(a, n, kp, kq, x);
  }

  /** `x` lies strictly below `m`. */
  predicate Below(a: Arena, m: NodeId, x: NodeId)
    requires WellFormed(a)
  {
    m < |a| && Reaches(a, m, x) && x != m
  }

  /** The entries after the root's: none when the node is cut off or has no
      children, the only child's layout, or the children's layouts. */
  function LayoutBelow(a: Arena, n: NodeId, rect: Rect, horizontal: bool, minPx: int): seq<Entry>
    requires WellFormed(a) && n < |a|
  {
    if TooSmall(rect, minPx) || |a[n].children| == 0 then []
    else if |a[n].children| == 1 then Layout(a, a[n].children[0], rect, horizontal, minPx)
    else
      var kids := SortedChildren(a, n);
      LayoutAll(a, n, kids, SliceRects(a, kids, rect, horizontal, a[n].size, Start(rect, horizontal)), !horizontal, minPx)
  }

  lemma LayoutSplit(a: Arena, n: NodeId, rect: Rect, horizontal: bool, minPx: int)
    requires WellFormed(a) && n < |a|
    ensures Layout(a, n, rect, horizontal, minPx) == [Entry(n, rect)] + LayoutBelow(a, n, rect, horizontal, minPx)
  {
  }

  /** Every entry below the root is strictly below it. */
  lemma LayoutBelowIsBelow(a: Arena, n: NodeId, rect: Rect, horizontal: bool, minPx: int, j: nat)
    requires WellFormed(a) && TreeShaped(a) && n < |a| && j < |LayoutBelow(a, n, rect, horizontal, minPx)|
    ensures Below(a, n, LayoutBelow(a, n, rect, horizontal, minPx)[j].node)
  {
    var below := LayoutBelow(a, n, rect, horizontal, minPx);
    LayoutSplit(a, n, rect, horizontal, minPx);
    LayoutReaches(a, n, rect, horizontal, minPx, j + 1);
    assert Layout(a, n, rect, horizontal, minPx)[j + 1] == below[j];
    if |a[n].children| == 1 {
      var c := a[n].children[0];
      LayoutReaches(a, c, rect, horizontal, minPx, j);
      ReachesOrdered(a, c, below[j].node);
    } else {
      var kids := SortedChildren(a, n);
      var rects := SliceRects(a, kids, rect, horizontal, a[n].size, Start(rect, horizontal));
      LayoutAllReaches(a, n, kids, rects, !horizontal, minPx, j);
      var k :| 0 <= k < |kids| && Reaches(a, kids[k], below[j].node);
      ReachesOrdered(a, kids[k], below[j].node);
    }
  }

  lemma DistinctNodesCons(e: Entry, tail: seq<Entry>)
    requires DistinctNodes(tail) && forall j :: 0 <= j < |tail| ==> tail[j].node != e.node
    ensures DistinctNodes([e] + tail)
  {
    var l := [e] + tail;
    forall i, j | 0 <= i < j < |l| ensures l[i].node != l[j].node {
      assert l[j] == tail[j - 1];
      if i > 0 { assert l[i] == tail[i - 1]; }
    }
  }

  /** In a forest every node gets at most one entry per pass, so the
      insertion-ordered sequence of entries is exactly the JavaScript `Map`. */
  lemma {:induction false} LayoutDistinct(a: Arena, n: NodeId, rect: Rect, horizontal: bool, minPx: int)
    requires WellFormed(a) && TreeShaped(a) && n < |a|
    ensures DistinctNodes(Layout(a, n, rect, horizontal, minPx))
    decreases |a| - n, 1
  {
    var below := LayoutBelow(a, n, rect, horizontal, minPx);
    LayoutSplit(a, n, rect, horizontal, minPx);
    if !TooSmall(rect, minPx) && |a[n].children| == 1 {
      LayoutDistinct(a, a[n].children[0], rect, horizontal, minPx);
    } else if !TooSmall(rect, minPx) && |a[n].children| > 1 {
      var kids := SortedChildren(a, n);
      SortedChildrenAreKids(a, n);
      LayoutAllDistinct(a, n, kids, SliceRects(a, kids, rect, horizontal, a[n].size, Start(rect, horizontal)), !horizontal, minPx);
    }
    forall j | 0 <= j < |below| ensures below[j].node != n {
      LayoutBelowIsBelow(a, n, rect, horizontal, minPx, j);
    }
    DistinctNodesCons(Entry(n, rect), below);
  }

  lemma {:induction false} LayoutAllDistinct(a: Arena, n: NodeId, kids: seq<NodeId>, rects: seq<Rect>, horizontal: bool, minPx: int)
    requires WellFormed(a) && TreeShaped(a) && n < |a| && |kids| == |rects| && KidsOf(a, n, kids)
    ensures DistinctNodes(LayoutAll(a, n, kids, rects, horizontal, minPx))
    decreases |a| - n, 0, |kids|
  {
    if kids != [] {
      var head := Layout(a, kids[0], rects[0], horizontal, minPx);
      var tail := LayoutAll(a, n, kids[1..], rects[1..], horizontal, minPx);
      var l := head + tail;
      LayoutDistinct(a, kids[0], rects[0], horizontal, minPx);
      LayoutAllDistinct(a, n, kids[1..], rects[1..], horizontal, minPx);
      forall i, j | 0 <= i < |head| && 0 <= j < |tail| ensures head[i].node != tail[j].node {
        FirstKidApart(a, n, kids, rects, horizontal, minPx, i, j);
      }
      DistinctNodesConcat(head, tail);
    }
  }

  /** An entry of the first child's layout and one of the later children's
      layouts lie in disjoint subtrees, so they name different nodes. */
  lemma FirstKidApart(a: Arena, n: NodeId, kids: seq<NodeId>, rects: seq<Rect>, horizontal: bool, minPx: int, i: nat, j: nat)
    requires WellFormed(a) && TreeShaped(a) && n < |a| && |kids| == |rects| && KidsOf(a, n, kids) && kids != []
    requires i < |Layout(a, kids[0], rects[0], horizontal, minPx)|
    requires j < |LayoutAll(a, n, kids[1..], rects[1..], horizontal, minPx)|
    ensures var x := Layout(a, kids[0], rects[0], horizontal, minPx)[i].node;
            var y := LayoutAll(a, n, kids[1..], rects[1..], horizontal, minPx)[j].node;
            && x < |a| && y < |a| && x != y
            && !Reaches(a, x, y) && !Reaches(a, y, x)
  {
    var x := Layout(a, kids[0], rects[0], horizontal, minPx)[i].node;
    var y := LayoutAll(a, n, kids[1..], rects[1..], horizontal, minPx)[j].node;
    LayoutReaches(a, kids[0], rects[0], horizontal, minPx, i);
    LayoutAllReaches(a, n, kids[1..], rects[1..], horizontal, minPx, j);
    var k :| 0 <= k < |kids[1..]| && Reaches(a, kids[1..][k], y);
    assert kids[1..][k] == kids[k + 1];
    KidSubtreesApart(a, n, kids, 0, k + 1, x, y);
  }

  lemma DistinctNodesConcat(xs: seq<Entry>, ys: seq<Entry>)
    requires DistinctNodes(xs) && DistinctNodes(ys)
    requires forall i, j :: 0 <= i < |xs| && 0 <= j < |ys| ==> xs[i].node != ys[j].node
    ensures DistinctNodes(xs + ys)
  {
    var l := xs + ys;
    forall i, j | 0 <= i < j < |l| ensures l[i].node != l[j].node {
      if j < |xs| {
        assert l[i] == xs[i] && l[j] == xs[j];
      } else if i >= |xs| {
        assert l[i] == ys[i - |xs|] && l[j] == ys[j - |xs|];
      } else {
        assert l[i] == xs[i] && l[j] == ys[j - |xs|];
      }
    }
  }

  // ---------------------------------------------------------------------------
  // The cut-off stops the whole subtree
  // ---------------------------------------------------------------------------

  /** No entry whose rectangle is below the minimum size is followed, or
      preceded, by an entry of its own subtree. */
  predicate CutOffRespected(a: Arena, l: seq<Entry>, minPx: int)
    requires WellFormed(a)
  {
    forall i, j :: 0 <= i < |l| && 0 <= j < |l| && TooSmall(l[i].rect, minPx) ==> !Below(a, l[i].node, l[j].node)
  }

  /** No node of `xs` and no node of `ys` lies in the other's subtree. */
  predicate Apart(a: Arena, xs: seq<Entry>, ys: seq<Entry>)
    requires WellFormed(a)
  {
    forall i, j :: 0 <= i < |xs| && 0 <= j < |ys| ==>
      && xs[i].node < |a| && ys[j].node < |a|
      && !Reaches(a, xs[i].node, ys[j].node) && !Reaches(a, ys[j].node, xs[i].node)
  }

  lemma CutOffCons(a: Arena, e: Entry, tail: seq<Entry>, minPx: int)
    requires WellFormed(a) && e.node < |a| && !TooSmall(e.rect, minPx) && CutOffRespected(a, tail, minPx)
    requires forall j :: 0 <= j < |tail| ==> Below(a, e.node, tail[j].node)
    ensures CutOffRespected(a, [e] + tail, minPx)
  {
    var l := [e] + tail;
    forall i, j | 0 <= i < |l| && 0 <= j < |l| && TooSmall(l[i].rect, minPx)
      ensures !Below(a, l[i].node, l[j].node)
    {
      assert l[i] == tail[i - 1];
      if j == 0 {
        ReachesOrdered(a, e.node, l[i].node);
        if Reaches(a, l[i].node, e.node) { ReachesOrdered(a, l[i].node, e.node); }
      } else {
        assert l[j] == tail[j - 1];
      }
    }
  }

  lemma CutOffConcat(a: Arena, xs: seq<Entry>, ys: seq<Entry>, minPx: int)
    requires WellFormed(a) && CutOffRespected(a, xs, minPx) && CutOffRespected(a, ys, minPx) && Apart(a, xs, ys)
    ensures CutOffRespected(a, xs + ys, minPx)
  {
    var l := xs + ys;
    forall i, j | 0 <= i < |l| && 0 <= j < |l| && TooSmall(l[i].rect, minPx)
      ensures !Below(a, l[i].node, l[j].node)
    {
      if i < |xs| {
        assert l[i] == xs[i];
        if j < |xs| { assert l[j] == xs[j]; } else { assert l[j] == ys[j - |xs|]; }
      } else {
        assert l[i] == ys[i - |xs|];
        if j < |xs| { assert l[j] == xs[j]; } else { assert l[j] == ys[j - |xs|]; }
      }
    }
  }

  /** Nodes under two different children are unrelated. */
  lemma KidSubtreesApart(a: Arena, n: NodeId, kids: seq<NodeId>, p: nat, q: nat, x: NodeId, y: NodeId)
    requires WellFormed(a) && TreeShaped(a) && n < |a| && KidsOf(a, n, kids)
    requires p < |kids| && q < |kids| && p != q && Reaches(a, kids[p], x) && Reaches(a, kids[q], y)
    ensures x < |a| && y < |a| && !Reaches(a, x, y) && !Reaches(a, y, x)
  {
    ReachesOrdered(a, kids[p], x);
    ReachesOrdered(a, kids[q], y);
    if Reaches(a, x, y) {
      ReachesTransitive(a, kids[p], x, y);
      KidsSeparate(a, n, kids, p, q, y);
    }
    if Reaches(a, y, x) {
      ReachesTransitive(a, kids[q], y, x);
      KidsSeparate(a, n, kids, q, p, x);
    }
  }

  /** The layouts of two different children lie apart. */
  lemma LayoutAllApart(a: Arena, n: NodeId, kids: seq<NodeId>, rects: seq<Rect>, horizontal: bool, minPx: int)
    requires WellFormed(a) && TreeShaped(a) && n < |a| && |kids| == |rects| && KidsOf(a, n, kids) && kids != []
    ensures Apart(a, Layout(a, kids[0], rects[0], horizontal, minPx),
                     LayoutAll(a, n, kids[1..], rects[1..], horizontal, minPx))
  {
    var head := Layout(a, kids[0], rects[0], horizontal, minPx);
    var tail := LayoutAll(a, n, kids[1..], rects[1..], horizontal, minPx);
    forall i | 0 <= i < |head|
      ensures head[i].node < |a| && Reaches(a, kids[0], head[i].node)
    {
      LayoutReaches(a, kids[0], rects[0], horizontal, minPx, i);
      ReachesOrdered(a, kids[0], head[i].node);
    }
    forall j | 0 <= j < |tail|
      ensures exists k :: 1 <= k < |kids| && Reaches(a, kids[k], tail[j].node)
    {
      LayoutAllReaches(a, n, kids[1..], rects[1..], horizontal, minPx, j);
      var k :| 0 <= k < |kids[1..]| && Reaches(a, kids[1..][k], tail[j].node);
      assert kids[1..][k] == kids[k + 1];
    }
    ApartUnderKids(a, n, kids, head, tail);
  }

  /** Entries below the first child and entries below later children are
      unrelated. */
  lemma ApartUnderKids(a: Arena, n: NodeId, kids: seq<NodeId>, head: seq<Entry>, tail: seq<Entry>)
    requires WellFormed(a) && TreeShaped(a) && n < |a| && KidsOf(a, n, kids) && kids != []
    requires forall i :: 0 <= i < |head| ==> head[i].node < |a| && Reaches(a, kids[0], head[i].node)
    requires forall j :: 0 <= j < |tail| ==> exists k :: 1 <= k < |kids| && Reaches(a, kids[k], tail[j].node)
    ensures Apart(a, head, tail)
  {
    forall i, j | 0 <= i < |head| && 0 <= j < |tail|
      ensures head[i].node < |a| && tail[j].node < |a|
      ensures !Reaches(a, head[i].node, tail[j].node) && !Reaches(a, tail[j].node, head[i].node)
    {
      var k :| 1 <= k < |kids| && Reaches(a, kids[k], tail[j].node);
      KidSubtreesApart(a, n, kids, 0, k, head[i].node, tail[j].node);
    }
  }

  /** The cut-off stops the whole subtree: a node whose rectangle is below
      the minimum size keeps its entry and nothing under it gets one in the
      same pass. */
  lemma {:induction false} LayoutCutOff(a: Arena, n: NodeId, rect: Rect, horizontal: bool, minPx: int)
    requires WellFormed(a) && TreeShaped(a) && n < |a|
    ensures CutOffRespected(a, Layout(a, n, rect, horizontal, minPx), minPx)
    decreases |a| - n, 1
  {
    var below := LayoutBelow(a, n, rect, horizontal, minPx);
    LayoutSplit(a, n, rect, horizontal, minPx);
    if !TooSmall(rect, minPx) {
      if |a[n].children| == 1 {
        LayoutCutOff(a, a[n].children[0], rect, horizontal, minPx);
      } else if |a[n].children| > 1 {
        var kids := SortedChildren(a, n);
        SortedChildrenAreKids(a, n);
        LayoutAllCutOff(a, n, kids, SliceRects(a, kids, rect, horizontal, a[n].size, Start(rect, horizontal)), !horizontal, minPx);
      }
      forall j | 0 <= j < |below| ensures Below(a, n, below[j].node) {
        LayoutBelowIsBelow(a, n, rect, horizontal, minPx, j);
      }
      CutOffCons(a, Entry(n, rect), below, minPx);
    }
  }

  lemma {:induction false} LayoutAllCutOff(a: Arena, n: NodeId, kids: seq<NodeId>, rects: seq<Rect>, horizontal: bool, minPx: int)
    requires WellFormed(a) && TreeShaped(a) && n < |a| && |kids| == |rects| && KidsOf(a, n, kids)
    ensures CutOffRespected(a, LayoutAll(a, n, kids, rects, horizontal, minPx), minPx)
    decreases |a| - n, 0, |kids|
  {
    if kids != [] {
      LayoutCutOff(a, kids[0], rects[0], horizontal, minPx);
      LayoutAllCutOff(a, n, kids[1..], rects[1..], horizontal, minPx);
      LayoutAllApart(a, n, kids, rects, horizontal, minPx);
      CutOffConcat(a, Layout(a, kids[0], rects[0], horizontal, minPx),
                   LayoutAll(a, n, kids[1..], rects[1..], horizontal, minPx), minPx);
    }
  }

  // ---------------------------------------------------------------------------
  // Children: sorted, tiled, each laid out with the orientation flipped
  // ---------------------------------------------------------------------------

  /** `ys` occurs in `xs` starting at position `s`. */
  predicate SegmentAt(xs: seq<Entry>, ys: seq<Entry>, s: int) {
    0 <= s && s + |ys| <= |xs| && xs[s..s + |ys|] == ys
  }

  /** `inner` occurs in `outer` as a contiguous run. */
  predicate Within(outer: seq<Entry>, inner: seq<Entry>) {
    exists s :: 0 <= s <= |outer| && SegmentAt(outer, inner, s)
  }

  lemma SegmentAtStart(xs: seq<Entry>, ys: seq<Entry>)
    ensures SegmentAt(xs + ys, xs, 0)
  {
    assert (xs + ys)[0..|xs|] == xs;
  }

  lemma SegmentShift(xs: seq<Entry>, ys: seq<Entry>, zs: seq<Entry>, s: int)
    requires SegmentAt(ys, zs, s)
    ensures SegmentAt(xs + ys, zs, |xs| + s)
  {
    var from, len := |xs| + s, |zs|;
    assert (xs + ys)[from..from + len] == ys[s..s + len];
  }

  lemma {:induction false} LayoutAllSegments(a: Arena, n: NodeId, kids: seq<NodeId>, rects: seq<Rect>, horizontal: bool, minPx: int, k: nat)
    requires WellFormed(a) && n < |a| && |kids| == |rects| && k < |kids|
    requires forall i :: 0 <= i < |kids| ==> n < kids[i] < |a|
    ensures Within(LayoutAll(a, n, kids, rects, horizontal, minPx), Layout(a, kids[k], rects[k], horizontal, minPx))
    decreases |kids|
  {
    var head := Layout(a, kids[0], rects[0], horizontal, minPx);
    var tail := LayoutAll(a, n, kids[1..], rects[1..], horizontal, minPx);
    var l := head + tail;
    assert LayoutAll(a, n, kids, rects, horizontal, minPx) == l;
    if k == 0 {
      SegmentAtStart(head, tail);
    } else {
      LayoutAllSegments(a, n, kids[1..], rects[1..], horizontal, minPx, k - 1);
      var lk := Layout(a, kids[k], rects[k], horizontal, minPx);
      assert kids[1..][k - 1] == kids[k] && rects[1..][k - 1] == rects[k];
      assert Within(tail, lk);
      var s :| 0 <= s <= |tail| && SegmentAt(tail, lk, s);
      SegmentShift(head, tail, lk, s);
    }
  }

  /** Each child's own layout, in its slice and with the orientation
      flipped, is a contiguous run of the parent's layout. */
  lemma LayoutChildLayouts(a: Arena, n: NodeId, rect: Rect, horizontal: bool, minPx: int)
    requires WellFormed(a) && n < |a| && Slices(a, n, rect, minPx)
    ensures var kids := SortedChildren(a, n);
            var rs := SliceRects(a, kids, rect, horizontal, a[n].size, Start(rect, horizontal));
            forall k :: 0 <= k < |kids| ==>
              Within(Layout(a, n, rect, horizontal, minPx), Layout(a, kids[k], rs[k], !horizontal, minPx))
  {
    var kids := SortedChildren(a, n);
    var rs := SliceRects(a, kids, rect, horizontal, a[n].size, Start(rect, horizontal));
    var l := Layout(a, n, rect, horizontal, minPx);
    var all := LayoutAll(a, n, kids, rs, !horizontal, minPx);
    LayoutSliced(a, n, rect, horizontal, minPx);
    forall k | 0 <= k < |kids|
      ensures Within(l, Layout(a, kids[k], rs[k], !horizontal, minPx))
    {
      LayoutAllSegments(a, n, kids, rs, !horizontal, minPx, k);
      var lk := Layout(a, kids[k], rs[k], !horizontal, minPx);
      assert Within(all, lk);
      var s :| 0 <= s <= |all| && SegmentAt(all, lk, s);
      SegmentShift([Entry(n, rect)], all, lk, s);
    }
  }

  /** When `drawTreemap` slices a node whose size is positive and is the sum
      of its children's sizes, the children are visited largest first and
      their slices tile the parent's rectangle along the slice axis: they
      start at the parent's start, follow each other without gap or
      overlap, span the parent's cross axis and fill its extent exactly. */
  lemma LayoutSlicesTile(a: Arena, n: NodeId, rect: Rect, horizontal: bool, minPx: int)
    requires WellFormed(a) && SizesAggregated(a) && n < |a|
    requires Slices(a, n, rect, minPx) && a[n].size > 0
    ensures var kids := SortedChildren(a, n);
            var rs := SliceRects(a, kids, rect, horizontal, a[n].size, Start(rect, horizontal));
            && multiset(kids) == multiset(a[n].children)
            && (forall i, j :: 0 <= i < j < |kids| ==> a[kids[i]].size >= a[kids[j]].size)
            && |rs| == |kids|
            && (forall i :: 0 <= i < |rs| ==>
                  Start(rs[i], horizontal) == Start(rect, horizontal) + ExtentSum(rs[..i], horizontal))
            && (forall i :: 0 <= i < |rs| ==>
                  if horizontal then rs[i].y == rect.y && rs[i].height == rect.height
                  else rs[i].x == rect.x && rs[i].width == rect.width)
            && ExtentSum(rs, horizontal) == Extent(rect, horizontal)
  {
    var kids := SortedChildren(a, n);
    SortedChildrenDescending(a, n);
    SortedChildrenPermutes(a, n);
    SumSizesPermutation(a, a[n].children, kids);
    SliceRectsTile(a, kids, rect, horizontal, a[n].size);
  }

  // ---------------------------------------------------------------------------
  // The unguarded division
  // ---------------------------------------------------------------------------

  /** Two empty sub-directories under an empty directory: the scanner gives
      all three size 0. */
  function EmptyDirectories(): Arena {
    [ Node("top", "/top", true, 0, None, [1, 2]),
      Node("a", "/top/a", true, 0, None, []),
      Node("b", "/top/b", true, 0, None, []) ]
  }

  lemma EmptyDirectoriesShape()
    ensures var a := EmptyDirectories();
            && |a| == 3 && a[0].children == [1, 2] && a[1].children == [] && a[2].children == []
            && a[0].size == 0 && a[1].size == 0 && a[2].size == 0
            && a[0].directory && a[1].directory && a[2].directory
  {
  }

  /** A well-formed, aggregated snapshot for which `drawTreemap` reaches the
      division `child.size / node.size` with `node.size == 0`: JavaScript
      computes NaN, and every child rectangle gets NaN for a coordinate. */
  lemma EmptyDirectoriesDivideByZero()
    ensures var a := EmptyDirectories();
            && WellFormed(a) && TreeShaped(a) && SizesAggregated(a) && FilesAreLeaves(a)
            && Slices(a, 0, Rect(0.0, 0.0, 800.0, 600.0), 10)
            && SliceRatioAsWritten(a[1].size, a[0].size).None?
  {
    EmptyDirectoriesWellFormed();
    EmptyDirectoriesAggregated();
  }

  lemma EmptyDirectoriesWellFormed()
    ensures var a := EmptyDirectories();
            WellFormed(a) && TreeShaped(a) && FilesAreLeaves(a)
  {
    EmptyDirectoriesShape();
    TwoEmptyChildren(EmptyDirectories());
  }

  lemma EmptyDirectoriesAggregated()
    ensures WellFormed(EmptyDirectories()) && SizesAggregated(EmptyDirectories())
  {
    EmptyDirectoriesShape();
    TwoEmptyChildren(EmptyDirectories());
  }

  /** Any arena shaped like the snapshot: a root of size 0 over two empty
      directories of size 0. */
  lemma TwoEmptyChildren(a: Arena)
    requires |a| == 3 && a[0].children == [1, 2] && a[1].children == [] && a[2].children == []
    requires a[0].size == 0 && a[1].size == 0 && a[2].size == 0
    requires a[0].directory && a[1].directory && a[2].directory
    ensures WellFormed(a) && TreeShaped(a) && FilesAreLeaves(a) && SizesAggregated(a)
  {
    forall i, k | 0 <= i < |a| && 0 <= k < |a[i].children|
      ensures i < a[i].children[k] < |a|
    {
      assert i == 0;
    }
    forall i, k, j, l | 0 <= i < |a| && 0 <= j < |a| && 0 <= k < |a[i].children| && 0 <= l < |a[j].children|
                        && a[i].children[k] == a[j].children[l]
      ensures i == j && k == l
    {
      assert i == 0 && j == 0;
    }
    forall i | 0 <= i < |a| && |a[i].children| > 0
      ensures a[i].size == SumSizes(a, a[i].children)
    {
      assert i == 0;
      assert a[0].children[1..] == [2];
      assert SumSizes(a, [2]) == 0;
    }
  }

  /** With the guarded ratio, the same snapshot lays the two sub-directories
      out as slices of width 0 at the left edge, inside the canvas. */
  lemma EmptyDirectoriesStayInside()
    ensures var a := EmptyDirectories();
            var rect := Rect(0.0, 0.0, 800.0, 600.0);
            forall r :: r in SliceRects(a, SortedChildren(a, 0), rect, true, a[0].size, 0.0) ==>
              Inside(r, rect) && r.width == 0.0
  {
    var a := EmptyDirectories();
    var rect := Rect(0.0, 0.0, 800.0, 600.0);
    var kids := SortedChildren(a, 0);
    SliceRectsInside(a, kids, rect, true, 0);
    forall i | 0 <= i < |kids| ensures SliceRects(a, kids, rect, true, 0, 0.0)[i].width == 0.0 {
      SliceRectsShape(a, kids, rect, true, 0, 0.0, i);
    }
  }

  // ---------------------------------------------------------------------------
  // Hit test
  // ---------------------------------------------------------------------------

  /** The bounds test of `findSmallestNodeAtPosition`, edges included. */
  predicate Contains(r: Rect, px: real, py: real) {
    px >= r.x && px <= r.x + r.width && py >= r.y && py <= r.y + r.height
  }

  function Area(r: Rect): real {
    r.width * r.height
  }

  /** The running minimum over the entries in insertion order: an entry
      replaces the current choice only when its area is strictly smaller;
      the first containing entry always beats the initial Infinity. */
  function SmallestIndex(es: seq<Entry>, px: real, py: real): (r: Option<nat>)
    ensures r.Some? ==> r.value < |es|
  {
    if es == [] then None
    else
      var prev := SmallestIndex(es[..|es| - 1], px, py);
      var last := es[|es| - 1];
      if Contains(last.rect, px, py) && (prev.None? || Area(last.rect) < Area(es[prev.value].rect))
      then Some(|es| - 1)
      else prev
  }

  /** The node the hit test returns. */
  function HitNode(es: seq<Entry>, px: real, py: real): Option<NodeId> {
    match SmallestIndex(es, px, py)
    case Some(i) => Some(es[i].node)
    case None => None
  }

  /** The hit test finds nothing exactly when no rectangle contains the
      point; otherwise its choice contains the point, has the least area of
      all that do, and is strictly smaller than every earlier one that does:
      ties go to the entry inserted first. */
  lemma {:induction false} SmallestIndexCorrect(es: seq<Entry>, px: real, py: real)
    ensures SmallestIndex(es, px, py).None? <==> forall j :: 0 <= j < |es| ==> !Contains(es[j].rect, px, py)
    ensures SmallestIndex(es, px, py).Some? ==>
              var i := SmallestIndex(es, px, py).value;
              && Contains(es[i].rect, px, py)
              && (forall j :: 0 <= j < |es| && Contains(es[j].rect, px, py) ==> Area(es[i].rect) <= Area(es[j].rect))
              && (forall j :: 0 <= j < i && Contains(es[j].rect, px, py) ==> Area(es[i].rect) < Area(es[j].rect))
  {
    if es != [] {
      var init := es[..|es| - 1];
      SmallestIndexCorrect(init, px, py);
      assert forall j :: 0 <= j < |init| ==> init[j] == es[j];
    }
  }

  /** An entry with the same rectangle as an earlier one is never chosen. */
  lemma SmallestIndexSkipsTwins(es: seq<Entry>, px: real, py: real, i: nat, j: nat)
    requires j < i < |es| && es[j].rect == es[i].rect
    ensures SmallestIndex(es, px, py) != Some(i)
  {
    SmallestIndexCorrect(es, px, py);
  }

  /** In a flattened chain the shallowest node wins: the only child, which
      shares its parent's rectangle, is never the hit. */
  lemma FlattenedChildNeverHit(a: Arena, n: NodeId, rect: Rect, horizontal: bool, minPx: int, px: real, py: real)
    requires WellFormed(a) && n < |a| && !TooSmall(rect, minPx) && |a[n].children| == 1
    ensures SmallestIndex(Layout(a, n, rect, horizontal, minPx), px, py) != Some(1)
  {
    LayoutFlattens(a, n, rect, horizontal, minPx);
    SmallestIndexSkipsTwins(Layout(a, n, rect, horizontal, minPx), px, py, 1, 0);
  }

  // ---------------------------------------------------------------------------
  // Colour choice of `drawRect`
  // ---------------------------------------------------------------------------

  const DirectoryColor: string := "#4a90e2"
  const FileColor: string := "#95a5a6"
  const HighlightColor: string := "#ff0000"

  /** Directories get the directory colour; a file gets the colour mapped
      to its extension when it has a non-empty one that is mapped, the file
      colour otherwise. The colour is always one of the two defaults or a
      colour of the map, and a file shows a colour other than the default
      only through its own extension. */
  function RectColor(node: Node, colors: map<string, string>): (c: string)
    ensures c == DirectoryColor || c == FileColor || c in colors.Values
    ensures node.directory ==> c == DirectoryColor
    ensures !node.directory && (node.extension.None? || node.extension.value !in colors) ==> c == FileColor
    ensures !node.directory && node.extension == Some("") ==> c == FileColor
    ensures !node.directory && c != FileColor ==>
              node.extension.Some? && node.extension.value in colors && c == colors[node.extension.value]
  {
    if node.directory then DirectoryColor
    else if node.extension.Some? && node.extension.value != "" && node.extension.value in colors
    then colors[node.extension.value]
    else FileColor
  }
}
