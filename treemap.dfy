/** `TreemapVisualizer`: the canvas view. Fields are updated in place by
    the event handlers; each handler is proved to perform the move that
    `TreemapNavigation` defines, and `render` to record exactly the layout
    that `TreemapLayout` defines. Painting is not modelled. */
module TreemapView {
  import opened Wrappers
  import opened TreeModel
  import opened TreemapLayout
  import opened TreemapNavigation
  import opened ColorMaps

  const DefaultMinPixelSize: int := 10

  /** `value || 10` on a number: a missing, unparsable (`NaN`) or zero value
      falls back to the default. */
  function MinPixelSizeOr(v: Option<int>): (r: int)
    ensures v.None? || v == Some(0) ==> r == DefaultMinPixelSize
    ensures v.Some? && v.value != 0 ==> r == v.value
  {
    match v
    case Some(n) => if n != 0 then n else DefaultMinPixelSize
    case None => DefaultMinPixelSize
  }

  class TreemapVisualizer {
    /** Every node object the view can be handed: the parsed scan result. */
    const tree: Arena
    var data: Option<NodeId>
    var currentRoot: Option<NodeId>
    var selectedNode: Option<NodeId>
    /** The `Map` from node to rectangle, in insertion order. */
    var nodeRectMap: seq<Entry>
    var colorMap: ColorMap
    var minPixelSize: int
    var canvasWidth: nat
    var canvasHeight: nat

    function NavOf(): Nav
      reads this
    {
      Nav(data, currentRoot, selectedNode)
    }

    /** The selection lies under the zoom root, which lies under the data
        root, and every recorded rectangle belongs to a node under the zoom
        root; nothing is recorded before data arrives. */
    ghost predicate Valid()
      reads this
    {
      && Ready()
      && (data.Some? ==> forall i :: 0 <= i < |nodeRectMap| ==> Reaches(tree, currentRoot.value, nodeRectMap[i].node))
    }

    /** What `render()` needs: the selection invariant, and an empty map
        while no data is loaded. */
    ghost predicate Ready()
      reads this
    {
      && NavValid(tree, NavOf())
      && TreeShaped(tree)
      && (data.None? ==> nodeRectMap == [])
    }

    function CanvasRect(): Rect
      reads this
    {
      Rect(0.0, 0.0, canvasWidth as real, canvasHeight as real)
    }

    /** What `render()` records: the layout of the zoom root in the whole
        canvas, starting horizontally. */
    function CurrentLayout(): seq<Entry>
      reads this
      requires WellFormed(tree)
    {
      if currentRoot.Some? && currentRoot.value < |tree|
      then Layout(tree, currentRoot.value, CanvasRect(), true, minPixelSize)
      else []
    }

    /** The state after move `m`, given the map `before` it. */
    ghost predicate Shows(m: Move, before: seq<Entry>)
      reads this
      requires WellFormed(tree)
    {
      NavOf() == m.nav && nodeRectMap == (if m.rendered then CurrentLayout() else before)
    }

    constructor (tree: Arena, colorMap: ColorMap, minPixelSize: Option<int>, width: nat, height: nat)
      requires WellFormed(tree) && TreeShaped(tree)
      ensures Valid()
      ensures this.tree == tree && NavOf() == Nav(None, None, None) && nodeRectMap == []
      ensures this.colorMap == colorMap && this.minPixelSize == MinPixelSizeOr(minPixelSize)
      ensures canvasWidth == width && canvasHeight == height
    {
      this.tree := tree;
      data := None;
      currentRoot := None;
      selectedNode := None;
      nodeRectMap := [];
      this.colorMap := colorMap;
      this.minPixelSize := MinPixelSizeOr(minPixelSize);
      canvasWidth := width;
      canvasHeight := height;
    }

    /** `render()`: with data, clear the map and lay out the zoom root. */
    method Render()
      requires Ready()
      modifies this`nodeRectMap
      ensures Valid() && nodeRectMap == CurrentLayout()
    {
      if data.None? {
        return;
      }
      nodeRectMap := [];
      var root := currentRoot.value;
      DrawTreemap(root, CanvasRect(), true);
      forall i | 0 <= i < |nodeRectMap|
        ensures Reaches(tree, root, nodeRectMap[i].node)
      {
        LayoutReaches(tree, root, CanvasRect(), true, minPixelSize, i);
      }
    }

    /** `drawTreemap(node, rect, horizontal)`: append the entries of the
        layout of `node`, slicing the children in a loop that advances the
        running position. */
    method DrawTreemap(node: NodeId, rect: Rect, horizontal: bool)
      requires WellFormed(tree) && node < |tree|
      modifies this`nodeRectMap
      ensures nodeRectMap == old(nodeRectMap) + Layout(tree, node, rect, horizontal, minPixelSize)
      decreases |tree| - node, 1
    {
      nodeRectMap := nodeRectMap + [Entry(node, rect)];
      if TooSmall(rect, minPixelSize) {
        LayoutTooSmall(tree, node, rect, horizontal, minPixelSize);
        return;
      }
      var children := tree[node].children;
      if |children| == 1 {
        LayoutFlattens(tree, node, rect, horizontal, minPixelSize);
        ghost var below := Layout(tree, children[0], rect, horizontal, minPixelSize);
        DrawTreemap(children[0], rect, horizontal);
        AppendAssociates(old(nodeRectMap), [Entry(node, rect)], below);
        return;
      }
      if |children| == 0 {
        return;
      }
      LayoutSliced(tree, node, rect, horizontal, minPixelSize);
      var kids := SortedChildren(tree, node);
      SliceLayoutsAreLayoutAll(tree, node, kids, rect, horizontal, tree[node].size, Start(rect, horizontal), minPixelSize);
      ghost var slices := SliceLayouts(tree, kids, rect, horizontal, tree[node].size, Start(rect, horizontal), minPixelSize);
      DrawSlices(node, kids, rect, horizontal);
      AppendAssociates(old(nodeRectMap), [Entry(node, rect)], slices);
    }

    /** The `forEach` over the sorted children in `drawTreemap`: each child
        gets its share of the extent along the current orientation, from the
        running position, and is drawn with the orientation flipped. */
    method DrawSlices(node: NodeId, kids: seq<NodeId>, rect: Rect, horizontal: bool)
      requires WellFormed(tree) && node < |tree| && forall j :: 0 <= j < |kids| ==> node < kids[j] < |tree|
      modifies this`nodeRectMap
      ensures Ids(tree, kids)
      ensures nodeRectMap == old(nodeRectMap) + SliceLayouts(tree, kids, rect, horizontal, tree[node].size, Start(rect, horizontal), minPixelSize)
      decreases |tree| - node, 0
    {
      var currentPos := Start(rect, horizontal);
      ghost var start := nodeRectMap;
      var i := 0;
      assert kids[0..] == kids;
      while i < |kids|
        invariant 0 <= i <= |kids| && Ids(tree, kids[i..])
        invariant nodeRectMap + SliceLayouts(tree, kids[i..], rect, horizontal, tree[node].size, currentPos, minPixelSize)
                  == start + SliceLayouts(tree, kids, rect, horizontal, tree[node].size, Start(rect, horizontal), minPixelSize)
        decreases |kids| - i
      {
        var child := kids[i];
        ghost var pos := currentPos;
        ghost var ext := Share(Extent(rect, horizontal), SizeOf(tree, child), tree[node].size);
        ghost var rest := SliceLayouts(tree, kids[i + 1..], rect, horizontal, tree[node].size, pos + ext, minPixelSize);
        SliceLayoutsStep(tree, kids, rect, horizontal, tree[node].size, pos, minPixelSize, i);
        var childRect;
        if horizontal {
          var width := Share(rect.width, tree[child].size, tree[node].size);
          childRect := Rect(currentPos, rect.y, width, rect.height);
          currentPos := currentPos + width;
        } else {
          var height := Share(rect.height, tree[child].size, tree[node].size);
          childRect := Rect(rect.x, currentPos, rect.width, height);
          currentPos := currentPos + height;
        }
        assert SizeOf(tree, child) == tree[child].size;
        assert childRect == ChildRect(rect, horizontal, pos, ext) && currentPos == pos + ext;
        ghost var here := Layout(tree, child, childRect, !horizontal, minPixelSize);
        assert nodeRectMap + (here + rest) == start + SliceLayouts(tree, kids, rect, horizontal, tree[node].size, Start(rect, horizontal), minPixelSize);
        ghost var before := nodeRectMap;
        DrawTreemap(child, childRect, !horizontal);
        assert nodeRectMap == before + here;
        AppendAssociates(before, here, rest);
        i := i + 1;
      }
      assert kids[i..] == [];
    }

    /** `findSmallestNodeAtPosition(x, y)`: a running minimum over the map
        in insertion order; `None` for the initial `Infinity`. */
    method FindSmallestNodeAtPosition(px: real, py: real) returns (node: Option<NodeId>)
      ensures node == HitNode(nodeRectMap, px, py)
    {
      node := None;
      var smallestArea: Option<real> := None;
      ghost var index: Option<nat> := None;
      var i := 0;
      while i < |nodeRectMap|
        invariant 0 <= i <= |nodeRectMap|
        invariant index == SmallestIndex(nodeRectMap[..i], px, py)
        invariant index.None? ==> node.None? && smallestArea.None?
        invariant index.Some? ==> index.value < i && node == Some(nodeRectMap[index.value].node)
                                  && smallestArea == Some(Area(nodeRectMap[index.value].rect))
        decreases |nodeRectMap| - i
      {
        var entry := nodeRectMap[i];
        assert nodeRectMap[..i + 1][..i] == nodeRectMap[..i];
        if Contains(entry.rect, px, py) {
          var area := entry.rect.width * entry.rect.height;
          if smallestArea.None? || area < smallestArea.value {
            smallestArea := Some(area);
            node := Some(entry.node);
            index := Some(i);
          }
        }
        i := i + 1;
      }
      assert nodeRectMap[..i] == nodeRectMap;
    }

    /** `setData(data)`. */
    method SetData(d: NodeId)
      requires Valid() && d < |tree|
      modifies this`data, this`currentRoot, this`selectedNode, this`nodeRectMap
      ensures Valid()
      ensures Shows(TreemapNavigation.SetData(old(NavOf()), d), old(nodeRectMap))
    {
      data := Some(d);
      currentRoot := Some(d);
      selectedNode := Some(d);
      nodeRectMap := [];
      Render();
    }

    /** `handleClick(event)` at canvas point (`px`, `py`). */
    method HandleClick(px: real, py: real, ctrlKey: bool) returns (fired: Option<NodeId>)
      requires Valid()
      modifies this`selectedNode, this`nodeRectMap
      ensures Valid()
      ensures var m := Click(tree, old(NavOf()), HitNode(old(nodeRectMap), px, py), ctrlKey);
              Shows(m, old(nodeRectMap)) && fired == m.fired
      ensures fired.Some? ==> fired == selectedNode
    {
      var node := FindSmallestNodeAtPosition(px, py);
      HitIsRecorded(px, py);
      ghost var m := Click(tree, NavOf(), node, ctrlKey);
      ClickKeepsValid(tree, NavOf(), node, ctrlKey);
      if node.None? {
        return None;
      }
      if ctrlKey {
        var parent := FindParent(tree, currentRoot.value, node.value);
        if parent.Some? {
          selectedNode := parent;
        } else {
          selectedNode := currentRoot;
        }
      } else {
        selectedNode := node;
      }
      Render();
      fired := selectedNode;
    }

    /** A hit always names a recorded node, hence one under the zoom root. */
    lemma HitIsRecorded(px: real, py: real)
      requires Valid()
      ensures var hit := HitNode(nodeRectMap, px, py);
              hit.Some? ==> data.Some? && Reaches(tree, currentRoot.value, hit.value)
    {
    }

    /** `handleKeyPress(event)`; `inFormField` is a target that is an
        `INPUT` or a `TEXTAREA`. */
    method HandleKeyPress(key: Key, inFormField: bool) returns (fired: Option<NodeId>)
      requires Valid()
      modifies this`currentRoot, this`selectedNode, this`nodeRectMap
      ensures Valid()
      ensures var m := KeyPress(tree, old(NavOf()), key, inFormField);
              Shows(m, old(nodeRectMap)) && fired == m.fired
      ensures fired.Some? ==> fired == selectedNode
    {
      fired := None;
      if inFormField || selectedNode.None? {
        return;
      }
      match key
      case ArrowLeft => fired := NavigateToSibling(-1);
      case ArrowRight => fired := NavigateToSibling(1);
      case ArrowUp => fired := NavigateToParent();
      case ArrowDown => fired := NavigateToFirstChild();
      case Space =>
        if Expandable(tree, selectedNode.value) {
          ZoomIn(selectedNode.value);
        }
      case Backspace => fired := ZoomOut();
      case Escape => fired := ResetView();
      case OtherKey =>
    }

    method NavigateToSibling(direction: int) returns (fired: Option<NodeId>)
      requires Valid() && selectedNode.Some?
      modifies this`selectedNode, this`nodeRectMap
      ensures Valid()
      ensures var m := TreemapNavigation.NavigateToSibling(tree, old(NavOf()), direction);
              Shows(m, old(nodeRectMap)) && fired == m.fired
    {
      SiblingKeepsValid(tree, NavOf(), direction);
      fired := None;
      var parent := FindParent(tree, currentRoot.value, selectedNode.value);
      if parent.None? {
        return;
      }
      var children := tree[parent.value].children;
      var newIndex := IndexOf(children, selectedNode.value) + direction;
      if 0 <= newIndex < |children| {
        selectedNode := Some(children[newIndex]);
        Render();
        fired := selectedNode;
      }
    }

    method NavigateToParent() returns (fired: Option<NodeId>)
      requires Valid() && selectedNode.Some?
      modifies this`selectedNode, this`nodeRectMap
      ensures Valid()
      ensures var m := TreemapNavigation.NavigateToParent(tree, old(NavOf()));
              Shows(m, old(nodeRectMap)) && fired == m.fired
    {
      ParentKeepsValid(tree, NavOf());
      fired := None;
      var parent := FindParent(tree, currentRoot.value, selectedNode.value);
      if parent.Some? {
        selectedNode := parent;
        Render();
        fired := selectedNode;
      }
    }

    method NavigateToFirstChild() returns (fired: Option<NodeId>)
      requires Valid() && selectedNode.Some?
      modifies this`selectedNode, this`nodeRectMap
      ensures Valid()
      ensures var m := TreemapNavigation.NavigateToFirstChild(tree, old(NavOf()));
              Shows(m, old(nodeRectMap)) && fired == m.fired
    {
      FirstChildKeepsValid(tree, NavOf());
      fired := None;
      var children := tree[selectedNode.value].children;
      if |children| > 0 {
        selectedNode := Some(children[0]);
        Render();
        fired := selectedNode;
      }
    }

    /** `zoomIn(node)` as the space key calls it, on the selection. */
    method ZoomIn(node: NodeId)
      requires Valid() && selectedNode == Some(node)
      modifies this`currentRoot, this`selectedNode, this`nodeRectMap
      ensures Valid()
      ensures Shows(TreemapNavigation.ZoomIn(tree, old(NavOf()), node), old(nodeRectMap))
    {
      ZoomInKeepsValid(tree, NavOf());
      if Expandable(tree, node) {
        currentRoot := Some(node);
        selectedNode := Some(node);
        Render();
      }
    }

    method ZoomOut() returns (fired: Option<NodeId>)
      requires Valid() && data.Some?
      modifies this`currentRoot, this`selectedNode, this`nodeRectMap
      ensures Valid()
      ensures var m := TreemapNavigation.ZoomOut(tree, old(NavOf()));
              Shows(m, old(nodeRectMap)) && fired == m.fired
    {
      ZoomOutKeepsValid(tree, NavOf());
      fired := None;
      if currentRoot != data {
        var parent := FindParent(tree, data.value, currentRoot.value);
        if parent.Some? {
          currentRoot := parent;
          selectedNode := parent;
          Render();
          fired := parent;
        }
      }
    }

    method ResetView() returns (fired: Option<NodeId>)
      requires Valid()
      modifies this`currentRoot, this`selectedNode, this`nodeRectMap
      ensures Valid()
      ensures var m := TreemapNavigation.ResetView(old(NavOf()));
              Shows(m, old(nodeRectMap)) && fired == m.fired
    {
      currentRoot := data;
      selectedNode := data;
      Render();
      fired := data;
    }

    /** `focusOnNode(target)`, called by the application when the list
        view selects `target`. */
    method FocusOnNode(target: NodeId) returns (fired: Option<NodeId>)
      requires Valid()
      modifies this`currentRoot, this`selectedNode, this`nodeRectMap
      ensures Valid()
      ensures var m := TreemapNavigation.FocusOnNode(tree, old(NavOf()), target);
              Shows(m, old(nodeRectMap)) && fired == m.fired
      ensures fired.Some? ==> fired == selectedNode
    {
      FocusKeepsValid(tree, NavOf(), target);
      fired := None;
      var inView := FindNodeInTree(tree, currentRoot, target);
      if inView.Some? {
        selectedNode := inView;
        Render();
        fired := inView;
      } else {
        ghost var oldRoot := currentRoot;
        currentRoot := data;
        var inFullTree := FindNodeInTree(tree, data, target);
        if inFullTree.Some? {
          selectedNode := inFullTree;
          Render();
          fired := inFullTree;
        } else if data.Some? {
          forall i | 0 <= i < |nodeRectMap|
            ensures Reaches(tree, data.value, nodeRectMap[i].node)
          {
            ReachesTransitive(tree, data.value, oldRoot.value, nodeRectMap[i].node);
          }
        }
      }
    }

    /** `updateColorMap(colorMap)`: take the (shared) map and render. */
    method UpdateColorMap(colors: ColorMap)
      requires Valid()
      modifies this`colorMap, this`nodeRectMap
      ensures Valid() && colorMap == colors && nodeRectMap == CurrentLayout()
    {
      colorMap := colors;
      Render();
    }

    /** `updateMinPixelSize(size)`: take the new cut-off and render. */
    method UpdateMinPixelSize(size: int)
      requires Valid()
      modifies this`minPixelSize, this`nodeRectMap
      ensures Valid() && minPixelSize == size && nodeRectMap == CurrentLayout()
    {
      minPixelSize := size;
      Render();
    }

    /** The window `resize` handler: adopt the container's size and render
        when data is loaded. */
    method Resize(width: nat, height: nat)
      requires Valid()
      modifies this`canvasWidth, this`canvasHeight, this`nodeRectMap
      ensures Valid() && canvasWidth == width && canvasHeight == height
      ensures nodeRectMap == if data.Some? then CurrentLayout() else old(nodeRectMap)
    {
      canvasWidth := width;
      canvasHeight := height;
      if data.Some? {
        Render();
      }
    }

    /** The colour `drawRect` fills a node's rectangle with: the directory
        colour, the shared map's colour for a file's non-empty mapped
        extension, the file colour for any other file. */
    function FillColor(n: NodeId): (c: string)
      reads this, colorMap
      requires n < |tree|
      ensures tree[n].directory ==> c == DirectoryColor
      ensures !tree[n].directory && tree[n].extension.Some? && tree[n].extension.value != "" &&
              tree[n].extension.value in colorMap.entries ==>
                c == colorMap.entries[tree[n].extension.value]
      ensures !tree[n].directory &&
              (tree[n].extension.None? || tree[n].extension.value == "" || tree[n].extension.value !in colorMap.entries) ==>
                c == FileColor
    {
      RectColor(tree[n], colorMap.entries)
    }
  }
}
