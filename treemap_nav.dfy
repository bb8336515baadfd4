/** The selection state machine of `TreemapVisualizer`: which node is the
    data root, which is the zoom root (`currentRoot`) and which is
    selected, and how clicks, keys, zooming and `focusOnNode` move them.
    Each move also says whether the view is rendered again and which node,
    if any, is passed to the select callback. */
module TreemapNavigation {
  import opened Wrappers
  import opened TreeModel

  /** `data`, `currentRoot` and `selectedNode`; `None` is `null`. */
  datatype Nav = Nav(data: Option<NodeId>, root: Option<NodeId>, selected: Option<NodeId>)

  /** The outcome of one move: the new state, whether `render()` ran, and
      the node handed to `onNodeSelect`, if any. */
  datatype Move = Move(nav: Nav, rendered: bool, fired: Option<NodeId>)

  datatype Key = ArrowLeft | ArrowRight | ArrowUp | ArrowDown | Space | Backspace | Escape | OtherKey

  /** Nothing loaded, or: the zoom root lies in the data tree and the
      selection lies under the zoom root. */
  ghost predicate NavValid(a: Arena, v: Nav) {
    && WellFormed(a)
    && match v.data
       case None => v.root.None? && v.selected.None?
       case Some(d) =>
         && d < |a| && v.root.Some? && v.selected.Some?
         && v.root.value < |a| && v.selected.value < |a|
         && Reaches(a, d, v.root.value) && Reaches(a, v.root.value, v.selected.value)
  }

  function Stay(v: Nav): Move {
    Move(v, false, None)
  }

  /** Select `m`, render, and report `m` to the callback. */
  function Select(v: Nav, m: NodeId): Move {
    Move(v.(selected := Some(m)), true, Some(m))
  }

  /** `Array.prototype.indexOf`: the first position of `x`, or -1. */
  function IndexOf(s: seq<NodeId>, x: NodeId): (r: int)
    ensures -1 <= r < |s|
    ensures r == -1 <==> x !in s
    ensures r >= 0 ==> s[r] == x && x !in s[..r]
  {
    if s == [] then -1
    else if s[0] == x then 0
    else
      var r := IndexOf(s[1..], x);
      assert forall y :: y in s ==> y == s[0] || y in s[1..];
      if r == -1 then -1
      else
        assert s[..r + 1] == [s[0]] + s[1..][..r];
        r + 1
  }

  /** `setData(d)`: everything points at the new root, which is rendered. */
  function SetData(v: Nav, d: NodeId): Move {
    Move(Nav(Some(d), Some(d), Some(d)), true, None)
  }

  /** `navigateToSibling(direction)`: move within the stored children of the
      selection's parent under the zoom root. */
  function NavigateToSibling(a: Arena, v: Nav, direction: int): Move
    requires NavValid(a, v) && v.selected.Some?
  {
    var parent := FindParent(a, v.root.value, v.selected.value);
    if parent.None? then Stay(v)
    else
      var children := a[parent.value].children;
      var newIndex := IndexOf(children, v.selected.value) + direction;
      if 0 <= newIndex < |children| then Select(v, children[newIndex]) else Stay(v)
  }

  /** `navigateToParent()`: the parent found under the zoom root. */
  function NavigateToParent(a: Arena, v: Nav): Move
    requires NavValid(a, v) && v.selected.Some?
  {
    match FindParent(a, v.root.value, v.selected.value)
    case Some(p) => Select(v, p)
    case None => Stay(v)
  }

  /** `navigateToFirstChild()`: the first stored child. */
  function NavigateToFirstChild(a: Arena, v: Nav): Move
    requires NavValid(a, v) && v.selected.Some?
  {
    var children := a[v.selected.value].children;
    if |children| > 0 then Select(v, children[0]) else Stay(v)
  }

  /** `zoomIn(node)`: a directory with children becomes zoom root and
      selection; the callback is not told. */
  function ZoomIn(a: Arena, v: Nav, node: NodeId): Move
    requires node < |a|
  {
    if Expandable(a, node) then Move(v.(root := Some(node), selected := Some(node)), true, None)
    else Stay(v)
  }

  /** `zoomOut()`: unless already at the data root, the zoom root's parent
      in the whole tree becomes zoom root and selection. */
  function ZoomOut(a: Arena, v: Nav): Move
    requires NavValid(a, v) && v.data.Some?
  {
    if v.root == v.data then Stay(v)
    else
      match FindParent(a, v.data.value, v.root.value)
      case Some(p) => Move(v.(root := Some(p), selected := Some(p)), true, Some(p))
      case None => Stay(v)
  }

  /** `resetView()`: back to the data root. */
  function ResetView(v: Nav): Move {
    Move(v.(root := v.data, selected := v.data), true, v.data)
  }

  /** `handleKeyPress(event)`: nothing while typing in a form field or with
      no selection; otherwise the move bound to the key. */
  function KeyPress(a: Arena, v: Nav, key: Key, inFormField: bool): Move
    requires NavValid(a, v)
  {
    if inFormField || v.selected.None? then Stay(v)
    else
      match key
      case ArrowLeft => NavigateToSibling(a, v, -1)
      case ArrowRight => NavigateToSibling(a, v, 1)
      case ArrowUp => NavigateToParent(a, v)
      case ArrowDown => NavigateToFirstChild(a, v)
      case Space => if Expandable(a, v.selected.value) then ZoomIn(a, v, v.selected.value) else Stay(v)
      case Backspace => ZoomOut(a, v)
      case Escape => ResetView(v)
      case OtherKey => Stay(v)
  }

  /** `handleClick(event)` once the hit test found `hit`: a plain click
      selects it, a ctrl-click its parent under the zoom root or else the
      zoom root; a miss does nothing. */
  function Click(a: Arena, v: Nav, hit: Option<NodeId>, ctrl: bool): Move
    requires NavValid(a, v)
    requires hit.Some? ==> v.root.Some?
  {
    match hit
    case None => Stay(v)
    case Some(m) =>
      if ctrl then Select(v, FindParent(a, v.root.value, m).GetOr(v.root.value))
      else Select(v, m)
  }

  /** The test of `findNodeInTree`: same path, or the very same node. */
  function MatchesNode(a: Arena, target: NodeId): NodeId -> bool {
    (m: NodeId) => (m < |a| && target < |a| && a[m].path == a[target].path) || m == target
  }

  /** `findNodeInTree(root, target)`: nothing under a `null` root. */
  function FindNodeInTree(a: Arena, root: Option<NodeId>, target: NodeId): Option<NodeId>
    requires WellFormed(a) && (root.Some? ==> root.value < |a|)
  {
    match root
    case None => None
    case Some(r) => PreorderFind(a, r, MatchesNode(a, target))
  }

  /** `focusOnNode(target)`: select the match under the zoom root; failing
      that, go back to the data root (even if nothing is found there) and
      select the match in the whole tree. */
  function FocusOnNode(a: Arena, v: Nav, target: NodeId): Move
    requires NavValid(a, v)
  {
    var inView := FindNodeInTree(a, v.root, target);
    if inView.Some? then Select(v, inView.value)
    else
      var reset := v.(root := v.data);
      var inFullTree := FindNodeInTree(a, v.data, target);
      if inFullTree.Some? then Select(reset, inFullTree.value) else Move(reset, false, None)
  }

  // ---------------------------------------------------------------------------
  // The invariant is kept by every move
  // ---------------------------------------------------------------------------

  /** What every move promises besides the invariant: the callback hears
      of the new selection only, and only after a render; the zoom root
      either stays or a renders follows, except when `focusOnNode` resets it
      to the data root. */
  ghost predicate WellBehaved(a: Arena, v: Nav, m: Move)
    requires NavValid(a, v)
  {
    && NavValid(a, m.nav)
    && m.nav.data == v.data
    && (m.fired.Some? ==> m.fired == m.nav.selected && m.rendered)
    && (!m.rendered ==> m.nav.root == v.root || m.nav.root == v.data)
  }

  lemma SiblingKeepsValid(a: Arena, v: Nav, direction: int)
    requires NavValid(a, v) && v.selected.Some?
    ensures WellBehaved(a, v, NavigateToSibling(a, v, direction))
  {
    var parent := FindParent(a, v.root.value, v.selected.value);
    FindParentCorrect(a, v.root.value, v.selected.value);
    if parent.Some? {
      var p := parent.value;
      var children := a[p].children;
      var newIndex := IndexOf(children, v.selected.value) + direction;
      if 0 <= newIndex < |children| {
        ReachesChild(a, p, newIndex);
        ReachesTransitive(a, v.root.value, p, children[newIndex]);
      }
    }
  }

  lemma ParentKeepsValid(a: Arena, v: Nav)
    requires NavValid(a, v) && v.selected.Some?
    ensures WellBehaved(a, v, NavigateToParent(a, v))
  {
    FindParentCorrect(a, v.root.value, v.selected.value);
  }

  lemma FirstChildKeepsValid(a: Arena, v: Nav)
    requires NavValid(a, v) && v.selected.Some?
    ensures WellBehaved(a, v, NavigateToFirstChild(a, v))
  {
    if |a[v.selected.value].children| > 0 {
      ReachesChild(a, v.selected.value, 0);
      ReachesTransitive(a, v.root.value, v.selected.value, a[v.selected.value].children[0]);
    }
  }

  lemma ZoomOutKeepsValid(a: Arena, v: Nav)
    requires NavValid(a, v) && v.data.Some?
    ensures WellBehaved(a, v, ZoomOut(a, v))
  {
    FindParentCorrect(a, v.data.value, v.root.value);
  }

  lemma ZoomInKeepsValid(a: Arena, v: Nav)
    requires NavValid(a, v) && v.selected.Some?
    ensures WellBehaved(a, v, ZoomIn(a, v, v.selected.value))
  {
    ReachesTransitive(a, v.data.value, v.root.value, v.selected.value);
  }

  /** Every key keeps the selection under the zoom root and the zoom root
      under the data root. */
  lemma KeyPressKeepsValid(a: Arena, v: Nav, key: Key, inFormField: bool)
    requires NavValid(a, v)
    ensures WellBehaved(a, v, KeyPress(a, v, key, inFormField))
  {
    if !inFormField && v.selected.Some? {
      match key
      case ArrowLeft => SiblingKeepsValid(a, v, -1);
      case ArrowRight => SiblingKeepsValid(a, v, 1);
      case ArrowUp => ParentKeepsValid(a, v);
      case ArrowDown => FirstChildKeepsValid(a, v);
      case Space => ZoomInKeepsValid(a, v);
      case Backspace => ZoomOutKeepsValid(a, v);
      case Escape =>
      case OtherKey =>
    }
  }

  lemma ClickKeepsValid(a: Arena, v: Nav, hit: Option<NodeId>, ctrl: bool)
    requires NavValid(a, v)
    requires hit.Some? ==> v.root.Some? && Reaches(a, v.root.value, hit.value)
    ensures WellBehaved(a, v, Click(a, v, hit, ctrl))
  {
    if hit.Some? {
      FindParentCorrect(a, v.root.value, hit.value);
      ReachesOrdered(a, v.root.value, hit.value);
    }
  }

  lemma FocusKeepsValid(a: Arena, v: Nav, target: NodeId)
    requires NavValid(a, v)
    ensures WellBehaved(a, v, FocusOnNode(a, v, target))
  {
    if v.data.Some? {
      PreorderFindCorrect(a, v.root.value, MatchesNode(a, target));
      PreorderFindCorrect(a, v.data.value, MatchesNode(a, target));
      var inView := FindNodeInTree(a, v.root, target);
      if inView.Some? {
        ReachesOrdered(a, v.root.value, inView.value);
      } else {
        var inFullTree := FindNodeInTree(a, v.data, target);
        if inFullTree.Some? {
          ReachesOrdered(a, v.data.value, inFullTree.value);
        } else {
          ReachesTransitive(a, v.data.value, v.root.value, v.selected.value);
        }
      }
    }
  }

  // ---------------------------------------------------------------------------
  // What each move does, in terms of the tree
  // ---------------------------------------------------------------------------

  /** The sibling keys move to the neighbouring position of the parent's
      stored children when there is one, and do nothing otherwise. */
  lemma SiblingMovesInStoredOrder(a: Arena, v: Nav, direction: int, p: NodeId, k: nat)
    requires NavValid(a, v) && TreeShaped(a) && v.selected.Some?
    requires p < |a| && k < |a[p].children| && a[p].children[k] == v.selected.value
    requires Reaches(a, v.root.value, p)
    ensures var m := NavigateToSibling(a, v, direction);
            if 0 <= k + direction < |a[p].children|
            then m == Select(v, a[p].children[k + direction])
            else m == Stay(v)
  {
    FindParentUnique(a, v.root.value, p, k);
    ChildrenDistinct(a, p);
  }

  /** At the zoom root the sibling and parent keys do nothing. */
  lemma AtZoomRootNoParent(a: Arena, v: Nav, direction: int)
    requires NavValid(a, v) && v.selected.Some? && v.selected == v.root
    ensures NavigateToSibling(a, v, direction) == Stay(v)
    ensures NavigateToParent(a, v) == Stay(v)
  {
    FindParentOfRootIsNone(a, v.root.value);
  }

  /** Below the zoom root the up key selects the real parent. */
  lemma ParentSelectsParent(a: Arena, v: Nav, p: NodeId, k: nat)
    requires NavValid(a, v) && TreeShaped(a) && v.selected.Some?
    requires p < |a| && k < |a[p].children| && a[p].children[k] == v.selected.value
    requires Reaches(a, v.root.value, p)
    ensures NavigateToParent(a, v) == Select(v, p)
  {
    FindParentUnique(a, v.root.value, p, k);
  }

  /** A ctrl-click on a node below the zoom root selects its real parent;
      on the zoom root itself it selects the zoom root. */
  lemma CtrlClickSelectsParent(a: Arena, v: Nav, hit: NodeId)
    requires NavValid(a, v) && TreeShaped(a) && v.root.Some? && Reaches(a, v.root.value, hit)
    ensures var m := Click(a, v, Some(hit), true);
            && m.fired == m.nav.selected
            && (hit == v.root.value ==> m.nav.selected == v.root)
            && (hit != v.root.value ==>
                  exists p :: 0 <= p < |a| && hit in a[p].children && m.nav.selected == Some(p) && Reaches(a, v.root.value, p))
  {
    FindParentCorrect(a, v.root.value, hit);
    if hit == v.root.value {
      FindParentOfRootIsNone(a, hit);
    } else {
      var k :| 0 <= k < |a[v.root.value].children| && Reaches(a, a[v.root.value].children[k], hit);
      assert ProperDescendant(a, v.root.value, hit);
    }
  }

  /** Zooming out from below the data root always finds the parent: the
      zoom root and the selection move one level up, and the callback
      hears of it. */
  lemma ZoomOutGoesUp(a: Arena, v: Nav)
    requires NavValid(a, v) && v.data.Some? && v.root != v.data
    ensures var m := ZoomOut(a, v);
            && m.nav.root.Some? && m.nav.root == m.nav.selected && m.fired == m.nav.root
            && v.root.value in a[m.nav.root.value].children
  {
    var d, r := v.data.value, v.root.value;
    FindParentCorrect(a, d, r);
    var k :| 0 <= k < |a[d].children| && Reaches(a, a[d].children[k], r) by {
      assert r != d;
    }
    assert ProperDescendant(a, d, r);
  }

  /** The same-path-or-same-node test is the path test: a node always has
      its own path. */
  lemma MatchesNodeIsSamePath(a: Arena, target: NodeId, m: NodeId)
    requires m < |a| && target < |a|
    ensures MatchesNode(a, target)(m) <==> a[m].path == a[target].path
  {
  }

  /** `focusOnNode` selects the first node, in pre-order under the zoom
      root, with the target's path; failing that the first one in the whole
      tree, after resetting the zoom root; and when there is none it resets
      the zoom root and changes nothing else. */
  lemma FocusSelectsFirstMatch(a: Arena, v: Nav, target: NodeId)
    requires NavValid(a, v) && v.data.Some?
    ensures var m := FocusOnNode(a, v, target);
            var inView := FirstSatisfying(Preorder(a, v.root.value), MatchesNode(a, target));
            var inFull := FirstSatisfying(Preorder(a, v.data.value), MatchesNode(a, target));
            if inView.Some? then m == Select(v, inView.value)
            else if inFull.Some? then m == Select(v.(root := v.data), inFull.value)
            else m == Move(v.(root := v.data), false, None)
  {
    PreorderFindIsFirst(a, v.root.value, MatchesNode(a, target));
    PreorderFindIsFirst(a, v.data.value, MatchesNode(a, target));
  }

  /** Paths are unique in the subtree of `r`. */
  ghost predicate UniquePaths(a: Arena, r: NodeId)
    requires WellFormed(a) && r < |a|
  {
    forall x: nat, y: nat :: Reaches(a, r, x) && Reaches(a, r, y) && x < |a| && y < |a| && a[x].path == a[y].path ==> x == y
  }

  /** When the target lies in the data tree, `focusOnNode` selects a node
      with its path, keeping the zoom root when the target lies under it;
      with unique paths it selects the target itself. */
  lemma FocusFindsTarget(a: Arena, v: Nav, target: NodeId)
    requires NavValid(a, v) && v.data.Some? && target < |a| && Reaches(a, v.data.value, target)
    ensures var m := FocusOnNode(a, v, target);
            && m.nav.selected.Some? && m.fired == m.nav.selected
            && m.nav.selected.value < |a|
            && a[m.nav.selected.value].path == a[target].path
            && (Reaches(a, v.root.value, target) ==> m.nav.root == v.root)
            && (UniquePaths(a, v.data.value) ==> m.nav.selected == Some(target))
  {
    var p := MatchesNode(a, target);
    ReachesOrdered(a, v.data.value, target);
    PreorderFindCorrect(a, v.root.value, p);
    PreorderFindCorrect(a, v.data.value, p);
    assert p(target);
    var m := FocusOnNode(a, v, target);
    var s := m.nav.selected.value;
    if FindNodeInTree(a, v.root, target).Some? {
      ReachesOrdered(a, v.root.value, s);
      ReachesTransitive(a, v.data.value, v.root.value, s);
    } else {
      ReachesOrdered(a, v.data.value, s);
    }
  }
}
