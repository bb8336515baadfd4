# DriveVisualizer, modelled in Dafny

DriveVisualizer scans a directory tree on the server and shows the result in
the browser in two linked views:

- a canvas **treemap** (`TreemapVisualizer`): a slice-and-dice layout with
  zoom, a keyboard-driven selection and a hit test;
- a collapsible **file list** (`FileTreeExplorer`): expanded directories
  show their children, directories first, then by size, with a percentage
  bar per row.

The page script keeps the two selections in step through a re-entrancy
flag (`syncingSelection`). It also turns the settings dialog's rows into
the extension-to-colour map the treemap paints files with. On the server,
two `FileNode` classes build the tree with size aggregation and sort it.
`ScanOptions` holds the scan settings.

The model has these parts:

| module | file | role |
|---|---|---|
| `Wrappers` | `wrappers.dfy` | holds `Option` (a `null` next to a value) and `Outcome` (a Java call that returns or throws). |
| `Text` | `text.dfy` | models ASCII lower-casing, `trim`, `lastIndexOf`, the extension rule and `compareToIgnoreCase`. |
| `Sorting` | `sorting.dfy` | is a stable insertion sort over any total preorder. It stands for `Array.prototype.sort` and `List.sort`; both are stable. |
| `TreeModel` | `tree_model.dfy` | is the scan result as the browser holds it. It is an arena of nodes whose child ids are larger than their parent's. On it sit the tree searches `findParent`, `findPathToNode` and the pre-order `find…` functions. |
| `TreemapLayout` | `treemap_layout.dfy` | has what `drawTreemap` records as functions, plus the hit test and the fill colour. |
| `TreemapNavigation` | `treemap_nav.dfy` | has the selection and zoom moves of the treemap, as pure functions on (data, zoom root, selection). |
| `ColorMaps` | `colors.dfy` | models the shared colour `Map` and what `updateColorMap` fills it with. |
| `TreemapView` | `treemap.dfy` | is the `TreemapVisualizer` class. Each method is proved to perform the move or record the layout defined above. |
| `FileTree` | `filetree.dfy` | is the `FileTreeExplorer` class, plus the visible rows, percentages and size colours as functions. |
| `Application` | `app.dfy` | is the page state of `app.js`: both views, the cross-view listeners, settings saving and resizing. |
| `ChildOrder` | `child_order.dfy` | is the comparator of both Java `sortChildren` methods: size descending, then name ignoring case. |
| `DriveFileNode` | `drive_file_node.dfy` | is `com.drivevisualizer.model.FileNode`, as a class with a ghost footprint `repr`. |
| `VobaFileNode` | `voba_file_node.dfy` | is `com.voba.model.FileNode`, path-based. A file's child list is absent. |
| `ScanSettings` | `scan_options.dfy` | is `com.voba.model.ScanOptions`. |

JavaScript nodes are objects compared by identity. Here they are arena ids:
two objects are the same node exactly when their ids are equal. A `Map`
keyed by nodes that keeps insertion order (`nodeRectMap`) is a sequence of
entries. A `Set` of nodes is a `set<NodeId>`. Callbacks are not functions
here: a method returns the node it would hand to its callback
(`fired`), and the application calls the other view's method with it.

## Model

| member | source | states |
|---|---|---|
| Text.LowerChar | src/main/java/com/drivevisualizer/model/FileNode.java:44 | Maps an upper-case ASCII letter to its lower-case form (code + 32). Every other character is kept. The result is never an upper-case letter. |
| Text.Lower | src/main/resources/static/js/app.js:216 | Keeps the length, lower-cases character by character, and leaves a string that is already lower-case unchanged. |
| Text.TrimStart | src/main/resources/static/js/app.js:216 | Returns a suffix of the input. Everything dropped is white space; the result is empty or starts with a non-space. |
| Text.TrimEnd | src/main/resources/static/js/app.js:216 | Returns a prefix of the input. Everything dropped is white space; the result is empty or ends with a non-space. |
| Text.Trim | src/main/resources/static/js/app.js:216 | Returns a contiguous part of the input with only white space around it. It carries no white space at either end. |
| Text.LastIndexOf | src/main/java/com/drivevisualizer/model/FileNode.java:43 | Returns -1 exactly when the character is absent. Otherwise it is a position holding the character with no occurrence after it. |
| Text.ExtensionOf | src/main/java/com/drivevisualizer/model/FileNode.java:42-45 | Gives none exactly when the name has no dot. Otherwise it is the lower-cased text after the last dot, and it is lower-case. |
| Text.CompareIgnoreCaseAntisymmetric | src/main/java/com/drivevisualizer/model/FileNode.java:71 | Swapping the two names negates the comparison. |
| Text.CompareIgnoreCaseTransitive | src/main/java/com/drivevisualizer/model/FileNode.java:71 | "No later than, ignoring case" is transitive. |
| Sorting.Insert | src/main/resources/static/js/treemap.js:106 | Insertion adds exactly one element (the multiset grows by it). |
| Sorting.InsertionSort | src/main/resources/static/js/treemap.js:106 | The sort keeps the length. |
| Sorting.InsertionSortPermutes | src/main/resources/static/js/treemap.js:106 | The sort is a permutation of its input. |
| Sorting.InsertSorted | src/main/resources/static/js/treemap.js:106 | Inserting into a sorted list under a total, transitive order keeps it sorted. |
| Sorting.InsertionSortSorted | src/main/resources/static/js/filetree.js:161-166 | Under a total, transitive order the output is sorted. |
| Sorting.SortMembers | src/main/resources/static/js/filetree.js:161-166 | An element is in the sorted list exactly when it is in the input. |
| Sorting.DistinctCounts | src/main/java/com/drivevisualizer/model/FileNode.java:66 | A duplicate-free list holds each element at most once. |
| Sorting.PermutationKeepsDistinct | src/main/java/com/drivevisualizer/model/FileNode.java:66 | Reordering a duplicate-free child list leaves it duplicate-free. |
| TreeModel.ReachesOrdered | src/main/resources/static/js/treemap.js:305-314 | A node in the subtree of `r` has an id no smaller than `r` and inside the arena. |
| TreeModel.ReachesChild | src/main/resources/static/js/treemap.js:308 | Every child is in its parent's subtree. |
| TreeModel.ReachesTransitive | src/main/resources/static/js/treemap.js:305-314 | Subtree membership is transitive. |
| TreeModel.ReachesThroughParent | src/main/resources/static/js/treemap.js:305-314 | In a forest, a path from `y` to a child of `x` (other than `y` itself) passes `x`. |
| TreeModel.ReachesLinear | src/main/resources/static/js/treemap.js:305-314 | In a forest, two ancestors of one node lie on one line. |
| TreeModel.SiblingSubtreesDisjoint | src/main/resources/static/js/treemap.js:308-312 | The subtrees of two different children of a node share no node. |
| TreeModel.NotProperDescendantOfSelf | src/main/resources/static/js/treemap.js:305-314 | No node lies strictly below itself. |
| TreeModel.PreorderMembers | src/main/resources/static/js/treemap.js:490-512 | A node is listed in the pre-order of `r` exactly when it lies in the subtree of `r`. |
| TreeModel.PreorderFromMembers | src/main/resources/static/js/treemap.js:504-509 | The listing of the children from position `k` on holds exactly the subtrees of those children. |
| TreeModel.FirstSatisfying | src/main/resources/static/js/treemap.js:490-512 | A result is a listed element that satisfies the test. None is returned exactly when no element does. |
| TreeModel.FirstSatisfyingAppend | src/main/resources/static/js/treemap.js:505-508 | The first match in `xs + ys` is the first match in `xs`, or else the first in `ys`. |
| TreeModel.PreorderFindIsFirst | src/main/resources/static/js/treemap.js:490-512 | The recursive search returns the first pre-order node that passes the test. |
| TreeModel.PreorderFindFromIsFirst | src/main/resources/static/js/treemap.js:504-509 | The loop over the children from `k` on returns the first match in their pre-order listing. |
| TreeModel.PreorderFindCorrect | src/main/resources/static/js/filetree.js:279-294 | A hit is a matching node of the subtree. Nothing is found exactly when no node of the subtree matches. |
| TreeModel.FindParent | src/main/resources/static/js/treemap.js:305-314 | `findParent(root, node)`: a result is a node of the arena. |
| TreeModel.FindParentFrom | src/main/resources/static/js/treemap.js:308-312 | The loop over the children from `k` on returns a node of the arena, if any. |
| TreeModel.FindParentCorrect | src/main/resources/static/js/treemap.js:305-314 | A parent is found exactly when `n` lies strictly below `r`, and it lists `n` as a child and lies in the subtree. |
| TreeModel.FindParentFromCorrect | src/main/resources/static/js/treemap.js:308-312 | The loop finds a parent exactly when `n` lies in or below a child from `k` on. |
| TreeModel.FindParentOfRootIsNone | src/main/resources/static/js/treemap.js:305-314 | The search never finds a parent for its own root. |
| TreeModel.FindParentUnique | src/main/resources/static/js/filetree.js:310-322 | In a forest, the parent found is the node that lists `n` as a child. |
| TreeModel.FindPathToNodeCorrect | src/main/resources/static/js/filetree.js:260-277 | A path is found exactly when the target is in the subtree. It runs from the root to the target through parent-child steps. |
| TreeModel.FindPathFromCorrect | src/main/resources/static/js/filetree.js:267-274 | The loop over the children from `k` on finds a path exactly when the target is below one of them. |
| TreeModel.SumSizesAppend | src/main/java/com/drivevisualizer/model/FileNode.java:53-60 | A list's summed size is additive over concatenation. |
| TreeModel.PermutationIds | src/main/resources/static/js/treemap.js:106 | A reordering of valid ids holds valid ids. |
| TreeModel.RemoveAt | src/main/resources/static/js/treemap.js:106 | Removing position `j` removes one occurrence of its element. |
| TreeModel.SumSizesRemove | src/main/resources/static/js/treemap.js:106 | The summed size splits into the removed element plus the rest. |
| TreeModel.SumSizesPermutation | src/main/resources/static/js/treemap.js:106-110 | Reordering children does not change their summed size. |
| TreeModel.MemberNoLargerThanSum | src/main/resources/static/js/treemap.js:110 | No child is larger than the sum of the children. |
| TreeModel.ChildNoLargerThanParent | src/main/resources/static/js/treemap.js:110 | Under size aggregation no child is larger than its parent, so a child's ratio is at most 1. |
| TreeModel.ChildrenDistinct | src/main/resources/static/js/treemap.js:274 | The child lists of a forest hold no id twice. |
| TreemapLayout.SliceRatioAsWritten | src/main/resources/static/js/treemap.js:110 | `child.size / node.size` as written. It is non-finite exactly when the node size is 0, and otherwise it is the quotient. |
| TreemapLayout.Ratio | src/main/resources/static/js/treemap.js:110 | The guarded ratio is non-negative, 0 for an empty node, and at most 1 for a child no larger than its node. |
| TreemapLayout.RatioIsQuotient | src/main/resources/static/js/treemap.js:110 | For a positive node size the guarded ratio is exactly the value the source computes. |
| TreemapLayout.ShareAdd | src/main/resources/static/js/treemap.js:110-130 | The extents given to two sizes add up to the extent given to their sum. |
| TreemapLayout.ShareBounds | src/main/resources/static/js/treemap.js:113-123 | A child's extent is non-negative and at most the parent's extent when its size is at most the total. |
| TreemapLayout.ShareWhole | src/main/resources/static/js/treemap.js:113-123 | The whole size receives the whole extent. |
| TreemapLayout.SliceRects | src/main/resources/static/js/treemap.js:107-131 | There is one child rectangle per child. |
| TreemapLayout.SliceRectsShape | src/main/resources/static/js/treemap.js:113-131 | Child rectangle `i` has the extent of its size's share along the slice axis, and the parent's full extent across it. |
| TreemapLayout.SliceRectsConsecutive | src/main/resources/static/js/treemap.js:107-130 | Each child rectangle starts where the previous one ended, the first at the running start position. |
| TreemapLayout.SliceRectsExtentSum | src/main/resources/static/js/treemap.js:107-131 | The children's extents add up to the share of their summed size. |
| TreemapLayout.SliceRectsTile | src/main/resources/static/js/treemap.js:106-135 | When the children's sizes add up to a positive total, the child rectangles tile the parent. They are consecutive from `rect.x` (or `rect.y`), span the cross axis, and their extents sum to the parent's. |
| TreemapLayout.SliceRectsInsideFrom | src/main/resources/static/js/treemap.js:107-131 | From a start position with room for the children's share, every child rectangle lies inside the parent. |
| TreemapLayout.SliceRectsInside | src/main/resources/static/js/treemap.js:106-135 | When the children add up to at most the total, every child rectangle lies inside the parent. |
| TreemapLayout.SortedChildren | src/main/resources/static/js/treemap.js:106 | The sorted copy has one entry per child, each a child of the node. |
| TreemapLayout.SortedChildrenPermutes | src/main/resources/static/js/treemap.js:106 | The sorted copy is a permutation of the children. |
| TreemapLayout.SortedChildrenDescending | src/main/resources/static/js/treemap.js:106 | The sorted copy is in descending size. |
| TreemapLayout.Layout | src/main/resources/static/js/treemap.js:85-136 | `drawTreemap` records the node with its rectangle first. |
| TreemapLayout.LayoutSliced | src/main/resources/static/js/treemap.js:106-135 | A node that is sliced records itself, then each sorted child's layout in the child's slice with the orientation flipped. |
| TreemapLayout.SliceLayoutsAreLayoutAll | src/main/resources/static/js/treemap.js:109-135 | The `forEach` that advances the position and recurses records the same as laying out the precomputed slices in order. |
| TreemapLayout.SliceLayoutsStep | src/main/resources/static/js/treemap.js:109-135 | One iteration of the `forEach`: the child's layout, then the rest from the advanced position. |
| TreemapLayout.LayoutTooSmall | src/main/resources/static/js/treemap.js:86-92 | A rectangle narrower or lower than `minPixelSize` records the node alone and nothing below it. |
| TreemapLayout.LayoutFlattens | src/main/resources/static/js/treemap.js:95-98 | An only child is laid out in exactly the parent's rectangle with the same orientation. |
| TreemapLayout.LayoutReaches | src/main/resources/static/js/treemap.js:85-136 | Every recorded node lies in the subtree of the node laid out. |
| TreemapLayout.FlatLayoutReaches | src/main/resources/static/js/treemap.js:95-98 | Below an only child, every recorded node lies in the subtree. |
| TreemapLayout.SlicedLayoutReaches | src/main/resources/static/js/treemap.js:106-135 | Below a sliced node, every recorded node lies in the subtree. |
| TreemapLayout.LayoutAllReaches | src/main/resources/static/js/treemap.js:109-135 | Each node recorded by the children's layouts lies below one of the children. |
| TreemapLayout.SortedChildrenAreKids | src/main/resources/static/js/treemap.js:106 | The sorted copy lists each child exactly once. |
| TreemapLayout.KidsSeparate | src/main/resources/static/js/treemap.js:109-135 | A node below one sorted child is not below another. |
| TreemapLayout.LayoutSplit | src/main/resources/static/js/treemap.js:85-136 | The layout is the node's own entry followed by the entries below it. |
| TreemapLayout.LayoutBelowIsBelow | src/main/resources/static/js/treemap.js:95-135 | The entries after the first are of nodes strictly below the node. |
| TreemapLayout.LayoutDistinct | src/main/resources/static/js/treemap.js:86 | In a forest no node is recorded twice in one pass, so `Map.set` never overwrites. |
| TreemapLayout.LayoutAllDistinct | src/main/resources/static/js/treemap.js:109-135 | The children's layouts together record no node twice. |
| TreemapLayout.FirstKidApart | src/main/resources/static/js/treemap.js:109-135 | Nodes recorded for the first child and for later children differ and are not ancestors of each other. |
| TreemapLayout.DistinctNodesConcat | src/main/resources/static/js/treemap.js:86 | Two duplicate-free entry lists with no node in common concatenate to one. |
| TreemapLayout.CutOffCons | src/main/resources/static/js/treemap.js:89-92 | Putting a large-enough node before entries of its descendants keeps the cut-off rule. |
| TreemapLayout.CutOffConcat | src/main/resources/static/js/treemap.js:89-92 | Two layouts that respect the cut-off, over unrelated nodes, respect it together. |
| TreemapLayout.KidSubtreesApart | src/main/resources/static/js/treemap.js:109-135 | Nodes below two different sorted children are unrelated. |
| TreemapLayout.LayoutAllApart | src/main/resources/static/js/treemap.js:109-135 | The first child's layout and the rest's layouts concern unrelated nodes. |
| TreemapLayout.ApartUnderKids | src/main/resources/static/js/treemap.js:109-135 | Entries below the first child and entries below later children are unrelated. |
| TreemapLayout.LayoutCutOff | src/main/resources/static/js/treemap.js:86-92 | No node whose rectangle is below `minPixelSize` has a descendant recorded in the same pass. |
| TreemapLayout.LayoutAllCutOff | src/main/resources/static/js/treemap.js:109-135 | The children's layouts respect the cut-off rule. |
| TreemapLayout.SegmentAtStart | src/main/resources/static/js/treemap.js:86 | A prefix sits at the start of its concatenation. |
| TreemapLayout.SegmentShift | src/main/resources/static/js/treemap.js:86 | A segment keeps its place, shifted, when something is recorded before it. |
| TreemapLayout.LayoutAllSegments | src/main/resources/static/js/treemap.js:109-135 | Each child's own layout appears as one contiguous block of the children's layouts. |
| TreemapLayout.LayoutChildLayouts | src/main/resources/static/js/treemap.js:134 | Each sorted child's layout, in its slice with the orientation flipped, is one contiguous block of the parent's layout. |
| TreemapLayout.LayoutSlicesTile | src/main/resources/static/js/treemap.js:106-135 | In an aggregated snapshot, a sliced node of positive size records its children in descending size. Their rectangles tile its rectangle along the slice axis. |
| TreemapLayout.EmptyDirectoriesShape | src/main/resources/static/js/treemap.js:110 | The example snapshot: a directory of size 0 over two empty directories of size 0. |
| TreemapLayout.EmptyDirectoriesDivideByZero | src/main/resources/static/js/treemap.js:106-110 | A well-formed, aggregated snapshot on an 800×600 canvas reaches the division with `node.size == 0`, where the ratio is not finite. |
| TreemapLayout.EmptyDirectoriesWellFormed | src/main/resources/static/js/treemap.js:110 | The example snapshot is a well-formed forest whose files have no children. |
| TreemapLayout.EmptyDirectoriesAggregated | src/main/resources/static/js/treemap.js:110 | The example snapshot obeys the scanner's size aggregation. |
| TreemapLayout.TwoEmptyChildren | src/main/resources/static/js/treemap.js:110 | Any arena of that shape is well formed, a forest, leaf-files and aggregated. |
| TreemapLayout.EmptyDirectoriesStayInside | src/main/resources/static/js/treemap.js:106-135 | With the guarded ratio the same snapshot gives zero-width slices inside the canvas. |
| TreemapLayout.SmallestIndex | src/main/resources/static/js/treemap.js:326-341 | A result is a position of the entry list. |
| TreemapLayout.SmallestIndexCorrect | src/main/resources/static/js/treemap.js:326-341 | Nothing is found exactly when no rectangle contains the point, edges included. Otherwise the entry contains it, has the least area of those that do, and no earlier containing entry has that area. |
| TreemapLayout.SmallestIndexSkipsTwins | src/main/resources/static/js/treemap.js:334 | An entry with the same rectangle as an earlier one is never the answer (strict `<`). |
| TreemapLayout.FlattenedChildNeverHit | src/main/resources/static/js/treemap.js:95-98 | Below an only child, the child's entry is never the hit; its parent wins the tie. |
| TreemapLayout.RectColor | src/main/resources/static/js/treemap.js:138-146 | The colour is the directory colour `#4a90e2`, the file colour `#95a5a6` or a colour of the map. Every directory gets the first. A file without an extension, with the empty extension or with an unmapped one gets the file colour. A file shows any other colour only as the colour mapped to its own extension. |
| TreemapNavigation.IndexOf | src/main/resources/static/js/treemap.js:274 | Returns -1 exactly when absent. Otherwise it is the first position holding the element. |
| TreemapNavigation.SiblingKeepsValid | src/main/resources/static/js/treemap.js:270-282 | `navigateToSibling` keeps the selection under the zoom root and the zoom root under the data root. It reports only the new selection, after a render. |
| TreemapNavigation.ParentKeepsValid | src/main/resources/static/js/treemap.js:284-291 | `navigateToParent` keeps the invariant and reports only the new selection. |
| TreemapNavigation.FirstChildKeepsValid | src/main/resources/static/js/treemap.js:293-299 | `navigateToFirstChild` keeps the invariant and reports only the new selection. |
| TreemapNavigation.ZoomOutKeepsValid | src/main/resources/static/js/treemap.js:355-365 | `zoomOut` keeps the invariant and reports only the new selection. |
| TreemapNavigation.ZoomInKeepsValid | src/main/resources/static/js/treemap.js:347-353 | `zoomIn` on the selection keeps the invariant and reports nothing. |
| TreemapNavigation.KeyPressKeepsValid | src/main/resources/static/js/treemap.js:229-264 | Every key, in or out of a form field, keeps the invariant. |
| TreemapNavigation.ClickKeepsValid | src/main/resources/static/js/treemap.js:205-227 | A click on a recorded node, or a miss, keeps the invariant. |
| TreemapNavigation.FocusKeepsValid | src/main/resources/static/js/treemap.js:465-487 | `focusOnNode` keeps the invariant. Without a render it leaves the zoom root alone or resets it to the data root. |
| TreemapNavigation.SiblingMovesInStoredOrder | src/main/resources/static/js/treemap.js:270-282 | Below the zoom root, the arrow keys select the neighbour at position ± 1 of the parent's stored children when it exists, and do nothing otherwise. |
| TreemapNavigation.AtZoomRootNoParent | src/main/resources/static/js/treemap.js:270-291 | At the zoom root the sibling and parent keys do nothing. |
| TreemapNavigation.ParentSelectsParent | src/main/resources/static/js/treemap.js:284-291 | Below the zoom root the up key selects the real parent. |
| TreemapNavigation.CtrlClickSelectsParent | src/main/resources/static/js/treemap.js:208-219 | A ctrl-click below the zoom root selects the real parent. On the zoom root it selects the zoom root. |
| TreemapNavigation.ZoomOutGoesUp | src/main/resources/static/js/treemap.js:355-365 | Zooming out from below the data root always finds the parent, which becomes zoom root and selection and is reported. |
| TreemapNavigation.MatchesNodeIsSamePath | src/main/resources/static/js/treemap.js:494-501 | The path-or-identity test is the path test, since a node has its own path. |
| TreemapNavigation.FocusSelectsFirstMatch | src/main/resources/static/js/treemap.js:465-487 | `focusOnNode` selects the first pre-order match under the zoom root. Failing that, it resets to the data root and selects the first match there. With no match at all it only resets the zoom root. |
| TreemapNavigation.FocusFindsTarget | src/main/resources/static/js/treemap.js:465-487 | A target in the data tree is always selected by a same-path node. With unique paths it is the target itself. |
| TreemapView.MinPixelSizeOr | src/main/resources/static/js/treemap.js:14 | A missing or zero value falls back to 10; any other value is kept. |
| TreemapView.TreemapVisualizer.constructor | src/main/resources/static/js/treemap.js:6-24 | Nothing is loaded or selected, the map is empty, the shared colour map is taken, and the cut-off is the fallback value. |
| TreemapView.TreemapVisualizer.Render | src/main/resources/static/js/treemap.js:59-83 | With data loaded, the map becomes exactly the layout of the zoom root in the full canvas, all of it under the zoom root. |
| TreemapView.TreemapVisualizer.DrawTreemap | src/main/resources/static/js/treemap.js:85-136 | Appends exactly the layout of the node to the map. |
| TreemapView.TreemapVisualizer.DrawSlices | src/main/resources/static/js/treemap.js:109-135 | The `forEach` appends exactly the layouts of the children in their slices. |
| TreemapView.TreemapVisualizer.FindSmallestNodeAtPosition | src/main/resources/static/js/treemap.js:326-341 | The running minimum returns the hit-test function's answer. |
| TreemapView.TreemapVisualizer.SetData | src/main/resources/static/js/treemap.js:48-53 | Data, zoom root and selection become the new root, and it is rendered. |
| TreemapView.TreemapVisualizer.HandleClick | src/main/resources/static/js/treemap.js:200-227 | Performs the click move on the hit node and reports the new selection. |
| TreemapView.TreemapVisualizer.HitIsRecorded | src/main/resources/static/js/treemap.js:326-341 | A hit is always a recorded node, and so lies under the zoom root. |
| TreemapView.TreemapVisualizer.HandleKeyPress | src/main/resources/static/js/treemap.js:229-264 | Performs the key move and reports the new selection. |
| TreemapView.TreemapVisualizer.NavigateToSibling | src/main/resources/static/js/treemap.js:270-282 | Performs the sibling move. |
| TreemapView.TreemapVisualizer.NavigateToParent | src/main/resources/static/js/treemap.js:284-291 | Performs the parent move. |
| TreemapView.TreemapVisualizer.NavigateToFirstChild | src/main/resources/static/js/treemap.js:293-299 | Performs the first-child move. |
| TreemapView.TreemapVisualizer.ZoomIn | src/main/resources/static/js/treemap.js:347-353 | Performs the zoom-in move. |
| TreemapView.TreemapVisualizer.ZoomOut | src/main/resources/static/js/treemap.js:355-365 | Performs the zoom-out move. |
| TreemapView.TreemapVisualizer.ResetView | src/main/resources/static/js/treemap.js:367-372 | Performs the reset move. |
| TreemapView.TreemapVisualizer.FocusOnNode | src/main/resources/static/js/treemap.js:465-487 | Performs the focus move and reports the new selection. |
| TreemapView.TreemapVisualizer.UpdateColorMap | src/main/resources/static/js/treemap.js:454-457 | Takes the map and records the current layout again. |
| TreemapView.TreemapVisualizer.UpdateMinPixelSize | src/main/resources/static/js/treemap.js:459-462 | Takes the cut-off and records the current layout again. |
| TreemapView.TreemapVisualizer.Resize | src/main/resources/static/js/treemap.js:27-37 | Adopts the container size and, with data loaded, records the layout for it. |
| TreemapView.TreemapVisualizer.FillColor | src/main/resources/static/js/treemap.js:138-146 | A directory is filled with the directory colour. A file with a non-empty extension that the shared map holds gets the map's colour for it. Every other file gets the file colour. |
| ColorMaps.ColorMap.constructor | src/main/resources/static/js/app.js:9 | The shared map starts empty. |
| ColorMaps.ColorMapOfLookup | src/main/resources/static/js/app.js:281-288 | A key is present exactly when some kept mapping lower-cases to it, and its colour is that of the last such mapping. |
| ColorMaps.ColorMapOfKeys | src/main/resources/static/js/app.js:283-286 | The keys are exactly the lower-cased extensions of the mappings with a non-empty extension and colour. |
| ColorMaps.ColorMapOfLastWins | src/main/resources/static/js/app.js:285 | A later `set` for the same key overwrites an earlier one. |
| ColorMaps.ColorMapOfKeysLower | src/main/resources/static/js/app.js:285 | Every key is lower-case. |
| FileTree.DirectoriesFirstIsPreorder | src/main/resources/static/js/filetree.js:161-166 | The list comparator is total and transitive. |
| FileTree.ListOrder | src/main/resources/static/js/filetree.js:161-166 | The sorted copy has one entry per child, each a child. |
| FileTree.ListOrderPermutes | src/main/resources/static/js/filetree.js:161-166 | The list shows each child as often as it is stored. |
| FileTree.ListOrderDirectoriesFirst | src/main/resources/static/js/filetree.js:161-166 | Directories come before files, and within each kind larger entries come first. |
| FileTree.Rows | src/main/resources/static/js/filetree.js:51-179 | The first row is the node at its level. |
| FileTree.HasRowAppend | src/main/resources/static/js/filetree.js:168-170 | A node has a row in two row lists together exactly when it has one in either. |
| FileTree.RowsAreShown | src/main/resources/static/js/filetree.js:51-179 | A node gets a row exactly when it is shown: it is the root, or it lies below it with every ancestor in between an expanded non-empty directory. |
| FileTree.RowsOfAreShown | src/main/resources/static/js/filetree.js:168-170 | The children's rows are exactly those of the nodes shown under some child. |
| FileTree.ShownReaches | src/main/resources/static/js/filetree.js:51-179 | Only nodes of the subtree are shown. |
| FileTree.ShownAfterSetData | src/main/resources/static/js/filetree.js:19-31 | Right after `setData(d)` the list shows the root and, when it is a non-empty directory, its children, and nothing else. |
| FileTree.AllExpandedShowsSubtree | src/main/resources/static/js/filetree.js:153-176 | With every non-empty directory of the subtree expanded, exactly the subtree is shown. |
| FileTree.Toggled | src/main/resources/static/js/filetree.js:185-192 | Flips the membership of the node and no other. |
| FileTree.ToggleTwiceRestores | src/main/resources/static/js/filetree.js:185-192 | Toggling twice restores the set. |
| FileTree.ExpandableBelowExactly | src/main/resources/static/js/filetree.js:214-219 | `expandAllNodes` adds exactly the non-empty directories of the subtree. |
| FileTree.ExpandableKidsExactly | src/main/resources/static/js/filetree.js:217 | The calls on the first `k` children add exactly the non-empty directories below them. |
| FileTree.ChildPathReaches | src/main/resources/static/js/filetree.js:260-277 | Every element of a child path lies below its first and above its last. |
| FileTree.PathExpansionOnThePath | src/main/resources/static/js/filetree.js:248-258 | `expandToNode` adds only non-empty directories on the way from the root to the target, and nothing for a target outside the tree. |
| FileTree.ExpandedPathShows | src/main/resources/static/js/filetree.js:153-176 | A child path whose inner nodes are expanded shows its last node. |
| FileTree.ExpandToNodeReveals | src/main/resources/static/js/filetree.js:248-258 | After `expandToNode(t)` the target is shown. |
| FileTree.FindNodeByPathCorrect | src/main/resources/static/js/filetree.js:279-294 | Returns the first pre-order node with the path. A result lies in the subtree and has that path. Nothing is found exactly when no node does. |
| FileTree.SizePercentage | src/main/resources/static/js/filetree.js:100 | The clamped percentage lies in 0..100. It is `NaN` exactly for 0 over 0. |
| FileTree.SharePercentage | src/main/resources/static/js/filetree.js:100 | A part of a positive reference gets its exact share, unclamped. |
| FileTree.RootPercentage | src/main/resources/static/js/filetree.js:96-101 | The root's bar is full, or `NaN` for an empty root. |
| FileTree.ChildPercentage | src/main/resources/static/js/filetree.js:96-101 | Below the root, a node is measured against its real parent. In an aggregated snapshot it gets its exact share, or `NaN` when the parent is empty. |
| FileTree.SizeBand | src/main/resources/static/js/filetree.js:324-337 | One of five bands; `NaN` lands in the last. |
| FileTree.SizeBandMonotone | src/main/resources/static/js/filetree.js:324-337 | A larger share never gets a band closer to green. |
| FileTree.SizeColorEdges | src/main/resources/static/js/filetree.js:326-336 | Below 25 is green `#28a745`. From 90 on, and `NaN`, is red `#dc3545`. |
| FileTree.FileTreeExplorer.constructor | src/main/resources/static/js/filetree.js:6-13 | Nothing loaded, expanded or selected. |
| FileTree.FileTreeExplorer.SetData | src/main/resources/static/js/filetree.js:19-31 | Only the root is expanded and selected. A `null` snapshot clears the set and leaves the selection. |
| FileTree.FileTreeExplorer.ToggleExpand | src/main/resources/static/js/filetree.js:185-192 | The set is toggled at the node. |
| FileTree.FileTreeExplorer.SelectNode | src/main/resources/static/js/filetree.js:194-207 | Selects the node and reports it once. |
| FileTree.FileTreeExplorer.ExpandAll | src/main/resources/static/js/filetree.js:209-212 | Adds the non-empty directories of the whole tree. |
| FileTree.FileTreeExplorer.ExpandAllNodes | src/main/resources/static/js/filetree.js:214-219 | Adds the non-empty directories of the node's subtree. |
| FileTree.FileTreeExplorer.CollapseAll | src/main/resources/static/js/filetree.js:221-227 | Only the root stays expanded, and nothing without data. |
| FileTree.FileTreeExplorer.ExpandToNode | src/main/resources/static/js/filetree.js:248-258 | Adds the non-empty directories on the path to the target. |
| FileTree.FileTreeExplorer.SelectNodeExternal | src/main/resources/static/js/filetree.js:241-246 | A `null` node changes nothing. Otherwise the path to it is expanded and it is selected and reported. |
| FileTree.FileTreeExplorer.SelectNodeByPath | src/main/resources/static/js/filetree.js:233-239 | Reports the node the path search finds. An unknown path changes nothing; a found node is revealed and selected. |
| Application.CleanExtensionIsClean | src/main/resources/static/js/app.js:216 | A trimmed, lower-cased extension is empty or a clean key (non-empty, lower-case, no white space at either end). |
| Application.LowerEnds | src/main/resources/static/js/app.js:216 | Lower-casing keeps each end white space or not. |
| Application.LowerKeepsWhitespace | src/main/resources/static/js/app.js:216 | Lower-casing never turns a character into white space or back. |
| Application.CleanExtensionCleans | src/main/resources/static/js/app.js:216 | The cleaning function always yields nothing or a clean key. |
| Application.CleanedBy | src/main/resources/static/js/app.js:215-218 | One cleaned mapping per row. |
| Application.NonEmptyMembers | src/main/resources/static/js/app.js:219-224 | The filter keeps exactly the mappings with an extension, and never adds any. |
| Application.NonEmptyAppend | src/main/resources/static/js/app.js:215-225 | The filter works mapping by mapping. |
| Application.NonEmptyIsHarmless | src/main/resources/static/js/app.js:219-224 | Dropping mappings with an empty extension does not change the colour map built from them. |
| Application.CleanedByKeys | src/main/resources/static/js/app.js:215-225 | With a cleaning function that yields clean keys, every kept extension is clean. |
| Application.MappingsFromRowsClean | src/main/resources/static/js/app.js:212-225 | At most one mapping per row, each with a clean extension. |
| Application.CleanedByAppend | src/main/resources/static/js/app.js:215 | Cleaning works row by row. |
| Application.MappingsFromRowsAppend | src/main/resources/static/js/app.js:215-225 | Collecting keeps row order: two lists of rows give the mappings of each, one after the other. |
| Application.NonEmptyOfOne | src/main/resources/static/js/app.js:219 | One mapping survives the filter exactly when its extension is non-empty. |
| Application.MappingsFromOneRow | src/main/resources/static/js/app.js:216-224 | One row gives its cleaned mapping when the cleaned extension is non-empty, nothing otherwise. |
| Application.SavedColorLookup | src/main/resources/static/js/app.js:212-288 | After saving, an extension is mapped exactly when some row with a colour cleans to it. Its colour is that of the last such row. |
| Application.FileColorAfterSave | src/main/resources/static/js/treemap.js:138-146 | A file with an extension is painted the colour of the last row that sets it, and the file colour when no row does. |
| Application.App.constructor | src/main/resources/static/js/app.js:5-71 | Nothing loaded or selected, no row mappings, cut-off 10, and one empty colour map shared with the treemap. |
| Application.App.OnTreemapSelect | src/main/resources/static/js/app.js:39-65 | While syncing it does nothing. Otherwise it makes exactly one call into the file list, which expands the path and selects the node; the treemap is untouched and the flag restored. |
| Application.App.OnFileTreeSelect | src/main/resources/static/js/app.js:74-86 | While syncing it does nothing. Otherwise it makes exactly one `focusOnNode` call; the list is untouched and the flag restored. |
| Application.App.FiredMeansLoaded | src/main/resources/static/js/app.js:39-65 | A node the treemap reports is a node of the loaded data. |
| Application.App.TreemapClick | src/main/resources/static/js/treemap.js:200-227 | The treemap performs the click move. A reported node is passed once to the list, and the two selections then agree. |
| Application.App.TreemapKeyPress | src/main/resources/static/js/treemap.js:229-264 | The treemap performs the key move. A reported node is passed once to the list, and the selections then agree. |
| Application.App.FileTreeRowClick | src/main/resources/static/js/filetree.js:138-140 | The list selects the node, and one focus call reaches the treemap. With the node in the data and unique paths, the treemap selects the same node. |
| Application.App.ScanLoaded | src/main/resources/static/js/app.js:163-172 | Both views load the root, and their selections agree on it. |
| Application.App.WindowResized | src/main/resources/static/js/app.js:415-419 | The treemap takes the new size and, with data loaded, the layout for it. |
| Application.App.UpdateColorMap | src/main/resources/static/js/app.js:281-288 | The shared map becomes exactly the map of the stored mappings. |
| Application.App.CollectMappings | src/main/resources/static/js/app.js:212-225 | The stored mappings become exactly those collected from the rows. |
| Application.App.SaveSettings | src/main/resources/static/js/app.js:203-255 | Takes the cut-off fallback and the collected mappings. Only when the backend accepts them are the colour map rebuilt and the treemap updated; otherwise both are unchanged. |
| Application.App.ApplySettings | src/main/resources/static/js/app.js:241-245 | The colour map is rebuilt and the treemap takes the cut-off and the map and renders. |
| ChildOrder.KeyLeqTotal | src/main/java/com/drivevisualizer/model/FileNode.java:66-72 | Any two keys are ordered one way or the other. |
| ChildOrder.KeyLeqTransitive | src/main/java/com/drivevisualizer/model/FileNode.java:66-72 | The comparator's order is transitive. |
| ChildOrder.SortKeyed | src/main/java/com/drivevisualizer/model/FileNode.java:66 | The sort keeps the length. |
| ChildOrder.Items | src/main/java/com/drivevisualizer/model/FileNode.java:66 | Dropping keys keeps every element in its place. |
| ChildOrder.SortKeyedCorrect | src/main/java/com/drivevisualizer/model/FileNode.java:66-72 | The sorted pairs are in comparator order and a permutation of the input. |
| ChildOrder.ItemsCons | src/main/java/com/drivevisualizer/model/FileNode.java:66 | Dropping keys commutes with putting one pair in front. |
| ChildOrder.ItemsOfInsert | src/main/java/com/drivevisualizer/model/FileNode.java:66 | Inserting a pair adds its element once. |
| ChildOrder.ItemsOfSort | src/main/java/com/drivevisualizer/model/FileNode.java:66 | Sorting the pairs permutes the elements. |
| ChildOrder.KeySumOfInsert | src/main/java/com/drivevisualizer/model/FileNode.java:66 | Inserting a pair adds its size to the total. |
| ChildOrder.KeySumOfSort | src/main/java/com/drivevisualizer/model/FileNode.java:66 | Sorting keeps the total size. |
| ChildOrder.PermutationMembers | src/main/java/com/drivevisualizer/model/FileNode.java:66 | Every pair of a permutation occurs in the original. |
| DriveFileNode.ExtensionFor | src/main/java/com/drivevisualizer/model/FileNode.java:42-45 | None exactly for a directory or a dotless name. Otherwise it is the lower-cased text after the last dot. |
| DriveFileNode.SizeSumSnoc | src/main/java/com/drivevisualizer/model/FileNode.java:53-60 | Appending a child adds its size to the children's sum. |
| DriveFileNode.SizeSumOfItems | src/main/java/com/drivevisualizer/model/FileNode.java:66-72 | With keys holding each child's size, the children's sum is the keys' sum. |
| DriveFileNode.SizeSumAppend | src/main/java/com/drivevisualizer/model/FileNode.java:65-79 | The summed size of two lists together is the sum of theirs. |
| DriveFileNode.SizeSumRemove | src/main/java/com/drivevisualizer/model/FileNode.java:65-79 | Taking one node out of a list takes its size out of the sum. |
| DriveFileNode.RemoveAt | src/main/java/com/drivevisualizer/model/FileNode.java:65-79 | Taking one position out of a list takes one copy of its node out of the multiset. |
| DriveFileNode.SizeSumPermutation | src/main/java/com/drivevisualizer/model/FileNode.java:65-79 | Any reordering of a child list has the same summed size. |
| DriveFileNode.SizeSumOfUnchangedSizes | src/main/java/com/drivevisualizer/model/FileNode.java:65-79 | A list of nodes whose sizes did not change sums to what it summed to before. |
| DriveFileNode.SumsKept | src/main/java/com/drivevisualizer/model/FileNode.java:65-79 | A node whose children were only reordered, with no size changed, and whose size was its children's sum keeps that property. |
| DriveFileNode.FileNode.Default | src/main/java/com/drivevisualizer/model/FileNode.java:23-26 | Size 0, no children, a single-node tree whose size is its children's sum. |
| DriveFileNode.FileNode.constructor | src/main/java/com/drivevisualizer/model/FileNode.java:35-46 | Name, path and kind as given, the derived extension, size 0, no children. |
| DriveFileNode.FileNode.AddChild | src/main/java/com/drivevisualizer/model/FileNode.java:53-60 | Appends the child and adds its size, nothing else. Size equals the children's sum before implies it after, and a separate subtree keeps the tree a tree. |
| DriveFileNode.FileNode.KeyedChildren | src/main/java/com/drivevisualizer/model/FileNode.java:66-72 | Pairs each child with the comparator's key. |
| DriveFileNode.FileNode.SortChildren | src/main/java/com/drivevisualizer/model/FileNode.java:65-79 | The children end in comparator order and every directory below is sorted too (deep-sorted). Every node of the tree keeps exactly the same children, only reordered. No size anywhere changes. Every node whose size was the sum of its children's, at any depth, still has that property. |
| DriveFileNode.FileNode.SortSubdirectories | src/main/java/com/drivevisualizer/model/FileNode.java:74-78 | The loop over the children: this node's list stays as it is, and each directory child ends deep-sorted. Every node of the tree keeps the same children as a multiset, and no size changes. |
| DriveFileNode.FileNode.ReorderChildren | src/main/java/com/drivevisualizer/model/FileNode.java:66-72 | The first step: the children permuted into key order under unchanged sizes. |
| DriveFileNode.FileNode.ChildSortedInPlace | src/main/java/com/drivevisualizer/model/FileNode.java:74-78 | After child `k` has sorted its own subtree, this node is still a tree, and every other directory child that was deep-sorted still is. |
| DriveFileNode.FileNode.SortedAfterward | src/main/java/com/drivevisualizer/model/FileNode.java:66-72 | Children equal to sorted pairs whose keys still match are in comparator order and sum to the keys' total. |
| DriveFileNode.FileNode.SortOrdersChildren | src/main/java/com/drivevisualizer/model/FileNode.java:66-72 | The sorted pairs are a permutation in key order that keeps each key and the total size. |
| VobaFileNode.ExtensionFor | src/main/java/com/voba/model/FileNode.java:30-40 | None exactly for a directory, a path without a name, or a dotless name. Otherwise it is the lower-cased text after the last dot of the name. |
| VobaFileNode.SizeSumSnoc | src/main/java/com/voba/model/FileNode.java:48-55 | Appending a child adds its size to the children's sum. |
| VobaFileNode.SizeSumOfItems | src/main/java/com/voba/model/FileNode.java:63-70 | With keys holding each child's size, the children's sum is the keys' sum. |
| VobaFileNode.SizeSumAppend | src/main/java/com/voba/model/FileNode.java:58-77 | The summed size of two lists together is the sum of theirs. |
| VobaFileNode.SizeSumRemove | src/main/java/com/voba/model/FileNode.java:58-77 | Taking one node out of a list takes its size out of the sum. |
| VobaFileNode.RemoveAt | src/main/java/com/voba/model/FileNode.java:58-77 | Taking one position out of a list takes one copy of its node out of the multiset. |
| VobaFileNode.SizeSumPermutation | src/main/java/com/voba/model/FileNode.java:58-77 | Any reordering of a child list has the same summed size. |
| VobaFileNode.SizeSumOfUnchangedSizes | src/main/java/com/voba/model/FileNode.java:58-77 | A list of nodes whose sizes did not change sums to what it summed to before. |
| VobaFileNode.SumsKept | src/main/java/com/voba/model/FileNode.java:58-77 | A node whose children were only reordered, with no size changed, and whose size was its children's sum keeps that property. |
| VobaFileNode.FileNode.GetName | src/main/java/com/voba/model/FileNode.java:79-81 | The last path element, or the whole path when it has none. |
| VobaFileNode.FileNode.IsDirectory | src/main/java/com/voba/model/FileNode.java:95-97 | A directory exactly when the child list exists, fixed at construction. |
| VobaFileNode.FileNode.GetChildren | src/main/java/com/voba/model/FileNode.java:99-101 | A directory's children; the empty list for a file. |
| VobaFileNode.FileNode.constructor | src/main/java/com/voba/model/FileNode.java:24-41 | Path and kind as given, the derived extension, size 0, no children. |
| VobaFileNode.FileNode.SetSize | src/main/java/com/voba/model/FileNode.java:107-109 | The size becomes the given value. |
| VobaFileNode.FileNode.AddChild | src/main/java/com/voba/model/FileNode.java:48-55 | Fails exactly on a file (`NullPointerException`), changing nothing. On a directory it appends the child and adds its size, keeping size-as-sum and the tree shape. |
| VobaFileNode.FileNode.KeyedChildren | src/main/java/com/voba/model/FileNode.java:63-70 | Pairs each child with the comparator's key. |
| VobaFileNode.FileNode.SortChildren | src/main/java/com/voba/model/FileNode.java:58-77 | A no-op on a file. A directory's children end in comparator order, and every directory below is sorted too (deep-sorted). Every node of the tree keeps exactly the same children, only reordered. No size changes. Size-as-sum is kept at every depth. |
| VobaFileNode.FileNode.SortSubdirectories | src/main/java/com/voba/model/FileNode.java:72-76 | The loop over the children: this node's list stays as it is, and each directory child ends deep-sorted. Every node of the tree keeps the same children as a multiset, and no size changes. |
| VobaFileNode.FileNode.ReorderChildren | src/main/java/com/voba/model/FileNode.java:63-70 | The first step: the children permuted into key order under unchanged sizes. |
| VobaFileNode.FileNode.ChildSortedInPlace | src/main/java/com/voba/model/FileNode.java:72-76 | After child `k` has sorted its own subtree, this node is still a tree, and every other directory child that was deep-sorted still is. |
| VobaFileNode.FileNode.SortedAfterward | src/main/java/com/voba/model/FileNode.java:63-70 | Children equal to sorted pairs whose keys still match are in comparator order and sum to the keys' total. |
| VobaFileNode.FileNode.SortOrdersChildren | src/main/java/com/voba/model/FileNode.java:63-70 | The sorted pairs are a permutation in key order that keeps each key and the total size. |
| ScanSettings.ScanOptions.constructor | src/main/java/com/voba/model/ScanOptions.java:9-20 | Hidden files excluded, no parallel processing, threads = available processors, so at least one. |
| ScanSettings.ScanOptions.SetIncludeHiddenFiles | src/main/java/com/voba/model/ScanOptions.java:38-41 | Sets that field only and returns the same object; the thread invariant is kept. |
| ScanSettings.ScanOptions.SetUseParallelProcessing | src/main/java/com/voba/model/ScanOptions.java:60-63 | Sets that field only and returns the same object; the thread invariant is kept. |
| ScanSettings.ScanOptions.SetMaxThreads | src/main/java/com/voba/model/ScanOptions.java:82-88 | Fails exactly for a count below 1, with the message and nothing assigned. Otherwise it sets the count. On success it returns the same object. Either way at least one thread remains. |

## Left out

- Painting: `fillRect`, `strokeRect`, text labels, `truncateText` with its foreign `measureText`, the selection highlight, tooltips and mouse-coordinate translation. The model records which rectangle each node gets, not the pixels.
- Floating point: coordinates, ratios and percentages are reals. Rounding, `Infinity` and every `NaN` other than the file list's 0/0 percentage are not modelled. The byte formatting of `formatSize` and its unit loop are left out.
- DOM and browser side effects: element building, `nodeElements`, `scrollIntoView`, clipboard copy, notifications, bootstrap modals, alerts and `addColorMappingRow`.
- `ResizeHandle`: DOM, `localStorage` and dispatched events around a bounds check.
- Network and storage: the `fetch` calls of `scanDirectory` and `saveSettings`, `loadSettings`, `loadColorMappingsFromBackend` and the reset of colour mappings. The scan result arrives as a parameter, and the save's success as the `saved` flag.
- `parseInt` on the settings field: the model starts from its outcome, a number or none for `NaN`.
- The branches of the treemap listener that call `selectAndCollapseNode`, `setRootNode` and `resetToOriginalRoot` (app.js lines 47-58). `filetree.js` defines none of them, and the treemap never passes the `navigationType` that selects them, so the model takes the `selectNodeExternal` branch.
- `updatePathDisplay` and `updateSizeDisplay`: text output.
- The two listeners on the window `resize` event run in registration order: the page's listener (app.js line 415) is registered when the script loads, the treemap's own (treemap.js line 36) later, in the constructor run on `DOMContentLoaded`. Application.App.WindowResized runs the page's `render()` first and then `Resize`, in that order.
- TreemapLayout.Layout: uses the guarded ratio where treemap.js line 110 divides 0 by 0. Take a size-0 directory with two or more children whose rectangle is not cut off. In the source every child rectangle gets a `NaN` extent. `NaN < minPixelSize` is false, so every node of those subtrees is still recorded. A `NaN` rectangle contains no point, so none of them can be hit. In the model the children get zero-width slices at the parent's start edge. Whenever the cut-off is positive, as the default 10 is, each is cut off with nothing below it recorded. A click exactly on that edge can select such a zero-area child. The finding below records the source's behaviour.
- TreemapView.TreemapVisualizer.Render, TreemapView.TreemapVisualizer.DrawTreemap, TreemapView.TreemapVisualizer.DrawSlices and TreemapView.TreemapVisualizer.HandleClick: inherit that difference from TreemapLayout.Layout for size-0 directories with two or more children.
- `findNodeAtPosition` (treemap.js lines 316-324) has no caller and is not modelled.
- Sorting.InsertionSort: stability, i.e. that equal elements keep their input order, holds of the definition but is not stated. Only order and permutation are proved.
- FileTree.FileTreeExplorer.ExpandAll, FileTree.FileTreeExplorer.ExpandToNode and FileTree.FileTreeExplorer.SelectNodeByPath: each requires loaded data. filetree.js reads `this.data` in them with no null check, so without data the source throws a `TypeError`; that path is excluded, not modelled.
- Text.Lower and Text.Trim: ASCII only. Unicode case mapping and Unicode white space are not modelled.
- Text.CompareIgnoreCaseAntisymmetric: Java compares characters after upper- and then lower-casing them. The model lower-cases ASCII letters only.
- DriveFileNode.FileNode.AddChild: a Java `long` size can overflow; the model's sizes are unbounded integers.
- VobaFileNode.FileNode.AddChild: a Java `long` size can overflow; the model's sizes are unbounded integers.
- DriveFileNode.FileNode.Default: the unset `name` and `path` are `null` in Java and the empty string here. A `sortChildren` that compares such names would throw in Java.
- DriveFileNode.FileNode.SortChildren: requires the nodes to form a tree, with no node shared between two parents or reachable from itself. The Java method also runs, and may loop forever, on other object graphs. Stability within equal keys holds but is not stated.
- VobaFileNode.FileNode.SortChildren: requires the nodes to form a tree. Stability within equal keys holds but is not stated.
- `java.nio.file.Path`: only its text and last name element matter here, given as a `FilePath` value; path parsing is not modelled. `getPath`, `getPathObject`, `getSize` and `getExtension` are field reads.
- The Lombok accessors of `com.drivevisualizer.model.FileNode` are field reads and writes.
- ScanSettings.ScanOptions.constructor: `Runtime.availableProcessors()` becomes a parameter, at least 1 as the runtime reports. `maxThreads` is a Java `int`, here unbounded, with no arithmetic on it.
- The getters `isIncludeHiddenFiles`, `isUseParallelProcessing` and `getMaxThreads` are field reads.
- The Java directory scanners, colour-mapping services, controllers and beans are not part of this model.
- The file list's sort differs from a plain size sort. `renderNode` puts directories before files and then sorts by size (filetree.js lines 161-166); the model follows the code.
- The hit test gives equal rectangles to the earliest entry. Because the comparison is strict `<`, a flattened chain is hit at its shallowest node; the model follows the code.

## Findings

| source | as written | input that shows it | evidently intended | confidence | as-written member | corrected member |
|---|---|---|---|---|---|---|
| src/main/resources/static/js/treemap.js:110 | `child.size / node.size` with no guard. A directory of size 0 with two or more children divides 0 by 0, and every child rectangle gets `NaN` coordinates. | A directory of size 0 holding two empty sub-directories, on an 800×600 canvas with a cut-off of 10. | A node of size 0 gives its children zero-width slices inside its rectangle. | not executed | TreemapLayout.EmptyDirectoriesDivideByZero | TreemapLayout.EmptyDirectoriesStayInside |
