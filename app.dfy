/** The front end's glue: the settings dialog's colour rows and the shared
    colour map built from them, the data a scan delivers to both views, and
    the selection sync between the treemap and the file list, which a flag
    keeps from echoing back and forth. */
module Application {
  import opened Wrappers
  import opened Text
  import opened TreeModel
  import opened TreemapLayout
  import opened ColorMaps
  import opened TreemapView
  import opened FileTree
  import TreemapNavigation

  // ---------------------------------------------------------------------
  // Colour rows of the settings dialog
  // ---------------------------------------------------------------------

  /** One row of the settings dialog: the extension and colour inputs as
      typed. */
  datatype MappingRow = MappingRow(extension: string, color: string)

  /** The extension `saveSettings` takes from a row: trimmed, then
      lower-cased. */
  function CleanExtension(typed: string): string {
    Lower(Trim(typed))
  }

  /** An extension as the dialog stores it: non-empty, lower-case, and
      without white space at either end. */
  predicate CleanKey(e: string) {
    e != "" && IsLowerCase(e) && !IsWhitespace(e[0]) && !IsWhitespace(e[|e| - 1])
  }

  /** A cleaned extension is empty or a clean key. */
  lemma CleanExtensionIsClean(typed: string)
    ensures CleanExtension(typed) == "" || CleanKey(CleanExtension(typed))
  {
    var t := Trim(typed);
    if t != [] {
      LowerEnds(t);
    }
  }

  /** Lower-casing keeps the characters at both ends white space or not. */
  lemma LowerEnds(t: string)
    requires t != []
    ensures IsWhitespace(Lower(t)[0]) == IsWhitespace(t[0])
    ensures IsWhitespace(Lower(t)[|t| - 1]) == IsWhitespace(t[|t| - 1])
  {
    LowerKeepsWhitespace(t[0]);
    LowerKeepsWhitespace(t[|t| - 1]);
  }

  lemma LowerKeepsWhitespace(c: char)
    ensures IsWhitespace(LowerChar(c)) == IsWhitespace(c)
  {
  }

  /** `clean` yields either nothing or a clean key. */
  ghost predicate Cleans(clean: string -> string) {
    forall x :: clean(x) == "" || CleanKey(clean(x))
  }

  lemma CleanExtensionCleans()
    ensures Cleans(CleanExtension)
  {
    forall x
      ensures CleanExtension(x) == "" || CleanKey(CleanExtension(x))
    {
      CleanExtensionIsClean(x);
    }
  }

  /** Every row with its extension passed through `clean`, none dropped
      yet. */
  function CleanedBy(rows: seq<MappingRow>, clean: string -> string): (cs: seq<ColorMapping>)
    ensures |cs| == |rows|
  {
    seq(|rows|, i requires 0 <= i < |rows| => ColorMapping(clean(rows[i].extension), rows[i].color))
  }

  /** The mappings whose extension is not empty, in order. */
  function NonEmpty(cs: seq<ColorMapping>): seq<ColorMapping> {
    if cs == [] then []
    else
      var prev := NonEmpty(cs[..|cs| - 1]);
      var last := cs[|cs| - 1];
      if last.extension != "" then prev + [last] else prev
  }

  /** The mappings `saveSettings` collects: in row order, one per row whose
      cleaned extension is not empty, with the colour as typed. */
  function MappingsFromRows(rows: seq<MappingRow>): seq<ColorMapping> {
    NonEmpty(CleanedBy(rows, CleanExtension))
  }

  /** Filtering keeps exactly the mappings with an extension. */
  lemma {:induction false} NonEmptyMembers(cs: seq<ColorMapping>)
    ensures |NonEmpty(cs)| <= |cs|
    ensures forall m :: m in NonEmpty(cs) <==> m in cs && m.extension != ""
  {
    if cs != [] {
      var init := cs[..|cs| - 1];
      NonEmptyMembers(init);
      assert cs == init + [cs[|cs| - 1]];
    }
  }

  /** Filtering goes mapping by mapping. */
  lemma {:induction false} NonEmptyAppend(xs: seq<ColorMapping>, ys: seq<ColorMapping>)
    ensures NonEmpty(xs + ys) == NonEmpty(xs) + NonEmpty(ys)
    decreases |ys|
  {
    if ys == [] {
      assert xs + ys == xs;
    } else {
      var init := ys[..|ys| - 1];
      assert (xs + ys)[..|xs + ys| - 1] == xs + init;
      assert (xs + ys)[|xs + ys| - 1] == ys[|ys| - 1];
      NonEmptyAppend(xs, init);
    }
  }

  /** Dropping the mappings with an empty extension changes nothing in the
      colour map, because `updateColorMap` skips them anyway. */
  lemma {:induction false} NonEmptyIsHarmless(cs: seq<ColorMapping>)
    ensures ColorMapOf(NonEmpty(cs)) == ColorMapOf(cs)
  {
    if cs != [] {
      var init := cs[..|cs| - 1];
      var last := cs[|cs| - 1];
      NonEmptyIsHarmless(init);
      if last.extension != "" {
        var ms := NonEmpty(init) + [last];
        assert ms[..|ms| - 1] == NonEmpty(init);
      }
    }
  }

  lemma CleanedByKeys(rows: seq<MappingRow>, clean: string -> string)
    requires Cleans(clean)
    ensures forall m :: m in NonEmpty(CleanedBy(rows, clean)) ==> CleanKey(m.extension)
  {
    var cs := CleanedBy(rows, clean);
    NonEmptyMembers(cs);
    forall m | m in NonEmpty(cs)
      ensures CleanKey(m.extension)
    {
      var i :| 0 <= i < |cs| && cs[i] == m;
      assert m.extension == clean(rows[i].extension);
    }
  }

  /** Every collected extension is clean, and there are at most as many
      mappings as rows. */
  lemma MappingsFromRowsClean(rows: seq<MappingRow>)
    ensures |MappingsFromRows(rows)| <= |rows|
    ensures forall m :: m in MappingsFromRows(rows) ==> CleanKey(m.extension)
  {
    NonEmptyMembers(CleanedBy(rows, CleanExtension));
    CleanExtensionCleans();
    CleanedByKeys(rows, CleanExtension);
  }

  lemma CleanedByAppend(rows: seq<MappingRow>, more: seq<MappingRow>, clean: string -> string)
    ensures CleanedBy(rows + more, clean) == CleanedBy(rows, clean) + CleanedBy(more, clean)
  {
  }

  /** Collecting is row by row: the rows of two lists give the mappings of
      the first followed by those of the second, so row order is kept. */
  lemma MappingsFromRowsAppend(rows: seq<MappingRow>, more: seq<MappingRow>)
    ensures MappingsFromRows(rows + more) == MappingsFromRows(rows) + MappingsFromRows(more)
  {
    CleanedByAppend(rows, more, CleanExtension);
    NonEmptyAppend(CleanedBy(rows, CleanExtension), CleanedBy(more, CleanExtension));
  }

  lemma NonEmptyOfOne(m: ColorMapping)
    ensures NonEmpty([m]) == if m.extension != "" then [m] else []
  {
    assert [m][..0] == [];
  }

  /** One row gives one mapping exactly when its cleaned extension is not
      empty. */
  lemma MappingsFromOneRow(row: MappingRow)
    ensures MappingsFromRows([row]) ==
              if CleanExtension(row.extension) != "" then [ColorMapping(CleanExtension(row.extension), row.color)] else []
  {
    var m := ColorMapping(CleanExtension(row.extension), row.color);
    assert CleanedBy([row], CleanExtension) == [m];
    NonEmptyOfOne(m);
  }

  /** Row `row` sets the colour of extension `e`. */
  predicate Defines(row: MappingRow, e: string) {
    e != "" && row.color != "" && CleanExtension(row.extension) == e
  }

  /** Row `i` is the last row setting the colour of `e`. */
  predicate LastRowFor(rows: seq<MappingRow>, e: string, i: int) {
    && 0 <= i < |rows| && Defines(rows[i], e)
    && forall j :: i < j < |rows| ==> !Defines(rows[j], e)
  }

  /** The saved colour map holds `e` exactly when some row sets it, and
      then holds the colour of the last such row. */
  lemma SavedColorLookup(rows: seq<MappingRow>, e: string)
    ensures e in ColorMapOf(MappingsFromRows(rows)) <==> exists i :: 0 <= i < |rows| && Defines(rows[i], e)
    ensures e in ColorMapOf(MappingsFromRows(rows)) ==>
              exists i :: LastRowFor(rows, e, i) && ColorMapOf(MappingsFromRows(rows))[e] == rows[i].color
  {
    var cs := CleanedBy(rows, CleanExtension);
    NonEmptyIsHarmless(cs);
    ColorMapOfLookup(cs, e);
    forall i | 0 <= i < |rows|
      ensures (Kept(cs[i]) && Lower(cs[i].extension) == e) <==> Defines(rows[i], e)
    {
      CleanExtensionIsClean(rows[i].extension);
    }
    if e in ColorMapOf(cs) {
      var i :| LastFor(cs, e, i) && ColorMapOf(cs)[e] == cs[i].color;
      assert LastRowFor(rows, e, i);
    }
  }

  /** The fill colour of a file once the dialog's rows are saved: the colour
      of the last row naming its extension, else the default file colour;
      an extension with an upper-case letter never matches, since the keys
      are lower-cased. */
  lemma FileColorAfterSave(node: Node, rows: seq<MappingRow>)
    requires !node.directory && node.extension.Some?
    ensures var c := RectColor(node, ColorMapOf(MappingsFromRows(rows)));
            var e := node.extension.value;
            && ((forall i :: 0 <= i < |rows| ==> !Defines(rows[i], e)) ==> c == FileColor)
            && ((exists i :: 0 <= i < |rows| && Defines(rows[i], e)) ==> exists i :: LastRowFor(rows, e, i) && c == rows[i].color)
            && (!IsLowerCase(e) ==> c == FileColor)
  {
    var e := node.extension.value;
    SavedColorLookup(rows, e);
    ColorMapOfKeysLower(MappingsFromRows(rows));
  }

  // ---------------------------------------------------------------------
  // The application
  // ---------------------------------------------------------------------

  /** A selection passed from one view to the other. */
  datatype Sync = ToFileTree(node: NodeId) | ToTreemap(node: NodeId)

  /** The page's global state: both views, the shared colour map, the
      colour mappings, the cut-off, the sync flag and the loaded data.
      Both views hold the same tree; `syncs` records, for the proofs, each
      selection passed across. */
  class App {
    const tree: Arena
    const treemap: TreemapVisualizer
    const fileTree: FileTreeExplorer
    const colorMap: ColorMap
    var colorMappings: seq<ColorMapping>
    var minPixelSize: int
    var syncingSelection: bool
    var currentData: Option<NodeId>
    ghost var syncs: seq<Sync>

    /** Both views are in order, share the tree and the loaded data, and the
        treemap reads the application's own colour map. */
    ghost predicate Valid()
      reads this`currentData, treemap, fileTree
    {
      && treemap.tree == tree && fileTree.tree == tree
      && treemap.Valid() && fileTree.Valid()
      && treemap.colorMap == colorMap
      && treemap.data == currentData && fileTree.data == currentData
    }

    /** Page start-up: the treemap gets the (empty) shared colour map and
        the default cut-off, then the file list is built. */
    constructor (tree: Arena, width: nat, height: nat)
      requires WellFormed(tree) && TreeShaped(tree)
      ensures Valid() && this.tree == tree
      ensures currentData == None && !syncingSelection && syncs == []
      ensures colorMappings == [] && minPixelSize == DefaultMinPixelSize
      ensures colorMap.entries == map[] && treemap.minPixelSize == DefaultMinPixelSize
      ensures treemap.NavOf() == TreemapNavigation.Nav(None, None, None) && fileTree.selectedNode == None
    {
      this.tree := tree;
      var shared := new ColorMap();
      colorMap := shared;
      treemap := new TreemapVisualizer(tree, shared, Some(DefaultMinPixelSize), width, height);
      fileTree := new FileTreeExplorer(tree);
      colorMappings := [];
      minPixelSize := DefaultMinPixelSize;
      syncingSelection := false;
      currentData := None;
      syncs := [];
    }

    /** The listener the treemap calls when it selects a node. The treemap
        passes the node alone, so the dispatch on the navigation type
        always reaches its last branch, `selectNodeExternal(node)`. While a
        sync is under way it does nothing. */
    method OnTreemapSelect(node: NodeId)
      requires Valid() && node < |tree| && (!syncingSelection ==> currentData.Some?)
      modifies this`syncingSelection, this`syncs
      modifies fileTree`expandedNodes, fileTree`selectedNode
      modifies treemap`currentRoot, treemap`selectedNode, treemap`nodeRectMap
      ensures Valid() && syncingSelection == old(syncingSelection)
      ensures unchanged(treemap)
      ensures old(syncingSelection) ==> syncs == old(syncs) && unchanged(fileTree)
      ensures !old(syncingSelection) ==>
                && syncs == old(syncs) + [ToFileTree(node)]
                && fileTree.selectedNode == Some(node)
                && fileTree.expandedNodes == old(fileTree.expandedNodes) + PathExpansion(tree, currentData.value, node)
      decreases if syncingSelection then 0 else 1
    {
      if !syncingSelection {
        syncingSelection := true;
        syncs := syncs + [ToFileTree(node)];
        var echo := fileTree.SelectNodeExternal(Some(node));
        OnFileTreeSelect(echo.value);
        syncingSelection := false;
      }
    }

    /** The listener the file list calls when it selects a node: focus the
        treemap on it. While a sync is under way it does nothing. */
    method OnFileTreeSelect(node: NodeId)
      requires Valid() && node < |tree|
      modifies this`syncingSelection, this`syncs
      modifies fileTree`expandedNodes, fileTree`selectedNode
      modifies treemap`currentRoot, treemap`selectedNode, treemap`nodeRectMap
      ensures Valid() && syncingSelection == old(syncingSelection)
      ensures unchanged(fileTree)
      ensures old(syncingSelection) ==> syncs == old(syncs) && unchanged(treemap)
      ensures !old(syncingSelection) ==>
                && syncs == old(syncs) + [ToTreemap(node)]
                && treemap.Shows(TreemapNavigation.FocusOnNode(tree, old(treemap.NavOf()), node), old(treemap.nodeRectMap))
      decreases if syncingSelection then 0 else 1
    {
      if !syncingSelection {
        syncingSelection := true;
        syncs := syncs + [ToTreemap(node)];
        var echo := treemap.FocusOnNode(node);
        if echo.Some? {
          OnTreemapSelect(echo.value);
        }
        syncingSelection := false;
      }
    }

    /** A treemap selection names a node only once data is loaded. */
    lemma FiredMeansLoaded(fired: Option<NodeId>)
      requires Valid() && (fired.Some? ==> fired == treemap.selectedNode)
      ensures fired.Some? ==> currentData.Some? && fired.value < |tree|
    {
    }

    /** A click on the treemap canvas: the treemap handles it, and the node
        it selects, if any, is passed once to the file list, which then
        selects the same node. */
    method TreemapClick(px: real, py: real, ctrlKey: bool)
      requires Valid() && !syncingSelection
      modifies this`syncingSelection, this`syncs
      modifies fileTree`expandedNodes, fileTree`selectedNode
      modifies treemap`currentRoot, treemap`selectedNode, treemap`nodeRectMap
      ensures Valid() && !syncingSelection
      ensures var m := TreemapNavigation.Click(tree, old(treemap.NavOf()), HitNode(old(treemap.nodeRectMap), px, py), ctrlKey);
              && treemap.Shows(m, old(treemap.nodeRectMap))
              && syncs == old(syncs) + (if m.fired.Some? then [ToFileTree(m.fired.value)] else [])
              && (m.fired.Some? ==> fileTree.selectedNode == treemap.selectedNode)
              && (m.fired.None? ==> unchanged(fileTree))
    {
      var fired := treemap.HandleClick(px, py, ctrlKey);
      FiredMeansLoaded(fired);
      if fired.Some? {
        OnTreemapSelect(fired.value);
      }
    }

    /** A key press on the page, handled by the treemap; the node it
        selects, if any, is passed once to the file list. */
    method TreemapKeyPress(key: TreemapNavigation.Key, inFormField: bool)
      requires Valid() && !syncingSelection
      modifies this`syncingSelection, this`syncs
      modifies fileTree`expandedNodes, fileTree`selectedNode
      modifies treemap`currentRoot, treemap`selectedNode, treemap`nodeRectMap
      ensures Valid() && !syncingSelection
      ensures var m := TreemapNavigation.KeyPress(tree, old(treemap.NavOf()), key, inFormField);
              && treemap.Shows(m, old(treemap.nodeRectMap))
              && syncs == old(syncs) + (if m.fired.Some? then [ToFileTree(m.fired.value)] else [])
              && (m.fired.Some? ==> fileTree.selectedNode == treemap.selectedNode)
              && (m.fired.None? ==> unchanged(fileTree))
    {
      var fired := treemap.HandleKeyPress(key, inFormField);
      FiredMeansLoaded(fired);
      if fired.Some? {
        OnTreemapSelect(fired.value);
      }
    }

    /** A click on a row of the file list: the list selects the node and
        the treemap is focused on it, once. When the node lies in the
        loaded tree and the paths there are unique, both views end up
        selecting it. */
    method FileTreeRowClick(n: NodeId)
      requires Valid() && !syncingSelection && n < |tree|
      modifies this`syncingSelection, this`syncs
      modifies fileTree`expandedNodes, fileTree`selectedNode
      modifies treemap`currentRoot, treemap`selectedNode, treemap`nodeRectMap
      ensures Valid() && !syncingSelection
      ensures fileTree.selectedNode == Some(n) && fileTree.expandedNodes == old(fileTree.expandedNodes)
      ensures syncs == old(syncs) + [ToTreemap(n)]
      ensures treemap.Shows(TreemapNavigation.FocusOnNode(tree, old(treemap.NavOf()), n), old(treemap.nodeRectMap))
      ensures currentData.Some? && Reaches(tree, currentData.value, n) && TreemapNavigation.UniquePaths(tree, currentData.value) ==>
                treemap.selectedNode == Some(n)
    {
      var fired := fileTree.SelectNode(n);
      ghost var before := treemap.NavOf();
      OnFileTreeSelect(fired.value);
      if currentData.Some? && Reaches(tree, currentData.value, n) {
        TreemapNavigation.FocusFindsTarget(tree, before, n);
      }
    }

    /** A successful scan: remember the data and hand it to the treemap,
        then to the file list; neither passes a selection across. */
    method ScanLoaded(d: NodeId)
      requires Valid() && d < |tree|
      modifies this`currentData
      modifies treemap`data, treemap`currentRoot, treemap`selectedNode, treemap`nodeRectMap
      modifies fileTree`data, fileTree`expandedNodes, fileTree`selectedNode
      ensures Valid() && currentData == Some(d)
      ensures treemap.Shows(TreemapNavigation.SetData(old(treemap.NavOf()), d), old(treemap.nodeRectMap))
      ensures fileTree.expandedNodes == {d} && fileTree.selectedNode == Some(d)
      ensures treemap.selectedNode == fileTree.selectedNode
    {
      currentData := Some(d);
      treemap.SetData(d);
      fileTree.SetData(Some(d));
    }

    /** The window `resize` event: the page's listener renders the treemap
        when data is loaded, then the treemap's own listener adopts the new
        canvas size and renders again. */
    method WindowResized(width: nat, height: nat)
      requires Valid()
      modifies treemap`canvasWidth, treemap`canvasHeight, treemap`nodeRectMap
      ensures Valid() && treemap.canvasWidth == width && treemap.canvasHeight == height
      ensures treemap.nodeRectMap == if currentData.Some? then treemap.CurrentLayout() else old(treemap.nodeRectMap)
    {
      if currentData.Some? {
        treemap.Render();
      }
      treemap.Resize(width, height);
    }

    /** `updateColorMap()`: clear the shared map and set each kept mapping's
        lower-cased extension in order. */
    method UpdateColorMap()
      modifies colorMap
      ensures colorMap.entries == ColorMapOf(colorMappings)
    {
      colorMap.entries := map[];
      var i := 0;
      while i < |colorMappings|
        invariant 0 <= i <= |colorMappings|
        invariant colorMap.entries == ColorMapOf(colorMappings[..i])
      {
        var mapping := colorMappings[i];
        assert colorMappings[..i + 1][..i] == colorMappings[..i];
        if mapping.extension != "" && mapping.color != "" {
          colorMap.entries := colorMap.entries[Lower(mapping.extension) := mapping.color];
        }
        i := i + 1;
      }
      assert colorMappings[..i] == colorMappings;
    }

    /** The row loop of `saveSettings`. */
    method CollectMappings(rows: seq<MappingRow>)
      modifies this`colorMappings
      ensures colorMappings == MappingsFromRows(rows)
    {
      colorMappings := [];
      var i := 0;
      while i < |rows|
        invariant 0 <= i <= |rows|
        invariant colorMappings == MappingsFromRows(rows[..i])
      {
        var ext := CleanExtension(rows[i].extension);
        ghost var cs := CleanedBy(rows[..i + 1], CleanExtension);
        assert cs[..i] == CleanedBy(rows[..i], CleanExtension);
        assert cs[i] == ColorMapping(ext, rows[i].color);
        if ext != "" {
          colorMappings := colorMappings + [ColorMapping(ext, rows[i].color)];
        }
        i := i + 1;
      }
      assert rows[..i] == rows;
    }

    /** `saveSettings()`: `typedMinPixelSize` is what `parseInt` made of the
        input (`None` for `NaN`) and `saved` whether the backend accepted
        the mappings. The cut-off and the mappings are always taken; only a
        successful save rebuilds the colour map and re-renders the treemap
        with both. */
    method SaveSettings(typedMinPixelSize: Option<int>, rows: seq<MappingRow>, saved: bool)
      requires Valid()
      modifies this`minPixelSize, this`colorMappings, colorMap
      modifies treemap`minPixelSize, treemap`colorMap, treemap`nodeRectMap
      ensures Valid()
      ensures minPixelSize == MinPixelSizeOr(typedMinPixelSize) && colorMappings == MappingsFromRows(rows)
      ensures saved ==>
                && colorMap.entries == ColorMapOf(MappingsFromRows(rows))
                && treemap.minPixelSize == minPixelSize
                && treemap.nodeRectMap == treemap.CurrentLayout()
      ensures !saved ==> unchanged(colorMap) && unchanged(treemap)
    {
      minPixelSize := MinPixelSizeOr(typedMinPixelSize);
      CollectMappings(rows);
      if saved {
        ApplySettings();
      }
    }

    /** What `saveSettings` does once the backend has accepted the
        mappings: rebuild the colour map, then hand the treemap the
        cut-off and the map, each followed by a render. */
    method ApplySettings()
      requires Valid()
      modifies colorMap, treemap`minPixelSize, treemap`colorMap, treemap`nodeRectMap
      ensures Valid()
      ensures colorMap.entries == ColorMapOf(colorMappings)
      ensures treemap.minPixelSize == minPixelSize && treemap.nodeRectMap == treemap.CurrentLayout()
    {
      UpdateColorMap();
      treemap.UpdateMinPixelSize(minPixelSize);
      treemap.UpdateColorMap(colorMap);
    }
  }
}
