/**
 * The XML viewer's main window (visualize_xml.py, `MainWindow`): the
 * tree the parse or the import fills, the segments and shapes they
 * leave, the display entries the drawing registers, and the click
 * handler that highlights them. Qt widgets and the CAD kernel are not
 * modelled; the tree is the value of its items (`tree`), every
 * `tree.clear()` starts a new `generation`, and a progress dialog is the
 * poll from which it reports cancelled (see `Passes`).
 */
module XmlWindow {
  import opened Basics
  import opened Dicts
  import opened Shapes
  import opened Batches
  import opened XmlParse
  import opened XmlDraw
  import opened XmlImport

  // ---------------------------------------------------------------------
  // What a click on a parsed or imported item can highlight
  // ---------------------------------------------------------------------

  /** Every item of the subtree stores a list of string ids, as the items the import builds do. */
  ghost predicate Named(it: Item)
  {
    && it.data.Many?
    && (forall p :: 0 <= p < |it.data.ids| ==> it.data.ids[p].StrId?)
    && forall c :: 0 <= c < |it.children| ==> Named(it.children[c])
  }

  /** Every item of the forest stores a list of string ids, as do all their descendants. */
  ghost predicate AllNamed(items: seq<Item>)
  {
    forall c :: 0 <= c < |items| ==> Named(items[c])
  }

  /** A type node over string ids, and each of its batch nodes, stores string ids only. */
  lemma TypeNodeNamed(ids: seq<ShapeId>)
    requires forall p :: 0 <= p < |ids| ==> ids[p].StrId?
    ensures Named(TypeNode(ids))
  {
    var m := BatchCount(|ids|, NodeBatch);
    var nodes := BatchNodes(ids, m);
    forall b | 0 <= b < m
      ensures Named(nodes[b])
    {
      var batch := Batch(ids, NodeBatch, b);
      assert forall j :: 0 <= j < |batch| ==> batch[j] == ids[b * NodeBatch + j];
    }
  }

  /** Adding a kind adds at most its type node, which stores string ids only. */
  lemma AddKindNamed(a: Analysis, k: nat, shapes: seq<Shape>, tag: (ShapeKind, nat) -> nat)
    requires k < |XmlKinds| && AllNamed(a.nodes)
    ensures AllNamed(AddKind(a, k, shapes, tag).nodes)
  {
    if |shapes| > 0 {
      var ids := KindIds(k, shapes, tag);
      TypeNodeNamed(ids);
      var nodes := a.nodes + [TypeNode(ids)];
      assert AddKind(a, k, shapes, tag).nodes == nodes;
      forall c | 0 <= c < |nodes|
        ensures Named(nodes[c])
      {
        if c < |a.nodes| {
          assert nodes[c] == a.nodes[c];
        }
      }
    }
  }

  /** The type nodes of the first t kinds store string ids only. */
  lemma {:induction false} AnalysedNamed(explore: ShapeKind -> seq<Shape>, tag: (ShapeKind, nat) -> nat, t: nat)
    requires t <= |XmlKinds|
    ensures AllNamed(Analysed(explore, tag, t).nodes)
  {
    if t > 0 {
      AnalysedNamed(explore, tag, t - 1);
      AddKindNamed(Analysed(explore, tag, t - 1), t - 1, explore(XmlKinds[t - 1]), tag);
    }
  }

  /** Following a path through items that store string ids reaches such an item. */
  lemma NamedAt(items: seq<Item>, path: seq<nat>)
    requires ValidPath(items, path) && AllNamed(items)
    ensures Named(ItemAt(items, path))
    decreases |path|
  {
    if |path| > 1 {
      NamedAt(items[path[0]].children, path[1..]);
    }
  }

  /**
   * No item of an imported model's tree highlights anything: the handler
   * takes only int ids from a list, and the root, its type nodes and
   * their batch nodes all store string ids.
   */
  lemma ImportedItemsHighlightNothing(explore: ShapeKind -> seq<Shape>, tag: (ShapeKind, nat) -> nat,
                                      path: seq<nat>, d: Dict<ShapeId, Displayed>)
    requires ValidPath([ImportTree(explore, tag)], path)
    ensures Clickable(ItemAt([ImportTree(explore, tag)], path).data, d) == []
  {
    var root := ImportTree(explore, tag);
    ImportedStep(explore, tag);
    AnalysedNamed(explore, tag, |XmlKinds|);
    assert Named(root);
    NamedAt([root], path);
    var it := ItemAt([root], path);
    assert forall x :: x in it.data.ids ==> x.StrId?;
    StringListsHighlightNothing(it.data.ids, d);
  }

  /**
   * Once every segment is drawn, clicking net j highlights its whole
   * list: the indices of its own segments, from where the earlier nets'
   * end to where its own end.
   */
  lemma NetHighlightsItsSegments(nets: seq<Net>, cylinderAt: ((Point, Point)) -> Shape, j: nat)
    requires j < |nets|
    ensures var r := DocumentRead(nets);
      var d := Registered(SegmentList(r.ends, cylinderAt), Flushed(|r.ends|, |r.ends|, DrawBatch));
      && |r.items| == |nets|
      && Clickable(r.items[j].data, d) == IntIds(Offset(nets, 0, NetRead, j), Offset(nets, 0, NetRead, j + 1))
  {
    var r := DocumentRead(nets);
    var lo, hi := Offset(nets, 0, NetRead, j), Offset(nets, 0, NetRead, j + 1);
    NetList(nets, j);
    LevelEndsAt(nets, 0, NetRead, j);
    SegmentsDrawn(r.ends, cylinderAt);
    var d := Registered(SegmentList(r.ends, cylinderAt), Flushed(|r.ends|, |r.ends|, DrawBatch));
    var ids := IntIds(lo, hi);
    assert forall x :: x in ids ==> x.IntId? && x in d.values;
    IntPresentOfAllPresent(ids, d);
  }

  // ---------------------------------------------------------------------
  // Computations the handlers make
  // ---------------------------------------------------------------------

  /** What a parse leaves: nothing when the file cannot be read, else the document's items and segments. */
  function Parsed(doc: Option<seq<Net>>): Read
  {
    if doc.None? then Read([], [], []) else DocumentRead(doc.value)
  }

  /** `for id in shape_data: if isinstance(id, int) and id in self.ais_shapes: valid_ids.append(id)` */
  method ValidIds(ids: seq<ShapeId>, d: Dict<ShapeId, Displayed>) returns (r: seq<ShapeId>)
    ensures r == IntPresent(ids, d)
  {
    r := [];
    var i := 0;
    while i < |ids|
      invariant i <= |ids| && r == IntPresent(ids[..i], d)
    {
      assert ids[..i + 1][..i] == ids[..i];
      if ids[i].IntId? && ids[i] in d.values {
        r := r + [ids[i]];
      }
      i := i + 1;
    }
    assert ids[..|ids|] == ids;
  }

  /** The ids a click highlights for an item's data, as the branches of `on_tree_item_clicked` pick them. */
  method ClickedIds(data: Payload, d: Dict<ShapeId, Displayed>) returns (r: seq<ShapeId>)
    ensures r == Clickable(data, d)
  {
    match data
    case NoData => r := [];
    case One(id) => r := if id in d.values then [id] else [];
    case Many(ids) => r := ValidIds(ids, d);
  }

  class MainWindow {
    // The tree widget: its top-level items and which filling of it they
    // belong to.
    var tree: seq<Item>
    var generation: nat

    // What the parse reads and what drawing and importing make.
    var segments: seq<(Point, Point)>
    var segmentShapes: seq<Shape>
    var stepShapes: Dict<string, Shape>

    // What is displayed, highlighted and selected.
    var ais: Dict<ShapeId, Displayed>
    var highlighted: seq<ShapeId>
    var selected: Option<ItemKey>

    /**
     * The window's invariant: the dicts keep distinct keys and every
     * displayed shape is yellow exactly when it is highlighted.
     */
    ghost predicate Valid()
      reads this
    {
      Dicts.Valid(ais) && ColoursAgree(ais, highlighted) && Dicts.Valid(stepShapes)
    }

    /** `__init__()`: an empty tree, nothing read, nothing displayed. */
    constructor ()
      ensures Valid() && tree == [] && generation == 0 && selected == None
      ensures segments == [] && segmentShapes == [] && stepShapes == Empty()
      ensures ais == Empty() && highlighted == []
    {
      tree, generation, selected := [], 0, None;
      segments, segmentShapes, stepShapes := [], [], Empty();
      ais, highlighted := Empty(), [];
    }

    /**
     * `__init__(xml_file)`: as `__init__()`, then the file parsed into a
     * new tree; the drawing it schedules is a later `DrawSegments`.
     */
    constructor FromDocument(doc: Option<seq<Net>>)
      ensures Valid() && tree == Parsed(doc).items && generation == 1 && selected == None
      ensures segments == Parsed(doc).ends && segmentShapes == [] && stepShapes == Empty()
      ensures ais == Empty() && highlighted == []
    {
      var items, ends := [], [];
      if doc.Some? {
        items, ends := ReadNets(doc.value);
      }
      tree, generation, selected := items, 1, None;
      segments, segmentShapes, stepShapes := ends, [], Empty();
      ais, highlighted := Empty(), [];
    }

    /**
     * `parse_xml_and_populate_tree`: the tree, the segments, their shapes
     * and the display entries are cleared, then a readable document is
     * read into new items and segments. The highlight list, the imported
     * shapes and the selection are kept.
     */
    method ParseXmlAndPopulateTree(doc: Option<seq<Net>>)
      requires Valid()
      modifies this`tree, this`generation, this`segments, this`segmentShapes, this`ais
      ensures Valid() && tree == Parsed(doc).items && segments == Parsed(doc).ends
      ensures generation == old(generation) + 1 && segmentShapes == [] && ais == Empty()
    {
      tree, generation, segments, segmentShapes, ais := [], generation + 1, [], [], Empty();
      if doc.Some? {
        tree, segments := ReadNets(doc.value);
      }
    }

    /**
     * `draw_segments`: the display and the highlight are reset, then the
     * segment loop runs until the dialog reports cancelled, making a
     * cylinder per segment and registering the flushed batches.
     */
    method DrawSegments(cylinderAt: ((Point, Point)) -> Shape, cancelAt: Option<nat>)
      requires Valid()
      modifies this`ais, this`highlighted, this`segmentShapes
      ensures Valid() && highlighted == []
      ensures var k := Passes(|segments|, cancelAt);
        && segmentShapes == Cylinders(segments, cylinderAt, k)
        && ais == Registered(SegmentList(segments, cylinderAt), Flushed(k, |segments|, DrawBatch))
    {
      var d, cylinders, k := XmlDraw.DrawSegments(segments, cylinderAt, cancelAt);
      SegmentListDistinct(segments, cylinderAt);
      RegisteredValid(SegmentList(segments, cylinderAt), Flushed(k, |segments|, DrawBatch));
      ais, highlighted, segmentShapes := d, [], cylinders;
    }

    /**
     * `draw_imported_shapes`: the display and the highlight are reset and
     * the imported shapes are registered in batches, polling the dialog
     * when there is one.
     */
    method DrawImportedShapes(showProgress: bool, cancelAt: Option<nat>)
      requires Valid()
      modifies this`ais, this`highlighted
      ensures Valid() && highlighted == []
      ensures var c := Passes(|stepShapes.keys|, if showProgress then cancelAt else None);
        ais == Registered(StepList(stepShapes), Flushed(c, |stepShapes.keys|, DrawBatch))
    {
      var d, c := DrawImported(stepShapes, if showProgress then cancelAt else None);
      StepListDistinct(stepShapes);
      RegisteredValid(StepList(stepShapes), Flushed(c, |stepShapes.keys|, DrawBatch));
      ais, highlighted := d, [];
    }

    /** `highlight_shapes(ids, on)`: each displayed id of `ids` turns yellow, or blue again. */
    method HighlightShapes(ids: seq<ShapeId>, on: bool)
      modifies this`ais
      ensures ais == Recoloured(old(ais), ids, on)
    {
      ais := Highlight(ais, ids, on);
    }

    /**
     * `on_tree_item_clicked`: an item without data is ignored; clicking
     * the selected item again releases the highlight and deselects; any
     * other item is selected and replaces the highlight by the ids its
     * data offers (see `Clickable`), possibly none.
     */
    method OnTreeItemClicked(key: ItemKey)
      requires Valid() && key.generation == generation && ValidPath(tree, key.path)
      modifies this`ais, this`highlighted, this`selected
      ensures Valid()
      ensures var data := ItemAt(tree, key.path).data;
        if data == NoData then
          ais == old(ais) && highlighted == old(highlighted) && selected == old(selected)
        else if old(selected) == Some(key) then
          ais == Recoloured(old(ais), old(highlighted), false) && highlighted == [] && selected == None
        else
          var ids := Clickable(data, old(ais));
          && ais == Recoloured(Recoloured(old(ais), old(highlighted), false), ids, true)
          && highlighted == ids && selected == Some(key)
    {
      var data := ItemAt(tree, key.path).data;
      if data == NoData {
        return;
      }
      if selected == Some(key) {
        Deselect();
      } else {
        Select(key, data);
      }
    }

    /** Clicking the selected item again: its highlight is released and nothing is selected. */
    method Deselect()
      requires Valid()
      modifies this`ais, this`highlighted, this`selected
      ensures Valid() && highlighted == [] && selected == None
      ensures ais == Recoloured(old(ais), old(highlighted), false)
    {
      ClearHighlight(ais, highlighted);
      HighlightShapes(highlighted, false);
      highlighted, selected := [], None;
    }

    /** Clicking another item: the old highlight is released, the item selected, and its ids highlighted. */
    method Select(key: ItemKey, data: Payload)
      requires Valid()
      modifies this`ais, this`highlighted, this`selected
      ensures Valid() && selected == Some(key)
      ensures var ids := Clickable(data, old(ais));
        ais == Recoloured(Recoloured(old(ais), old(highlighted), false), ids, true) && highlighted == ids
    {
      ghost var d, before := ais, highlighted;
      if highlighted != [] {
        HighlightShapes(highlighted, false);
        highlighted := [];
      } else {
        RecolouredNone(ais, false);
      }
      selected := Some(key);
      ClickableRecoloured(data, d, before, false);
      var ids := ClickedIds(data, ais);
      if ids != [] {
        HighlightShapes(ids, true);
        highlighted := ids;
      } else {
        RecolouredNone(ais, true);
      }
      SwitchHighlight(d, before, ids);
    }

    /**
     * `import_cad_file`: the tree, the segments, the shapes and the
     * display are cleared; a file that cannot be read (`main` is None) or
     * holds a null shape stops there; otherwise the model is analysed
     * under a new root item and its shapes are drawn. The selection is
     * kept.
     */
    method ImportCadFile(main: Option<Shape>, explore: ShapeKind -> seq<Shape>, tag: (ShapeKind, nat) -> nat,
                         drawCancelAt: Option<nat>)
      requires Valid()
      modifies this`tree, this`generation, this`segments, this`segmentShapes, this`stepShapes
      modifies this`ais, this`highlighted
      ensures Valid() && generation == old(generation) + 1
      ensures segments == [] && segmentShapes == [] && highlighted == []
      ensures main.None? || IsNull(main.value) ==> tree == [] && stepShapes == Empty() && ais == Empty()
      ensures main.Some? && !IsNull(main.value) ==>
        && tree == [ImportTree(explore, tag)]
        && stepShapes == Analysed(explore, tag, |XmlKinds|).step
        && ais == Registered(StepList(stepShapes), Flushed(Passes(|stepShapes.keys|, drawCancelAt), |stepShapes.keys|, DrawBatch))
    {
      tree, generation, segments, segmentShapes := [], generation + 1, [], [];
      stepShapes, ais, highlighted := Empty(), Empty(), [];
      if main.None? || IsNull(main.value) {
        return;
      }
      var root, step := AnalyzeShapeAndBuildTree(explore, tag);
      ImportedStep(explore, tag);
      tree, stepShapes := [root], step;
      DrawImportedShapes(true, drawCancelAt);
    }
  }
}
