/**
 * The spreadsheet viewer's main window (visualize_xlsx.py, `MainWindow`):
 * the record store that parsing fills, the display entries that drawing
 * registers, and the handlers that highlight shapes, select tree items
 * and fill the info panel. Qt widgets and the CAD kernel are not
 * modelled; the tree is the value of its items (`tree`), every
 * `tree.clear()` starts a new `generation`, and a progress dialog is the
 * poll from which it reports cancelled (see `Passes`).
 */
module XlsxWindow {
  import opened Basics
  import opened Dicts
  import opened Shapes
  import opened XlsxRecords
  import opened XlsxSelection
  import opened XlsxImport
  import opened XlsxDraw
  import opened XlsxParse

  /**
   * What the display keeps true: `ais_shapes` keeps distinct keys, every
   * displayed shape shows the colour its highlight state calls for, and
   * only displayed ids are highlighted.
   */
  ghost predicate Shows(ais: Dict<ShapeId, Displayed>, highlighted: seq<ShapeId>)
  {
    && Dicts.Valid(ais)
    && ColoursAgree(ais, highlighted)
    && forall id :: id in highlighted ==> id in ais.values
  }

  /** `step_shapes` keeps distinct keys, none of them a node id. */
  ghost predicate ImportedValid(step: Dict<string, Shape>)
  {
    Dicts.Valid(step) && forall k :: k in step.values ==> !IsNodeId(StrId(k))
  }

  /** Empty display and import dicts are in order. */
  lemma NothingShown()
    ensures Shows(Empty(), []) && ImportedValid(Empty())
  {
  }

  /** Entries registered in their released colours, with nothing highlighted, are in order. */
  lemma Released(d: Dict<ShapeId, Displayed>)
    requires Dicts.Valid(d) && ColoursAgree(d, [])
    ensures Shows(d, [])
  {
  }

  /** Releasing the highlight leaves the display in order with nothing highlighted. */
  lemma ReleaseShows(d: Dict<ShapeId, Displayed>, before: seq<ShapeId>)
    requires Shows(d, before)
    ensures Shows(Recoloured(d, before, false), [])
  {
    ClearHighlight(d, before);
  }

  /** Releasing the highlight and highlighting displayed ids leaves the display in order with those ids highlighted. */
  lemma SwitchShows(d: Dict<ShapeId, Displayed>, before: seq<ShapeId>, after: seq<ShapeId>)
    requires Shows(d, before) && forall id :: id in after ==> id in d.values
    ensures Shows(Recoloured(Recoloured(d, before, false), after, true), after)
  {
    SwitchHighlight(d, before, after);
  }

  /** `[sid for sid in ids if sid in self.ais_shapes]` */
  method PresentIds(ids: seq<ShapeId>, d: Dict<ShapeId, Displayed>) returns (r: seq<ShapeId>)
    ensures r == Present(ids, d)
  {
    r := [];
    var i := 0;
    while i < |ids|
      invariant i <= |ids| && r == Present(ids[..i], d)
    {
      assert ids[..i + 1][..i] == ids[..i];
      if ids[i] in d.values {
        r := r + [ids[i]];
      }
      i := i + 1;
    }
    assert ids[..|ids|] == ids;
  }

  /**
   * The scan of `shape_selection_callback` over `ais_shapes`: the first
   * entry whose non-null shape IsSame as the pick.
   */
  method FindShapeId(d: Dict<ShapeId, Displayed>, pick: Shape) returns (found: Option<ShapeId>)
    ensures found == PickedId(d, pick)
  {
    found := None;
    var i := 0;
    while i < |d.keys| && found.None?
      invariant i <= |d.keys|
      invariant found == (var r := FirstSame(d, pick, i); if r.Some? then Some(d.keys[r.value]) else None)
    {
      if SameShape(d, d.keys[i], pick) {
        found := Some(d.keys[i]);
      }
      i := i + 1;
    }
    var r := FirstSame(d, pick, i);
    if r.Some? {
      FirstSameFrom(d, pick, r.value, |d.keys|);
    }
  }

  /** Every entry of the queue is an item of the forest at its path, also after a step of the search. */
  lemma QueueEntriesStep(items: seq<Item>, q: seq<Entry>)
    requires |q| > 0 && forall e :: e in q ==> ValidPath(items, e.0) && ItemAt(items, e.0) == e.1
    ensures forall e :: e in q[1..] + ChildEntries(q[0].0, q[0].1) ==> ValidPath(items, e.0) && ItemAt(items, e.0) == e.1
  {
    var cs := ChildEntries(q[0].0, q[0].1);
    forall c | 0 <= c < |cs|
      ensures ValidPath(items, cs[c].0) && ItemAt(items, cs[c].0) == cs[c].1
    {
      ItemAtChild(items, q[0].0, c);
    }
    forall e | e in q[1..] + cs
      ensures ValidPath(items, e.0) && ItemAt(items, e.0) == e.1
    {
      if e !in q[1..] {
        var c :| 0 <= c < |cs| && cs[c] == e;
      }
    }
  }

  /** An item of the queue whose subtree has a match keeps one in the queue when the front item does not match. */
  lemma QueueKeepsMatch(id: ShapeId, q: seq<Entry>)
    requires |q| > 0 && !ItemMatches(q[0].1, id)
    requires exists w :: w in q && SubtreeHas(w.1, id)
    ensures exists w :: w in q[1..] + ChildEntries(q[0].0, q[0].1) && SubtreeHas(w.1, id)
  {
    var w :| w in q && SubtreeHas(w.1, id);
    var cs := ChildEntries(q[0].0, q[0].1);
    if w == q[0] {
      var c :| 0 <= c < |w.1.children| && SubtreeHas(w.1.children[c], id);
      assert cs[c] in q[1..] + cs;
    } else {
      assert q == [q[0]] + q[1..];
      assert w in q[1..] + cs;
    }
  }

  /**
   * The breadth-first search of `find_and_select_tree_item`: the top-level
   * items are queued in order, each dequeued item is tested, and the
   * children of an item that does not match are queued after the rest.
   */
  method SearchTree(items: seq<Item>, id: ShapeId) returns (found: Option<seq<nat>>)
    ensures found.None? <==> !ForestHas(items, id)
    ensures found.Some? ==> ValidPath(items, found.value) && ItemMatches(ItemAt(items, found.value), id)
    ensures |items| > 0 && ItemMatches(items[0], id) ==> found == Some([0])
  {
    var q: seq<Entry> := [];
    var i := 0;
    while i < |items|
      invariant i <= |items| && |q| == i
      invariant forall j :: 0 <= j < i ==> q[j] == ([j], items[j])
    {
      q := q + [([i], items[i])];
      i := i + 1;
    }
    ghost var start := q;
    if ForestHas(items, id) {
      ghost var t :| 0 <= t < |items| && SubtreeHas(items[t], id);
      assert q[t] in q;
    }
    found := None;
    while |q| > 0 && found.None?
      invariant forall e :: e in q ==> ValidPath(items, e.0) && ItemAt(items, e.0) == e.1
      invariant found.Some? ==> ValidPath(items, found.value) && ItemMatches(ItemAt(items, found.value), id)
      invariant found.None? && ForestHas(items, id) ==> exists e :: e in q && SubtreeHas(e.1, id)
      invariant |items| > 0 && ItemMatches(items[0], id) ==> found == Some([0]) || (found.None? && q == start)
      decreases if found.None? then 1 else 0, QueueSize(q)
    {
      ghost var q0 := q;
      var e := q[0];
      q := q[1..];
      if ItemMatches(e.1, id) {
        found := Some(e.0);
      } else {
        QueueStep(q0);
        QueueEntriesStep(items, q0);
        if ForestHas(items, id) {
          QueueKeepsMatch(id, q0);
        }
        q := q + ChildEntries(e.0, e.1);
      }
    }
    if found.Some? {
      PathHas(items, found.value, id);
    }
  }

  /**
   * The sphere loop of `draw_segments`, polling the dialog before each
   * sphere: sphere i is registered, red, under the id of the i-th ref; a
   * sphere with no ref at its position raises and is skipped.
   */
  method RegisterSpheres(spheres: seq<Shape>, refs: seq<string>, nodeIdMap: map<string, string>, cancelAt: Option<nat>)
    returns (d: Dict<ShapeId, Displayed>, k: nat)
    ensures k == Passes(|spheres|, cancelAt)
    ensures d == NodeEntries(spheres, refs, nodeIdMap, k)
  {
    d, k := Empty(), 0;
    while k < |spheres| && !Cancelled(cancelAt, k)
      invariant k <= |spheres| && (cancelAt.Some? ==> k <= cancelAt.value)
      invariant d == NodeEntries(spheres, refs, nodeIdMap, k)
    {
      if k < |refs| {
        var id := if refs[k] in nodeIdMap then StrId(nodeIdMap[refs[k]]) else StrId(NodeId(k));
        d := Put(d, id, Displayed(spheres[k], Red));
      }
      k := k + 1;
    }
    PassesExit(|spheres|, cancelAt, k);
  }

  /**
   * The cylinder loop of `draw_segments`, polling the dialog before each
   * segment: a non-null cylinder is kept and registered, blue, under the
   * segment's index.
   */
  method RegisterCylinders(base: Dict<ShapeId, Displayed>, segments: seq<(Point, Point)>, cylinderAt: ((Point, Point)) -> Shape, cancelAt: Option<nat>)
    returns (d: Dict<ShapeId, Displayed>, cylinders: seq<Shape>, k: nat)
    ensures k == Passes(|segments|, cancelAt)
    ensures d == SegmentEntries(base, segments, cylinderAt, k)
    ensures cylinders == Cylinders(segments, cylinderAt, k)
  {
    d, cylinders, k := base, [], 0;
    while k < |segments| && !Cancelled(cancelAt, k)
      invariant k <= |segments| && (cancelAt.Some? ==> k <= cancelAt.value)
      invariant d == SegmentEntries(base, segments, cylinderAt, k)
      invariant cylinders == Cylinders(segments, cylinderAt, k)
    {
      var c := cylinderAt(segments[k]);
      if !IsNull(c) {
        cylinders := cylinders + [c];
        d := Put(d, IntId(k), Displayed(c, Blue));
      }
      k := k + 1;
    }
    PassesExit(|segments|, cancelAt, k);
  }

  /**
   * The loop of `draw_imported_shapes`, polling the dialog before each
   * shape: each non-null imported shape is registered, light gray, under
   * its id.
   */
  method RegisterImported(step: Dict<string, Shape>, cancelAt: Option<nat>) returns (d: Dict<ShapeId, Displayed>, k: nat)
    requires forall s :: s in step.keys ==> s in step.values
    ensures k == Passes(|step.keys|, cancelAt)
    ensures d == ImportedEntries(step, k)
  {
    d, k := Empty(), 0;
    while k < |step.keys| && !Cancelled(cancelAt, k)
      invariant k <= |step.keys| && (cancelAt.Some? ==> k <= cancelAt.value)
      invariant d == ImportedEntries(step, k)
    {
      var id := step.keys[k];
      if !IsNull(step.values[id]) {
        d := Put(d, StrId(id), Displayed(step.values[id], LightGray));
      }
      k := k + 1;
    }
    PassesExit(|step.keys|, cancelAt, k);
  }

  /** The first pass of `analyze_shape_and_build_tree`: the explored shapes added to an indexed map. */
  method CollectUnique(explored: seq<Shape>) returns (u: seq<Shape>)
    ensures u == UniqueShapes(explored)
  {
    u := [];
    var i := 0;
    while i < |explored|
      invariant i <= |explored| && u == UniqueShapes(explored[..i])
    {
      assert explored[..i + 1][..i] == explored[..i];
      var s := explored[i];
      if !IsNull(s) && !Seen(u, s) {
        u := u + [s];
      }
      i := i + 1;
    }
    assert explored[..|explored|] == explored;
  }

  /**
   * `analyze_shape_and_build_tree`: the unique shapes are processed in
   * order, polling the dialog before each one; shape i gets its id, is
   * stored in `step_shapes`, has its type recorded in `shape_to_info` and
   * is filed under its category. A cancelled poll interrupts the analysis,
   * keeping what it stored; otherwise the root gets every id and the type
   * nodes in creation order. `total` is the number of unique shapes.
   */
  method AnalyzeShapeAndBuildTree(explored: seq<Shape>, hashOf: Shape -> nat, infos: map<ShapeId, Info>, cancelAt: Option<nat>)
    returns (step: Dict<string, Shape>, infos': map<ShapeId, Info>, root: Option<Item>, total: nat)
    ensures var u := UniqueShapes(explored); var ids := ImportedIds(u, hashOf); var k := Passes(|u|, cancelAt);
      && total == |u|
      && step == StepShapes(ids, u, k)
      && infos' == ImportedInfos(infos, ids, TypeNames(u), k)
      && (root.None? <==> k < |u|)
      && (root.Some? ==> root.value == ImportRoot(Categories(u), ids))
  {
    var u := CollectUnique(explored);
    total := |u|;
    step, infos', root := ProcessShapes(u, hashOf, infos, cancelAt);
  }

  /** The second pass of `analyze_shape_and_build_tree`, over the unique shapes `u`. */
  method ProcessShapes(u: seq<Shape>, hashOf: Shape -> nat, infos: map<ShapeId, Info>, cancelAt: Option<nat>)
    returns (step: Dict<string, Shape>, infos': map<ShapeId, Info>, root: Option<Item>)
    ensures var k := Passes(|u|, cancelAt);
      && step == StepShapes(ImportedIds(u, hashOf), u, k)
      && infos' == ImportedInfos(infos, ImportedIds(u, hashOf), TypeNames(u), k)
      && (root.None? <==> k < |u|)
      && (root.Some? ==> root.value == ImportRoot(Categories(u), ImportedIds(u, hashOf)))
  {
    var f, k := FileShapes(u, hashOf, infos, cancelAt);
    FiledStores(u, hashOf, infos, k);
    step, infos' := f.step, f.infos;
    if k < |u| {
      root := None;
    } else {
      var groups := f.groups;
      root := Some(Item(Many(f.all), seq(|groups.keys|, j requires 0 <= j < |groups.keys| => TypeItem(groups.values[groups.keys[j]]))));
    }
  }

  /**
   * `draw_imported_shapes` on an emptied display: the imported shapes are
   * registered in light gray under their ids, polling the dialog when
   * there is one.
   */
  method DrawImported(step: Dict<string, Shape>, dialog: Option<nat>) returns (d: Dict<ShapeId, Displayed>)
    requires ImportedValid(step)
    ensures Shows(d, [])
    ensures d == ImportedEntries(step, Passes(|step.keys|, dialog))
  {
    d := Empty();
    NothingShown();
    if step.keys == [] {
      return;
    }
    var k;
    d, k := RegisterImported(step, dialog);
    ImportedEntriesSpec(step, k);
    Released(d);
  }

  /**
   * What `import_cad_file` leaves after its resets: the tree, how many
   * times the tree was cleared, the imported shapes and their records,
   * the display, and whether the imported shapes were drawn. `main` is
   * the shape the reader produced (`None` when the format is not
   * supported, the file cannot be read, has no roots or gives a null
   * shape) and `explored` the sub-shapes the explorer finds in it. The
   * import dialog is polled after reading (poll 0), transferring (1) and
   * taking the shape (2); the analysis polls once per unique sub-shape
   * and once more after it; the drawing has its own dialog, after which
   * the import dialog is polled a last time. A failure or a cancellation
   * clears the tree again and keeps what was stored up to that point.
   */
  datatype Imported = Imported(tree: seq<Item>, clears: nat, step: Dict<string, Shape>,
                               infos: map<ShapeId, Info>, ais: Dict<ShapeId, Displayed>, drawn: bool)

  ghost function ImportOutcome(main: Option<Shape>, explored: seq<Shape>, hashOf: Shape -> nat,
                               cancelAt: Option<nat>, drawCancelAt: Option<nat>): Imported
  {
    if main.None? || Cancelled(cancelAt, 2) then Imported([], 2, Empty(), map[], Empty(), false)
    else
      var u := UniqueShapes(explored);
      var ids := ImportedIds(u, hashOf);
      var k := Passes(|u|, After(cancelAt, 3));
      var step := StepShapes(ids, u, k);
      var infos := ImportedInfos(map[], ids, TypeNames(u), k);
      if k < |u| || Cancelled(cancelAt, 3 + |u|) then Imported([], 2, step, infos, Empty(), false)
      else
        StepShapesImported(u, hashOf, k);
        var ais := ImportedEntries(step, Passes(|step.keys|, drawCancelAt));
        if Cancelled(cancelAt, 4 + |u|) then Imported([], 2, step, infos, ais, true)
        else Imported([ImportRoot(Categories(u), ids)], 1, step, infos, ais, true)
  }

  /** The steps of `import_cad_file` after its resets. */
  method Import(main: Option<Shape>, explored: seq<Shape>, hashOf: Shape -> nat,
                cancelAt: Option<nat>, drawCancelAt: Option<nat>) returns (o: Imported)
    ensures o == ImportOutcome(main, explored, hashOf, cancelAt, drawCancelAt)
    ensures ImportedValid(o.step) && Shows(o.ais, [])
  {
    NothingShown();
    if main.None? || Cancelled(cancelAt, 2) {
      return Imported([], 2, Empty(), map[], Empty(), false);
    }
    var step, infos, root, total := AnalyzeShapeAndBuildTree(explored, hashOf, map[], After(cancelAt, 3));
    StepShapesImported(UniqueShapes(explored), hashOf, Passes(total, After(cancelAt, 3)));
    if root.None? || Cancelled(cancelAt, 3 + total) {
      return Imported([], 2, step, infos, Empty(), false);
    }
    var d := DrawImported(step, drawCancelAt);
    if Cancelled(cancelAt, 4 + total) {
      return Imported([], 2, step, infos, d, true);
    }
    o := Imported([root.value], 1, step, infos, d, true);
  }

  /**
   * What `draw_segments` leaves on an emptied display: nothing when there
   * is nothing to draw; the spheres registered before the dialog reports
   * cancelled and no cylinders when it does so by the poll after the
   * spheres; otherwise those spheres and the cylinders registered from
   * the next poll on. The flag says whether the segments were reached.
   */
  ghost function Scene(spheres: seq<Shape>, refs: seq<string>, nodeIdMap: map<string, string>,
                       segments: seq<(Point, Point)>, cylinderAt: ((Point, Point)) -> Shape, dialog: Option<nat>)
    : (Dict<ShapeId, Displayed>, seq<Shape>, bool)
    requires |spheres| <= |refs|
  {
    var entries := NodeEntries(spheres, refs, nodeIdMap, Passes(|spheres|, dialog));
    var m := Passes(|segments|, After(dialog, |spheres| + 1));
    if |segments| + |spheres| == 0 then (Empty(), [], false)
    else if Cancelled(dialog, |spheres|) then (entries, [], false)
    else (SegmentEntries(entries, segments, cylinderAt, m), Cylinders(segments, cylinderAt, m), true)
  }

  /**
   * The drawing part of `draw_segments`, on an emptied display: with
   * anything to draw, the node spheres are registered, one poll of the
   * dialog each, then, unless the dialog reports cancelled, the segments'
   * cylinders, polling from the next poll on; `drew` says whether the
   * segments were reached.
   */
  method DrawScene(spheres: seq<Shape>, refs: seq<string>, nodeIdMap: map<string, string>,
                   segments: seq<(Point, Point)>, cylinderAt: ((Point, Point)) -> Shape, dialog: Option<nat>)
    returns (d: Dict<ShapeId, Displayed>, cylinders: seq<Shape>, drew: bool)
    requires |spheres| <= |refs| && IdsByPosition(refs, nodeIdMap)
    ensures Shows(d, [])
    ensures (d, cylinders, drew) == Scene(spheres, refs, nodeIdMap, segments, cylinderAt, dialog)
  {
    d, cylinders, drew := Empty(), [], false;
    NothingShown();
    if |segments| + |spheres| == 0 {
      return;
    }
    var k;
    d, k := RegisterSpheres(spheres, refs, nodeIdMap, dialog);
    NodeEntriesValid(spheres, refs, nodeIdMap, k);
    Released(d);
    if Cancelled(dialog, |spheres|) {
      return;
    }
    var base := d;
    var m;
    d, cylinders, m := RegisterCylinders(base, segments, cylinderAt, After(dialog, |spheres| + 1));
    SegmentEntriesSpec(base, segments, cylinderAt, m);
    Released(d);
    drew := true;
  }

  /** The four stores the second pass fills: `step_shapes`, `shape_to_info`, the type groups and the list of all ids. */
  datatype Filing = Filing(step: Dict<string, Shape>, infos: map<ShapeId, Info>, groups: Dict<string, seq<ShapeId>>, all: seq<ShapeId>)

  /** The stores after the first k unique shapes have been filed one by one. */
  function Filed(u: seq<Shape>, hashOf: Shape -> nat, infos: map<ShapeId, Info>, k: nat): Filing
    requires k <= |u|
  {
    if k == 0 then Filing(Empty(), infos, Empty(), [])
    else FileOne(Filed(u, hashOf, infos, k - 1), u[k - 1], ImportedId(u[k - 1].kind, k - 1, hashOf(u[k - 1])))
  }

  /** Filing shape k, under its id and its category. */
  function FileOne(f: Filing, s: Shape, id: string): Filing
  {
    var category := Category(s.kind);
    Filing(Put(f.step, id, s), f.infos[StrId(id) := ImportedRecord(TypeName(s.kind))],
           Put(f.groups, category, Get(f.groups, category, []) + [StrId(id)]), f.all + [StrId(id)])
  }

  /** Filing the first k shapes leaves the four stores the import describes. */
  lemma {:induction false} FiledStores(u: seq<Shape>, hashOf: Shape -> nat, infos: map<ShapeId, Info>, k: nat)
    requires k <= |u|
    ensures var ids := ImportedIds(u, hashOf);
      Filed(u, hashOf, infos, k)
        == Filing(StepShapes(ids, u, k), ImportedInfos(infos, ids, TypeNames(u), k), TypeGroups(Categories(u), ids, k), StrIds(ids, k))
  {
    if k > 0 {
      FiledStores(u, hashOf, infos, k - 1);
      var ids := ImportedIds(u, hashOf);
      assert ids[k - 1] == ImportedId(u[k - 1].kind, k - 1, hashOf(u[k - 1]));
      assert Categories(u)[k - 1] == Category(u[k - 1].kind);
      assert TypeNames(u)[k - 1] == TypeName(u[k - 1].kind);
      StrIdsSnoc(ids, k - 1);
    }
  }

  /**
   * The loop of the second pass: the stores filled with the shapes
   * processed before the dialog reports cancelled.
   */
  method FileShapes(u: seq<Shape>, hashOf: Shape -> nat, infos: map<ShapeId, Info>, cancelAt: Option<nat>)
    returns (f: Filing, k: nat)
    ensures k == Passes(|u|, cancelAt)
    ensures f == Filed(u, hashOf, infos, k)
  {
    f, k := Filing(Empty(), infos, Empty(), []), 0;
    while k < |u| && !Cancelled(cancelAt, k)
      invariant k <= |u| && (cancelAt.Some? ==> k <= cancelAt.value)
      invariant f == Filed(u, hashOf, infos, k)
    {
      var s := u[k];
      var id := ImportedId(s.kind, k, hashOf(s));
      f := FileOne(f, s, id);
      k := k + 1;
    }
    PassesExit(|u|, cancelAt, k);
  }

  class MainWindow {
    // The tree widget: its top-level items, which filling of it they
    // belong to, and its current item.
    var tree: seq<Item>
    var generation: nat
    var current: Option<ItemKey>

    // The record store.
    var records: Records

    // The shapes and what is displayed.
    var nodeShapes: seq<Shape>
    var segmentShapes: seq<Shape>
    var stepShapes: Dict<string, Shape>
    var ais: Dict<ShapeId, Displayed>
    var highlighted: seq<ShapeId>
    var selected: Option<ItemKey>
    var firstDraw: bool
    var info: InfoText

    /**
     * The window's invariant: every displayed shape shows the colour its
     * highlight state calls for, only displayed ids are highlighted, the
     * dicts keep distinct keys, node ids follow the node order, and no
     * imported id looks like a node id.
     */
    ghost predicate Valid()
      reads this
    {
      && Shows(ais, highlighted)
      && RecordsValid(records)
      && |nodeShapes| <= |records.uniqueNodes.keys|
      && ImportedValid(stepShapes)
    }

    /** Nothing highlighted, nothing selected, the first drawing still to come, and an empty info panel. */
    ghost predicate Initial()
      reads this
    {
      highlighted == [] && selected == None && firstDraw && info == Cleared
    }

    /** `__init__()`: empty stores, an empty tree, nothing displayed. */
    constructor ()
      ensures Valid() && Initial()
      ensures tree == [] && records == NoRecords()
    {
      tree, generation, current, records := [], 0, None, NoRecords();
      nodeShapes, segmentShapes, stepShapes, ais, highlighted := [], [], Empty(), Empty(), [];
      selected, firstDraw, info := None, true, Cleared;
    }

    /** `__init__(df)`: as `__init__()`, then the rows parsed into a new tree. */
    constructor FromRows(rows: seq<Row>, cancelAt: Option<nat>)
      ensures Valid() && Initial()
      ensures records == ParsedRecords(rows, cancelAt) && tree == [MainRoot(XlsxParse.Parsed(rows, cancelAt))]
      ensures generation == 1 && current == None
    {
      var r, items := Parse(rows, cancelAt);
      NothingShown();
      tree, generation, current, records := items, 1, None, r;
      nodeShapes, segmentShapes, stepShapes, ais, highlighted := [], [], Empty(), Empty(), [];
      selected, firstDraw, info := None, true, Cleared;
    }

    /**
     * `parse_df_and_populate_tree`: the stores are reset, the rows are
     * read until the dialog reports cancelled (the records of the rows
     * read are kept), node i gets the id node_i, and the tree is
     * rebuilt. The highlight and the selection are not reset.
     */
    method ParseDfAndPopulateTree(rows: seq<Row>, cancelAt: Option<nat>)
      modifies this`tree, this`generation, this`current, this`records
      modifies this`segmentShapes, this`ais, this`stepShapes, this`nodeShapes
      ensures records == ParsedRecords(rows, cancelAt) && tree == [MainRoot(XlsxParse.Parsed(rows, cancelAt))]
      ensures generation == old(generation) + 1 && current == None
      ensures ais == Empty() && stepShapes == Empty() && nodeShapes == [] && segmentShapes == []
      ensures highlighted == [] ==> Valid()
    {
      var r, items := Parse(rows, cancelAt);
      Reload(r, items);
    }

    /** The stores and the tree take a parse's records and items; nothing is displayed. */
    method Reload(r: Records, items: seq<Item>)
      requires RecordsValid(r)
      modifies this`tree, this`generation, this`current, this`records
      modifies this`segmentShapes, this`ais, this`stepShapes, this`nodeShapes
      ensures records == r && tree == items && generation == old(generation) + 1 && current == None
      ensures ais == Empty() && stepShapes == Empty() && nodeShapes == [] && segmentShapes == []
      ensures highlighted == [] ==> Valid()
    {
      tree, generation, current, records := items, generation + 1, None, r;
      segmentShapes, ais, stepShapes, nodeShapes := [], Empty(), Empty(), [];
      NothingShown();
    }

    /**
     * The block the handlers repeat: when something is highlighted, it is
     * released and forgotten and the info panel is cleared.
     */
    method ReleaseHighlight()
      requires Valid()
      modifies this`ais, this`highlighted, this`info
      ensures Valid() && highlighted == []
      ensures old(highlighted) == [] ==> ais == old(ais) && info == old(info)
      ensures old(highlighted) != [] ==> ais == Recoloured(old(ais), old(highlighted), false) && info == Cleared
    {
      if highlighted != [] {
        ReleaseShows(ais, highlighted);
        HighlightShapes(highlighted, false);
        highlighted := [];
        info := Cleared;
      }
    }

    /**
     * The old highlight released (when there is one) and `ids`, all
     * displayed, highlighted in its place.
     */
    method SwitchHighlightTo(ids: seq<ShapeId>)
      requires Valid() && forall id :: id in ids ==> id in ais.values
      modifies this`ais, this`highlighted
      ensures Valid() && highlighted == ids
      ensures ais == Recoloured(Recoloured(old(ais), old(highlighted), false), ids, true)
    {
      SwitchShows(ais, highlighted, ids);
      if highlighted != [] {
        HighlightShapes(highlighted, false);
      } else {
        RecolouredNone(ais, false);
      }
      HighlightShapes(ids, true);
      highlighted := ids;
    }

    /**
     * `on_tree_item_clicked`: an item none of whose ids is displayed
     * releases the highlight; clicking the selected item again releases
     * it and deselects; any other item replaces the highlight by its
     * displayed ids, in order, becomes the selected item and shows the
     * info of its first id.
     */
    method OnTreeItemClicked(key: ItemKey)
      requires Valid() && key.generation == generation && ValidPath(tree, key.path)
      modifies this`ais, this`highlighted, this`selected, this`info
      ensures Valid()
      ensures var valid := Present(DataIds(ItemAt(tree, key.path).data), old(ais));
        if valid == [] then
          && selected == old(selected) && highlighted == []
          && (old(highlighted) == [] ==> ais == old(ais) && info == old(info))
          && (old(highlighted) != [] ==> ais == Recoloured(old(ais), old(highlighted), false) && info == Cleared)
        else if old(selected) == Some(key) then
          && ais == Recoloured(old(ais), old(highlighted), false)
          && highlighted == [] && selected == None && info == Cleared
        else
          && ais == Recoloured(Recoloured(old(ais), old(highlighted), false), valid, true)
          && highlighted == valid && selected == Some(key)
          && info == InfoFor(records.shapeToInfo, records.linkData, valid[0], |valid|)
    {
      var data := ItemAt(tree, key.path).data;
      if data == NoData {
        ReleaseHighlight();
        return;
      }
      var valid := PresentIds(DataIds(data), ais);
      if valid == [] {
        ReleaseHighlight();
        return;
      }
      if selected == Some(key) {
        Deselect();
      } else {
        SelectItem(key, valid);
      }
    }

    /** Clicking the selected item again: its highlight is released and nothing is selected. */
    method Deselect()
      requires Valid()
      modifies this`ais, this`highlighted, this`selected, this`info
      ensures Valid()
      ensures ais == Recoloured(old(ais), old(highlighted), false)
      ensures highlighted == [] && selected == None && info == Cleared
    {
      ReleaseShows(ais, highlighted);
      HighlightShapes(highlighted, false);
      highlighted, selected, info := [], None, Cleared;
    }

    /** Clicking another item: its displayed ids replace the highlight and the info of the first is shown. */
    method SelectItem(key: ItemKey, valid: seq<ShapeId>)
      requires Valid() && valid != [] && forall id :: id in valid ==> id in ais.values
      modifies this`ais, this`highlighted, this`selected, this`info
      ensures Valid()
      ensures ais == Recoloured(Recoloured(old(ais), old(highlighted), false), valid, true)
      ensures highlighted == valid && selected == Some(key)
      ensures info == InfoFor(records.shapeToInfo, records.linkData, valid[0], |valid|)
    {
      SwitchHighlightTo(valid);
      selected := Some(key);
      info := InfoFor(records.shapeToInfo, records.linkData, valid[0], |valid|);
    }

    /**
     * `shape_selection_callback`: an empty pick, or one that resolves to no
     * registered id, releases the highlight; a null pick is ignored; a pick
     * that resolves to an id highlights that id alone (releasing the old
     * highlight unless it was that id), shows its info and selects its
     * tree item.
     */
    method ShapeSelectionCallback(picks: seq<Shape>)
      requires Valid()
      modifies this`ais, this`highlighted, this`info, this`current
      ensures Valid()
      ensures picks != [] && IsNull(picks[0]) ==>
        ais == old(ais) && highlighted == old(highlighted) && info == old(info) && current == old(current)
      ensures picks == [] || (!IsNull(picks[0]) && PickedId(old(ais), picks[0]).None?) ==>
        && highlighted == [] && current == old(current)
        && (old(highlighted) == [] ==> ais == old(ais) && info == old(info))
        && (old(highlighted) != [] ==> ais == Recoloured(old(ais), old(highlighted), false) && info == Cleared)
      ensures picks != [] && !IsNull(picks[0]) && PickedId(old(ais), picks[0]).Some? ==>
        var id := PickedId(old(ais), picks[0]).value;
        && highlighted == [id]
        && ais == (if old(highlighted) == [id] then old(ais) else Recoloured(Recoloured(old(ais), old(highlighted), false), [id], true))
        && info == InfoFor(records.shapeToInfo, records.linkData, id, 1)
        && SelectsMatch(tree, generation, id, old(current), current)
    {
      if picks == [] {
        ReleaseHighlight();
        return;
      }
      var pick := picks[0];
      if IsNull(pick) {
        return;
      }
      var found := FindShapeId(ais, pick);
      if found.None? {
        ReleaseHighlight();
        return;
      }
      HighlightPicked(found.value);
      FindAndSelectTreeItem(found.value);
    }

    /**
     * The picked id alone is highlighted, the old highlight being released
     * first unless it was that id, and its info is shown.
     */
    method HighlightPicked(id: ShapeId)
      requires Valid() && id in ais.values
      modifies this`ais, this`highlighted, this`info
      ensures Valid() && highlighted == [id]
      ensures ais == if old(highlighted) == [id] then old(ais) else Recoloured(Recoloured(old(ais), old(highlighted), false), [id], true)
      ensures info == InfoFor(records.shapeToInfo, records.linkData, id, 1)
    {
      if highlighted == [id] {
        RepickUnchanged(ais, id);
        HighlightShapes([id], true);
      } else {
        SwitchHighlightTo([id]);
      }
      info := InfoFor(records.shapeToInfo, records.linkData, id, 1);
    }

    /**
     * `find_and_select_tree_item`: the first item the breadth-first search
     * meets whose data is the id or a list holding it becomes the current
     * item; with no such item the current item is kept.
     */
    method FindAndSelectTreeItem(id: ShapeId)
      modifies this`current
      ensures SelectsMatch(tree, generation, id, old(current), current)
    {
      var found := SearchTree(tree, id);
      if found.Some? {
        current := Some(ItemKey(generation, found.value));
      }
    }

    /** `create_node_shapes`: a sphere per node in insertion order, dropping the null ones. */
    method CreateNodeShapes(sphereAt: Point -> Shape)
      requires RecordsValid(records)
      modifies this`nodeShapes
      ensures nodeShapes == NodeSpheres(records.uniqueNodes, sphereAt, |records.uniqueNodes.keys|)
    {
      nodeShapes := [];
      var i := 0;
      while i < |records.uniqueNodes.keys|
        invariant i <= |records.uniqueNodes.keys|
        invariant nodeShapes == NodeSpheres(records.uniqueNodes, sphereAt, i)
      {
        var sphere := sphereAt(records.uniqueNodes.values[records.uniqueNodes.keys[i]]);
        if !IsNull(sphere) {
          nodeShapes := nodeShapes + [sphere];
        }
        i := i + 1;
      }
    }

    /**
     * `draw_segments`: the display and the highlight are reset, the node
     * spheres are created when there are none yet, the spheres and then
     * the cylinders are registered, and the drawing is marked done. Only
     * the first drawing has a dialog; it is polled before each sphere,
     * once between the loops, and before each segment.
     */
    method DrawSegments(sphereAt: Point -> Shape, cylinderAt: ((Point, Point)) -> Shape, cancelAt: Option<nat>)
      requires Valid()
      modifies this`ais, this`highlighted, this`segmentShapes, this`nodeShapes, this`firstDraw
      ensures Valid() && highlighted == []
      ensures nodeShapes == if old(nodeShapes) == [] && records.uniqueNodes.keys != [] then
        NodeSpheres(records.uniqueNodes, sphereAt, |records.uniqueNodes.keys|) else old(nodeShapes)
      ensures var scene := Scene(nodeShapes, records.uniqueNodes.keys, records.nodeIdMap, records.segments, cylinderAt,
                                 if old(firstDraw) then cancelAt else None);
        ais == scene.0 && segmentShapes == scene.1 && firstDraw == (old(firstDraw) && !scene.2)
    {
      if nodeShapes == [] && records.uniqueNodes.keys != [] {
        CreateNodeShapes(sphereAt);
      }
      var dialog := if firstDraw then cancelAt else None;
      var d, cylinders, drew := DrawScene(nodeShapes, records.uniqueNodes.keys, records.nodeIdMap, records.segments, cylinderAt, dialog);
      ShowScene(d, cylinders, drew);
    }

    /** The display takes what a drawing registered, with nothing highlighted. */
    method ShowScene(d: Dict<ShapeId, Displayed>, cylinders: seq<Shape>, drew: bool)
      requires Valid() && Shows(d, [])
      modifies this`ais, this`highlighted, this`segmentShapes, this`firstDraw
      ensures Valid() && ais == d && highlighted == [] && segmentShapes == cylinders
      ensures firstDraw == (old(firstDraw) && !drew)
    {
      ais, highlighted, segmentShapes := d, [], cylinders;
      if drew {
        firstDraw := false;
      }
    }

    /**
     * `draw_imported_shapes`: the display and the highlight are reset and
     * the imported shapes are registered, polling the dialog when there
     * is one.
     */
    method DrawImportedShapes(showProgress: bool, cancelAt: Option<nat>)
      requires Valid()
      modifies this`ais, this`highlighted
      ensures Valid() && highlighted == []
      ensures ais == ImportedEntries(stepShapes, Passes(|stepShapes.keys|, if showProgress then cancelAt else None))
    {
      highlighted := [];
      ais := DrawImported(stepShapes, if showProgress then cancelAt else None);
    }

    /**
     * `import_cad_file`: the stores, the tree and the display are reset,
     * then the file is imported as `ImportOutcome` describes.
     */
    method ImportCadFile(main: Option<Shape>, explored: seq<Shape>, hashOf: Shape -> nat,
                         cancelAt: Option<nat>, drawCancelAt: Option<nat>)
      modifies this`tree, this`generation, this`current, this`records, this`segmentShapes, this`nodeShapes
      modifies this`stepShapes, this`ais, this`highlighted, this`firstDraw
      ensures Valid() && highlighted == [] && current == None && segmentShapes == [] && nodeShapes == []
      ensures var o := ImportOutcome(main, explored, hashOf, cancelAt, drawCancelAt);
        && tree == o.tree && generation == old(generation) + o.clears
        && records == NoRecords().(shapeToInfo := o.infos) && stepShapes == o.step && ais == o.ais
        && firstDraw == (old(firstDraw) || o.drawn)
    {
      var o := Import(main, explored, hashOf, cancelAt, drawCancelAt);
      Install(o);
    }

    /** The stores, the tree and the display take what an import left. */
    method Install(o: Imported)
      requires ImportedValid(o.step) && Shows(o.ais, [])
      modifies this`tree, this`generation, this`current, this`records, this`segmentShapes, this`nodeShapes
      modifies this`stepShapes, this`ais, this`highlighted, this`firstDraw
      ensures Valid() && highlighted == [] && current == None && segmentShapes == [] && nodeShapes == []
      ensures && tree == o.tree && generation == old(generation) + o.clears
              && records == NoRecords().(shapeToInfo := o.infos) && stepShapes == o.step && ais == o.ais
              && firstDraw == (old(firstDraw) || o.drawn)
    {
      tree, generation, current := o.tree, generation + o.clears, None;
      segmentShapes, nodeShapes, records := [], [], NoRecords().(shapeToInfo := o.infos);
      stepShapes, ais, highlighted := o.step, o.ais, [];
      if o.drawn {
        firstDraw := true;
      }
    }

    /** `highlight_shapes(ids, on)`: each displayed id of `ids` takes the colour for `on`. */
    method HighlightShapes(ids: seq<ShapeId>, on: bool)
      modifies this`ais
      ensures ais == Recoloured(old(ais), ids, on)
    {
      RecolouredNone(ais, on);
      assert ids[..0] == [];
      var i := 0;
      while i < |ids|
        invariant i <= |ids|
        invariant ais == Recoloured(old(ais), ids[..i], on)
      {
        var id := ids[i];
        if id in ais.values {
          ais := Dict(ais.keys, ais.values[id := Displayed(ais.values[id].shape, ColourFor(id, on))]);
        }
        RecolouredStep(old(ais), ids, i, on);
        i := i + 1;
      }
      assert ids[..|ids|] == ids;
    }
  }
}
