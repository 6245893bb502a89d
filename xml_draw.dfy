/**
 * What the XML viewer (visualize_xml.py) registers in `ais_shapes` and
 * how it colours it: the segment cylinders under their indices and the
 * imported shapes under their ids, all blue, handed to the display in
 * batches of 50; highlighting in yellow and releasing in blue, in slices
 * of 100 ids; and which ids of a clicked tree item can be highlighted.
 */
module XmlDraw {
  import opened Basics
  import opened Dicts
  import opened Shapes
  import opened Batches

  /** Shapes are handed to the display in batches of this many. */
  const DrawBatch: nat := 50

  /** `highlight_shapes` works through its ids in slices of this many. */
  const HighlightSlice: nat := 100

  // ---------------------------------------------------------------------
  // Colours
  // ---------------------------------------------------------------------

  /** Yellow when highlighting, blue when releasing, whatever the shape. */
  function Tint(on: bool): Colour
  {
    if on then Yellow else Blue
  }

  /** The display entries after `highlight_shapes(ids, on)`: each registered id of `ids` recoloured. */
  function Recoloured(d: Dict<ShapeId, Displayed>, ids: seq<ShapeId>, on: bool): (r: Dict<ShapeId, Displayed>)
    ensures r.keys == d.keys
    ensures forall k :: k in r.values <==> k in d.values
    ensures forall k :: k in d.values ==> r.values[k].shape == d.values[k].shape
  {
    Dict(d.keys, map k | k in d.values :: if k in ids then Displayed(d.values[k].shape, Tint(on)) else d.values[k])
  }

  /** An id listed in `ids` takes the colour for `on`; any other keeps its colour. */
  lemma RecolouredColour(d: Dict<ShapeId, Displayed>, ids: seq<ShapeId>, on: bool, k: ShapeId)
    requires k in d.values
    ensures Recoloured(d, ids, on).values[k].colour == if k in ids then Tint(on) else d.values[k].colour
  {
  }

  /** One pass of the inner loop of `highlight_shapes`: an unregistered id is skipped. */
  function Recolour(d: Dict<ShapeId, Displayed>, id: ShapeId, on: bool): Dict<ShapeId, Displayed>
  {
    if id in d.values then Dict(d.keys, d.values[id := Displayed(d.values[id].shape, Tint(on))]) else d
  }

  /** Recolouring one more id after a list of them is recolouring the longer list. */
  lemma RecolouredSnoc(d: Dict<ShapeId, Displayed>, done: seq<ShapeId>, x: ShapeId, on: bool)
    ensures Recoloured(d, done + [x], on) == Recolour(Recoloured(d, done, on), x, on)
  {
    var a := Recoloured(d, done + [x], on);
    var b := Recolour(Recoloured(d, done, on), x, on);
    assert forall k :: k in done + [x] <==> k in done || k == x;
    assert a.values == b.values;
  }

  /** Recolouring no ids changes nothing. */
  lemma RecolouredNone(d: Dict<ShapeId, Displayed>, on: bool)
    ensures Recoloured(d, [], on) == d
  {
    assert Recoloured(d, [], on).values == d.values;
  }

  /** Every displayed shape is yellow when it is highlighted and blue otherwise. */
  ghost predicate ColoursAgree(d: Dict<ShapeId, Displayed>, highlighted: seq<ShapeId>)
  {
    forall k :: k in d.values ==> d.values[k].colour == Tint(k in highlighted)
  }

  /** Highlighting and then releasing the same ids, from an all-blue display, restores it exactly. */
  lemma HighlightRoundTrip(d: Dict<ShapeId, Displayed>, ids: seq<ShapeId>)
    requires ColoursAgree(d, [])
    ensures Recoloured(Recoloured(d, ids, true), ids, false) == d
  {
    var r := Recoloured(Recoloured(d, ids, true), ids, false);
    forall k | k in d.values
      ensures r.values[k] == d.values[k]
    {
      RecolouredColour(d, ids, true, k);
      RecolouredColour(Recoloured(d, ids, true), ids, false, k);
    }
    assert r.values == d.values;
  }

  /** Releasing the old highlight and highlighting a new list leaves exactly the new list highlighted. */
  lemma SwitchHighlight(d: Dict<ShapeId, Displayed>, before: seq<ShapeId>, after: seq<ShapeId>)
    requires ColoursAgree(d, before)
    ensures ColoursAgree(Recoloured(Recoloured(d, before, false), after, true), after)
  {
    var mid := Recoloured(d, before, false);
    forall k | k in d.values
      ensures Recoloured(mid, after, true).values[k].colour == Tint(k in after)
    {
      RecolouredColour(d, before, false, k);
      RecolouredColour(mid, after, true, k);
    }
  }

  /** Releasing the old highlight leaves every shape blue. */
  lemma ClearHighlight(d: Dict<ShapeId, Displayed>, before: seq<ShapeId>)
    requires ColoursAgree(d, before)
    ensures ColoursAgree(Recoloured(d, before, false), [])
  {
    forall k | k in d.values
      ensures Recoloured(d, before, false).values[k].colour == Tint(false)
    {
      RecolouredColour(d, before, false, k);
    }
  }

  /**
   * `highlight_shapes(ids, on)`: `range(0, len(ids), 100)` picks the
   * slices `ids[i:i + 100]`, and each registered id of a slice takes
   * the colour for `on`. Together the slices recolour every id once.
   */
  method Highlight(d: Dict<ShapeId, Displayed>, ids: seq<ShapeId>, on: bool) returns (r: Dict<ShapeId, Displayed>)
    ensures r == Recoloured(d, ids, on)
  {
    r := d;
    RecolouredNone(d, on);
    var i := 0;
    ghost var b := 0;
    BatchStarts(|ids|, HighlightSlice, 0);
    while i < |ids|
      invariant b <= BatchCount(|ids|, HighlightSlice) && i == b * HighlightSlice
      invariant i < |ids| <==> b < BatchCount(|ids|, HighlightSlice)
      invariant r == Recoloured(d, ids[..Covered(|ids|, HighlightSlice, b)], on)
    {
      CoveredStep(|ids|, HighlightSlice, b + 1);
      var stop := if i + HighlightSlice <= |ids| then i + HighlightSlice else |ids|;
      var slice := ids[i..stop];
      r := HighlightSlicePass(d, ids, i, slice, on, r);
      b, i := b + 1, i + HighlightSlice;
      BatchStarts(|ids|, HighlightSlice, b);
    }
    if |ids| > 0 {
      BatchBounds(|ids|, HighlightSlice, b - 1);
      CoveredStep(|ids|, HighlightSlice, b);
    }
    assert ids[..Covered(|ids|, HighlightSlice, b)] == ids;
  }

  /** The inner loop of `highlight_shapes` over one slice, which starts at position `from` of `ids`. */
  method HighlightSlicePass(ghost d: Dict<ShapeId, Displayed>, ghost ids: seq<ShapeId>, ghost from: nat,
                            slice: seq<ShapeId>, on: bool, r0: Dict<ShapeId, Displayed>)
    returns (r: Dict<ShapeId, Displayed>)
    requires from + |slice| <= |ids| && slice == ids[from..from + |slice|]
    requires r0 == Recoloured(d, ids[..from], on)
    ensures r == Recoloured(d, ids[..from + |slice|], on)
  {
    r := r0;
    var t := 0;
    while t < |slice|
      invariant t <= |slice| && r == Recoloured(d, ids[..from + t], on)
    {
      var id := slice[t];
      if id in r.values {
        r := Dict(r.keys, r.values[id := Displayed(r.values[id].shape, Tint(on))]);
      }
      assert ids[..from + t + 1] == ids[..from + t] + [id];
      RecolouredSnoc(d, ids[..from + t], id, on);
      t := t + 1;
    }
  }

  // ---------------------------------------------------------------------
  // Registration
  // ---------------------------------------------------------------------

  /** The ids of a list of (id, shape) pairs. */
  function IdsOf(entries: seq<(ShapeId, Shape)>): (r: seq<ShapeId>)
    ensures |r| == |entries| && forall i :: 0 <= i < |r| ==> r[i] == entries[i].0
  {
    seq(|entries|, i requires 0 <= i < |entries| => entries[i].0)
  }

  ghost predicate DistinctIds(entries: seq<(ShapeId, Shape)>)
  {
    forall i, j :: 0 <= i < j < |entries| ==> entries[i].0 != entries[j].0
  }

  /** `ais_shapes` once the first m pairs have been displayed: each shape, blue, under its id. */
  function Registered(entries: seq<(ShapeId, Shape)>, m: nat): Dict<ShapeId, Displayed>
    requires m <= |entries|
  {
    if m == 0 then Empty()
    else Put(Registered(entries, m - 1), entries[m - 1].0, Displayed(entries[m - 1].1, Blue))
  }

  /** With distinct ids, the first m pairs are registered in order: the dict's keys are their ids. */
  lemma {:induction false} RegisteredKeys(entries: seq<(ShapeId, Shape)>, m: nat)
    requires m <= |entries| && DistinctIds(entries)
    ensures Registered(entries, m).keys == IdsOf(entries[..m])
    ensures forall k :: k in Registered(entries, m).values <==> k in Registered(entries, m).keys
  {
    if m > 0 {
      var d := Registered(entries, m - 1);
      var id := entries[m - 1].0;
      RegisteredKeys(entries, m - 1);
      forall i | 0 <= i < m - 1
        ensures d.keys[i] != id
      {
        assert d.keys[i] == entries[i].0;
      }
      assert id !in d.values;
      assert IdsOf(entries[..m]) == IdsOf(entries[..m - 1]) + [id];
    }
  }

  /** The registered dict keeps distinct keys, and everything in it shows blue. */
  lemma RegisteredValid(entries: seq<(ShapeId, Shape)>, m: nat)
    requires m <= |entries| && DistinctIds(entries)
    ensures Valid(Registered(entries, m)) && ColoursAgree(Registered(entries, m), [])
  {
    var d := Registered(entries, m);
    RegisteredKeys(entries, m);
    forall k | k in d.values
      ensures d.values[k].colour == Blue
    {
      var j :| 0 <= j < m && d.keys[j] == k;
      RegisteredAt(entries, m, j);
    }
  }

  /** Pair j, once registered, keeps its shape under its id while later pairs are registered. */
  lemma {:induction false} RegisteredAt(entries: seq<(ShapeId, Shape)>, m: nat, j: nat)
    requires j < m <= |entries| && DistinctIds(entries)
    ensures entries[j].0 in Registered(entries, m).values
    ensures Registered(entries, m).values[entries[j].0] == Displayed(entries[j].1, Blue)
  {
    if j < m - 1 {
      RegisteredAt(entries, m - 1, j);
    }
  }

  /** The pairs the segment loop displays: segment i's cylinder under the index i. */
  function SegmentList(segments: seq<(Point, Point)>, cylinderAt: ((Point, Point)) -> Shape): (r: seq<(ShapeId, Shape)>)
    ensures |r| == |segments|
    ensures forall i :: 0 <= i < |r| ==> r[i] == (IntId(i), cylinderAt(segments[i]))
  {
    seq(|segments|, i requires 0 <= i < |segments| => (IntId(i), cylinderAt(segments[i])))
  }

  /** Segment indices are distinct. */
  lemma SegmentListDistinct(segments: seq<(Point, Point)>, cylinderAt: ((Point, Point)) -> Shape)
    ensures DistinctIds(SegmentList(segments, cylinderAt))
  {
    var r := SegmentList(segments, cylinderAt);
    forall i, j | 0 <= i < j < |r|
      ensures r[i].0 != r[j].0
    {
      assert r[i].0 == IntId(i) && r[j].0 == IntId(j);
    }
  }

  /** The pairs the imported-shape loop displays: `step_shapes.items()` in insertion order. */
  function StepList(step: Dict<string, Shape>): (r: seq<(ShapeId, Shape)>)
    requires forall k :: k in step.keys ==> k in step.values
    ensures |r| == |step.keys|
    ensures forall i :: 0 <= i < |r| ==> r[i] == (StrId(step.keys[i]), step.values[step.keys[i]])
  {
    seq(|step.keys|, i requires 0 <= i < |step.keys| => (StrId(step.keys[i]), step.values[step.keys[i]]))
  }

  /** A dict's keys are distinct, so are the ids of its items. */
  lemma StepListDistinct(step: Dict<string, Shape>)
    requires Valid(step)
    ensures DistinctIds(StepList(step))
  {
    var r := StepList(step);
    forall i, j | 0 <= i < j < |r|
      ensures r[i].0 != r[j].0
    {
      assert step.keys[i] != step.keys[j];
    }
  }

  /**
   * The inner loop that flushes a batch: each pair of it displayed, blue,
   * under its id. The batch holds pairs `lo` to `lo + |batch|` of
   * `entries`.
   */
  method Flush(ais: Dict<ShapeId, Displayed>, batch: seq<(ShapeId, Shape)>, ghost entries: seq<(ShapeId, Shape)>, ghost lo: nat)
    returns (r: Dict<ShapeId, Displayed>)
    requires lo + |batch| <= |entries| && batch == entries[lo..lo + |batch|]
    requires ais == Registered(entries, lo)
    ensures r == Registered(entries, lo + |batch|)
  {
    r := ais;
    var t := 0;
    while t < |batch|
      invariant t <= |batch| && r == Registered(entries, lo + t)
    {
      r := Put(r, batch[t].0, Displayed(batch[t].1, Blue));
      t := t + 1;
    }
  }

  /**
   * One pass of a display loop: pair k joins the batch, and the batch is
   * flushed when it holds 50 pairs or k is the last pass. What has been
   * registered is always `Flushed(k, n, 50)` pairs, and the batch holds the
   * rest of the pairs so far.
   */
  method Pass(ais: Dict<ShapeId, Displayed>, batch: seq<(ShapeId, Shape)>, ghost entries: seq<(ShapeId, Shape)>, n: nat, k: nat, e: (ShapeId, Shape))
    returns (ais': Dict<ShapeId, Displayed>, batch': seq<(ShapeId, Shape)>)
    requires n == |entries| && k < n && e == entries[k]
    requires ais == Registered(entries, Flushed(k, |entries|, DrawBatch))
    requires batch == entries[Flushed(k, |entries|, DrawBatch)..k]
    ensures ais' == Registered(entries, Flushed(k + 1, |entries|, DrawBatch))
    ensures batch' == entries[Flushed(k + 1, |entries|, DrawBatch)..k + 1]
  {
    ghost var lo := Flushed(k, |entries|, DrawBatch);
    batch' := batch + [e];
    assert batch' == entries[lo..k + 1];
    if |batch'| >= DrawBatch || k == n - 1 {
      ais' := Flush(ais, batch', entries, lo);
      batch' := [];
    } else {
      ais' := ais;
    }
  }

  /** `segment_shapes` after the segment loop has made k cylinders: segment i's cylinder at position i. */
  function Cylinders(segments: seq<(Point, Point)>, cylinderAt: ((Point, Point)) -> Shape, k: nat): (r: seq<Shape>)
    requires k <= |segments|
    ensures |r| == k && forall i :: 0 <= i < k ==> r[i] == cylinderAt(segments[i])
  {
    if k == 0 then [] else Cylinders(segments, cylinderAt, k - 1) + [cylinderAt(segments[k - 1])]
  }

  /**
   * The loop of `draw_segments`, polling the dialog before each segment:
   * the first k cylinders are kept, in order, and the pairs of the batches
   * flushed so far are registered.
   */
  method DrawSegments(segments: seq<(Point, Point)>, cylinderAt: ((Point, Point)) -> Shape, cancelAt: Option<nat>)
    returns (ais: Dict<ShapeId, Displayed>, cylinders: seq<Shape>, k: nat)
    ensures k == Passes(|segments|, cancelAt)
    ensures cylinders == Cylinders(segments, cylinderAt, k)
    ensures ais == Registered(SegmentList(segments, cylinderAt), Flushed(k, |segments|, DrawBatch))
  {
    var batch: seq<(ShapeId, Shape)> := [];
    ais, cylinders, k := Empty(), [], 0;
    while k < |segments| && !Cancelled(cancelAt, k)
      invariant k <= |segments| && (cancelAt.Some? ==> k <= cancelAt.value)
      invariant cylinders == Cylinders(segments, cylinderAt, k)
      invariant ais == Registered(SegmentList(segments, cylinderAt), Flushed(k, |segments|, DrawBatch))
      invariant batch == SegmentList(segments, cylinderAt)[Flushed(k, |segments|, DrawBatch)..k]
    {
      ais, batch, cylinders := SegmentPass(segments, cylinderAt, k, ais, batch, cylinders);
      k := k + 1;
    }
    PassesExit(|segments|, cancelAt, k);
  }

  /** One pass of the segment loop: the cylinder of segment k is made, kept, and joins the batch. */
  method SegmentPass(segments: seq<(Point, Point)>, cylinderAt: ((Point, Point)) -> Shape, k: nat,
                     ais: Dict<ShapeId, Displayed>, batch: seq<(ShapeId, Shape)>, cylinders: seq<Shape>)
    returns (ais': Dict<ShapeId, Displayed>, batch': seq<(ShapeId, Shape)>, cylinders': seq<Shape>)
    requires k < |segments|
    requires cylinders == Cylinders(segments, cylinderAt, k)
    requires ais == Registered(SegmentList(segments, cylinderAt), Flushed(k, |segments|, DrawBatch))
    requires batch == SegmentList(segments, cylinderAt)[Flushed(k, |segments|, DrawBatch)..k]
    ensures cylinders' == Cylinders(segments, cylinderAt, k + 1)
    ensures ais' == Registered(SegmentList(segments, cylinderAt), Flushed(k + 1, |segments|, DrawBatch))
    ensures batch' == SegmentList(segments, cylinderAt)[Flushed(k + 1, |segments|, DrawBatch)..k + 1]
  {
    var cylinder := cylinderAt(segments[k]);
    cylinders' := cylinders + [cylinder];
    ais', batch' := Pass(ais, batch, SegmentList(segments, cylinderAt), |segments|, k, (IntId(k), cylinder));
  }

  /**
   * The loop of `draw_imported_shapes` on an emptied display: nothing
   * happens for an empty `step_shapes`; otherwise the items are displayed
   * in batches, polling the dialog, when there is one, before each.
   */
  method DrawImported(step: Dict<string, Shape>, dialog: Option<nat>) returns (ais: Dict<ShapeId, Displayed>, count: nat)
    requires forall k :: k in step.keys ==> k in step.values
    ensures count == Passes(|step.keys|, dialog)
    ensures ais == Registered(StepList(step), Flushed(count, |step.keys|, DrawBatch))
  {
    ais, count := Empty(), 0;
    if step.keys == [] {
      return;
    }
    ghost var entries := StepList(step);
    var batch: seq<(ShapeId, Shape)> := [];
    while count < |step.keys| && !Cancelled(dialog, count)
      invariant count <= |step.keys| && (dialog.Some? ==> count <= dialog.value)
      invariant ais == Registered(entries, Flushed(count, |step.keys|, DrawBatch))
      invariant batch == entries[Flushed(count, |step.keys|, DrawBatch)..count]
    {
      var id := step.keys[count];
      ais, batch := Pass(ais, batch, entries, |step.keys|, count, (StrId(id), step.values[id]));
      count := count + 1;
    }
    PassesExit(|step.keys|, dialog, count);
  }

  /**
   * A segment drawing that was not cancelled registers segment i, blue,
   * under the index i, for every i, and nothing else.
   */
  lemma SegmentsDrawn(segments: seq<(Point, Point)>, cylinderAt: ((Point, Point)) -> Shape)
    ensures var d := Registered(SegmentList(segments, cylinderAt), Flushed(|segments|, |segments|, DrawBatch));
      && Valid(d) && ColoursAgree(d, [])
      && (forall id :: id in d.values <==> id.IntId? && 0 <= id.i < |segments|)
      && forall i :: 0 <= i < |segments| ==> d.values[IntId(i)] == Displayed(cylinderAt(segments[i]), Blue)
  {
    var n := |segments|;
    FlushedAll(n, DrawBatch);
    SegmentListDistinct(segments, cylinderAt);
    RegisteredValid(SegmentList(segments, cylinderAt), n);
    SegmentsRegistered(segments, cylinderAt, n);
    var d := Registered(SegmentList(segments, cylinderAt), n);
    forall i | 0 <= i < n
      ensures d.values[IntId(i)] == Displayed(cylinderAt(segments[i]), Blue)
    {
      RegisteredAt(SegmentList(segments, cylinderAt), n, i);
    }
  }

  /** Once the first f segments are registered, the registered ids are exactly the indices below f. */
  lemma SegmentsRegistered(segments: seq<(Point, Point)>, cylinderAt: ((Point, Point)) -> Shape, f: nat)
    requires f <= |segments|
    ensures forall id :: id in Registered(SegmentList(segments, cylinderAt), f).values <==> id.IntId? && 0 <= id.i < f
  {
    var entries := SegmentList(segments, cylinderAt);
    SegmentListDistinct(segments, cylinderAt);
    RegisteredKeys(entries, f);
    var d := Registered(entries, f);
    forall id
      ensures id in d.values <==> id.IntId? && 0 <= id.i < f
    {
      if id.IntId? && 0 <= id.i < f {
        assert d.keys[id.i] == id;
      }
    }
  }

  /**
   * A segment drawing cancelled after k passes registers segments
   * 0 .. f - 1 only, for a multiple f of 50 with k - 50 < f <= k: the
   * last, unfilled batch is dropped.
   */
  lemma SegmentsCut(segments: seq<(Point, Point)>, cylinderAt: ((Point, Point)) -> Shape, k: nat)
    requires k < |segments|
    ensures var f := Flushed(k, |segments|, DrawBatch);
      var d := Registered(SegmentList(segments, cylinderAt), f);
      && f <= k < f + DrawBatch && f % DrawBatch == 0
      && forall id :: id in d.values <==> id.IntId? && 0 <= id.i < f
  {
    FlushedCut(k, |segments|, DrawBatch);
    SegmentsRegistered(segments, cylinderAt, Flushed(k, |segments|, DrawBatch));
  }

  /**
   * An imported drawing that was not cancelled registers every imported
   * shape, blue, under its id, and nothing else.
   */
  lemma ImportedDrawn(step: Dict<string, Shape>)
    requires Valid(step)
    ensures var d := Registered(StepList(step), Flushed(|step.keys|, |step.keys|, DrawBatch));
      && Valid(d) && ColoursAgree(d, [])
      && (forall id :: id in d.values <==> id.StrId? && id.s in step.values)
      && forall s :: s in step.values ==> d.values[StrId(s)] == Displayed(step.values[s], Blue)
  {
    var entries := StepList(step);
    var n := |step.keys|;
    StepListDistinct(step);
    FlushedAll(n, DrawBatch);
    RegisteredKeys(entries, n);
    RegisteredValid(entries, n);
    assert entries[..n] == entries;
    var d := Registered(entries, n);
    forall s | s in step.values
      ensures StrId(s) in d.values && d.values[StrId(s)] == Displayed(step.values[s], Blue)
    {
      var i :| 0 <= i < n && step.keys[i] == s;
      assert d.keys[i] == StrId(s);
      RegisteredAt(entries, n, i);
    }
  }

  // ---------------------------------------------------------------------
  // The ids of a clicked item
  // ---------------------------------------------------------------------

  /** `[id for id in shape_data if isinstance(id, int) and id in self.ais_shapes]`, in order. */
  function IntPresent(ids: seq<ShapeId>, d: Dict<ShapeId, Displayed>): (r: seq<ShapeId>)
    ensures forall x :: x in r <==> x in ids && x.IntId? && x in d.values
    ensures |r| <= |ids|
  {
    if |ids| == 0 then []
    else
      var r := IntPresent(ids[..|ids| - 1], d);
      var x := ids[|ids| - 1];
      assert forall y :: y in ids <==> y in ids[..|ids| - 1] || y == x;
      if x.IntId? && x in d.values then r + [x] else r
  }

  /** A list of registered indices is highlighted whole, in its order. */
  lemma {:induction false} IntPresentOfAllPresent(ids: seq<ShapeId>, d: Dict<ShapeId, Displayed>)
    requires forall x :: x in ids ==> x.IntId? && x in d.values
    ensures IntPresent(ids, d) == ids
  {
    if |ids| > 0 {
      IntPresentOfAllPresent(ids[..|ids| - 1], d);
      assert ids[..|ids| - 1] + [ids[|ids| - 1]] == ids;
    }
  }

  /**
   * The ids `on_tree_item_clicked` highlights for an item's data: a single
   * registered id, or the registered index ids of a list; string ids in a
   * list are dropped.
   */
  function Clickable(data: Payload, d: Dict<ShapeId, Displayed>): (r: seq<ShapeId>)
    ensures forall x :: x in r ==> x in d.values
    ensures data.One? ==> r == if data.id in d.values then [data.id] else []
    ensures data.Many? ==> forall x :: x in r <==> x in data.ids && x.IntId? && x in d.values
    ensures data == NoData ==> r == []
  {
    match data
    case NoData => []
    case One(id) => if id in d.values then [id] else []
    case Many(ids) => IntPresent(ids, d)
  }

  /** An item whose list holds only string ids, as the imported-shape groups do, highlights nothing. */
  lemma {:induction false} StringListsHighlightNothing(ids: seq<ShapeId>, d: Dict<ShapeId, Displayed>)
    requires forall x :: x in ids ==> x.StrId?
    ensures Clickable(Many(ids), d) == []
  {
    if |ids| > 0 {
      StringListsHighlightNothing(ids[..|ids| - 1], d);
      assert ids[|ids| - 1] in ids;
    }
  }

  /** Recolouring keeps the ids an item can highlight. */
  lemma ClickableRecoloured(data: Payload, d: Dict<ShapeId, Displayed>, ids: seq<ShapeId>, on: bool)
    ensures Clickable(data, Recoloured(d, ids, on)) == Clickable(data, d)
  {
    if data.Many? {
      IntPresentSameDomain(data.ids, d, Recoloured(d, ids, on));
    }
  }

  lemma {:induction false} IntPresentSameDomain(ids: seq<ShapeId>, d: Dict<ShapeId, Displayed>, e: Dict<ShapeId, Displayed>)
    requires forall k :: k in d.values <==> k in e.values
    ensures IntPresent(ids, d) == IntPresent(ids, e)
  {
    if |ids| > 0 {
      IntPresentSameDomain(ids[..|ids| - 1], d, e);
    }
  }
}
