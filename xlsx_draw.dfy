/**
 * What the spreadsheet viewer (visualize_xlsx.py) registers in
 * `ais_shapes` when it draws: a red sphere per node under its node id, a
 * blue cylinder per segment under the segment's index, and a light gray
 * entry per imported shape under its id. The kernel's sphere and cylinder
 * construction is a parameter; a null result stands for a shape the
 * kernel could not build (for a cylinder, also a segment shorter than the
 * drawing tolerance).
 */
module XlsxDraw {
  import opened Basics
  import opened Dicts
  import opened Shapes
  import opened XlsxRecords
  import opened XlsxSelection

  /** `node_shapes` after `create_node_shapes` has seen the first i refs: the non-null spheres, in order. */
  function NodeSpheres(u: Dict<string, Point>, sphereAt: Point -> Shape, i: nat): (r: seq<Shape>)
    requires i <= |u.keys| && forall ref :: ref in u.keys ==> ref in u.values
    ensures |r| <= i && forall j :: 0 <= j < |r| ==> !IsNull(r[j])
  {
    if i == 0 then []
    else
      var r := NodeSpheres(u, sphereAt, i - 1);
      var s := sphereAt(u.values[u.keys[i - 1]]);
      if IsNull(s) then r else r + [s]
  }

  /** When no sphere is null, the j-th sphere is the j-th node's, so positions line up with the refs. */
  lemma {:induction false} NodeSpheresAligned(u: Dict<string, Point>, sphereAt: Point -> Shape, i: nat)
    requires i <= |u.keys| && forall ref :: ref in u.keys ==> ref in u.values
    requires forall j :: 0 <= j < i ==> !IsNull(sphereAt(u.values[u.keys[j]]))
    ensures |NodeSpheres(u, sphereAt, i)| == i
    ensures forall j :: 0 <= j < i ==> NodeSpheres(u, sphereAt, i)[j] == sphereAt(u.values[u.keys[j]])
  {
    if i > 0 {
      NodeSpheresAligned(u, sphereAt, i - 1);
    }
  }

  /** The j-th ref maps to node_j, for every ref the map holds. */
  ghost predicate IdsByPosition(refs: seq<string>, nodeIdMap: map<string, string>)
  {
    forall j :: 0 <= j < |refs| && refs[j] in nodeIdMap ==> nodeIdMap[refs[j]] == NodeId(j)
  }

  /** `node_id_map.get(node_ref)`, falling back to `node_{i}`, for the i-th sphere. */
  function SphereId(refs: seq<string>, nodeIdMap: map<string, string>, i: nat): ShapeId
    requires i < |refs|
  {
    if refs[i] in nodeIdMap then StrId(nodeIdMap[refs[i]]) else StrId(NodeId(i))
  }

  /**
   * `ais_shapes` after the sphere loop has registered the first m spheres;
   * a sphere with no ref at its position raises and is skipped.
   */
  function NodeEntries(spheres: seq<Shape>, refs: seq<string>, nodeIdMap: map<string, string>, m: nat): Dict<ShapeId, Displayed>
    requires m <= |spheres|
  {
    if m == 0 then Empty()
    else
      var d := NodeEntries(spheres, refs, nodeIdMap, m - 1);
      if m - 1 < |refs| then Put(d, SphereId(refs, nodeIdMap, m - 1), Displayed(spheres[m - 1], Red)) else d
  }

  /**
   * With ids assigned by position, sphere i is registered, red, under
   * node_i, and nothing else is registered.
   */
  lemma NodeEntriesSpec(spheres: seq<Shape>, refs: seq<string>, nodeIdMap: map<string, string>, m: nat)
    requires m <= |spheres| && m <= |refs| && IdsByPosition(refs, nodeIdMap)
    ensures NodeEntries(spheres, refs, nodeIdMap, m).keys == NodeIds(m)
    ensures forall id :: id in NodeEntries(spheres, refs, nodeIdMap, m).values <==> id in NodeIds(m)
    ensures forall j :: 0 <= j < m ==> NodeEntries(spheres, refs, nodeIdMap, m).values[StrId(NodeId(j))] == Displayed(spheres[j], Red)
  {
    NodeEntriesKeys(spheres, refs, nodeIdMap, m);
    forall j | 0 <= j < m
      ensures NodeEntries(spheres, refs, nodeIdMap, m).values[StrId(NodeId(j))] == Displayed(spheres[j], Red)
    {
      NodeEntryAt(spheres, refs, nodeIdMap, m, j);
    }
  }

  /** The sphere loop registers node_0, ..., node_{m-1}, in that order, and nothing else. */
  lemma {:induction false} NodeEntriesKeys(spheres: seq<Shape>, refs: seq<string>, nodeIdMap: map<string, string>, m: nat)
    requires m <= |spheres| && m <= |refs| && IdsByPosition(refs, nodeIdMap)
    ensures NodeEntries(spheres, refs, nodeIdMap, m).keys == NodeIds(m)
    ensures forall id :: id in NodeEntries(spheres, refs, nodeIdMap, m).values <==> id in NodeEntries(spheres, refs, nodeIdMap, m).keys
  {
    if m > 0 {
      var d := NodeEntries(spheres, refs, nodeIdMap, m - 1);
      var id := StrId(NodeId(m - 1));
      NodeEntriesKeys(spheres, refs, nodeIdMap, m - 1);
      assert SphereId(refs, nodeIdMap, m - 1) == id;
      NodeIdFresh(m - 1);
      assert id !in d.values;
      assert NodeEntries(spheres, refs, nodeIdMap, m) == Put(d, id, Displayed(spheres[m - 1], Red));
    }
  }

  /** Sphere j stays registered under node_j once later spheres are added. */
  lemma {:induction false} NodeEntryAt(spheres: seq<Shape>, refs: seq<string>, nodeIdMap: map<string, string>, m: nat, j: nat)
    requires m <= |spheres| && m <= |refs| && IdsByPosition(refs, nodeIdMap) && j < m
    ensures StrId(NodeId(j)) in NodeEntries(spheres, refs, nodeIdMap, m).values
    ensures NodeEntries(spheres, refs, nodeIdMap, m).values[StrId(NodeId(j))] == Displayed(spheres[j], Red)
  {
    assert SphereId(refs, nodeIdMap, m - 1) == StrId(NodeId(m - 1));
    if j < m - 1 {
      NodeEntryAt(spheres, refs, nodeIdMap, m - 1, j);
      if NodeId(j) == NodeId(m - 1) {
        NodeIdInjective(j, m - 1);
      }
    }
  }

  /** The sphere entries have distinct keys and all show red, the released colour of a node. */
  lemma NodeEntriesValid(spheres: seq<Shape>, refs: seq<string>, nodeIdMap: map<string, string>, m: nat)
    requires m <= |spheres| && m <= |refs| && IdsByPosition(refs, nodeIdMap)
    ensures Valid(NodeEntries(spheres, refs, nodeIdMap, m))
    ensures ColoursAgree(NodeEntries(spheres, refs, nodeIdMap, m), [])
    ensures forall id :: id in NodeEntries(spheres, refs, nodeIdMap, m).values ==> id.StrId?
  {
    var d := NodeEntries(spheres, refs, nodeIdMap, m);
    NodeEntriesSpec(spheres, refs, nodeIdMap, m);
    forall i, j | 0 <= i < j < m
      ensures NodeIds(m)[i] != NodeIds(m)[j]
    {
      if NodeId(i) == NodeId(j) {
        NodeIdInjective(i, j);
      }
    }
    forall k | k in d.values
      ensures d.values[k].colour == ColourFor(k, false)
    {
      var j :| 0 <= j < m && NodeIds(m)[j] == k;
      NodeIdIsNodeId(j);
    }
  }

  /** `segment_shapes` after the cylinder loop has seen the first m segments: the non-null cylinders. */
  function Cylinders(segments: seq<(Point, Point)>, cylinderAt: ((Point, Point)) -> Shape, m: nat): (r: seq<Shape>)
    requires m <= |segments|
    ensures |r| <= m && forall j :: 0 <= j < |r| ==> !IsNull(r[j])
  {
    if m == 0 then []
    else
      var r := Cylinders(segments, cylinderAt, m - 1);
      var c := cylinderAt(segments[m - 1]);
      if IsNull(c) then r else r + [c]
  }

  /** `ais_shapes` after the cylinder loop has seen the first m segments, on top of `base`. */
  function SegmentEntries(base: Dict<ShapeId, Displayed>, segments: seq<(Point, Point)>, cylinderAt: ((Point, Point)) -> Shape, m: nat): Dict<ShapeId, Displayed>
    requires m <= |segments|
  {
    if m == 0 then base
    else
      var d := SegmentEntries(base, segments, cylinderAt, m - 1);
      var c := cylinderAt(segments[m - 1]);
      if IsNull(c) then d else Put(d, IntId(m - 1), Displayed(c, Blue))
  }

  /**
   * Segment i is registered, blue, under its index exactly when its
   * cylinder is not null; the entries of `base`, which holds no index,
   * are kept.
   */
  lemma SegmentEntriesSpec(base: Dict<ShapeId, Displayed>, segments: seq<(Point, Point)>, cylinderAt: ((Point, Point)) -> Shape, m: nat)
    requires m <= |segments| && Valid(base) && ColoursAgree(base, [])
    requires forall id :: id in base.values ==> id.StrId?
    ensures Valid(SegmentEntries(base, segments, cylinderAt, m))
    ensures ColoursAgree(SegmentEntries(base, segments, cylinderAt, m), [])
    ensures forall id :: id in SegmentEntries(base, segments, cylinderAt, m).values <==>
      id in base.values || (id.IntId? && 0 <= id.i < m && !IsNull(cylinderAt(segments[id.i])))
    ensures forall id :: id in base.values ==> SegmentEntries(base, segments, cylinderAt, m).values[id] == base.values[id]
    ensures forall i :: 0 <= i < m && !IsNull(cylinderAt(segments[i])) ==>
      SegmentEntries(base, segments, cylinderAt, m).values[IntId(i)] == Displayed(cylinderAt(segments[i]), Blue)
  {
    SegmentEntriesShape(base, segments, cylinderAt, m);
    forall id | id in base.values
      ensures SegmentEntries(base, segments, cylinderAt, m).values[id] == base.values[id]
    {
      SegmentEntriesKeep(base, segments, cylinderAt, m, id);
    }
    forall i | 0 <= i < m && !IsNull(cylinderAt(segments[i]))
      ensures SegmentEntries(base, segments, cylinderAt, m).values[IntId(i)] == Displayed(cylinderAt(segments[i]), Blue)
    {
      SegmentEntryAt(base, segments, cylinderAt, m, i);
    }
  }

  /** The cylinder loop keeps the dict valid and every colour the released one, and adds exactly the non-null indices. */
  lemma {:induction false} SegmentEntriesShape(base: Dict<ShapeId, Displayed>, segments: seq<(Point, Point)>, cylinderAt: ((Point, Point)) -> Shape, m: nat)
    requires m <= |segments| && Valid(base) && ColoursAgree(base, [])
    requires forall id :: id in base.values ==> id.StrId?
    ensures Valid(SegmentEntries(base, segments, cylinderAt, m))
    ensures ColoursAgree(SegmentEntries(base, segments, cylinderAt, m), [])
    ensures forall id :: id in SegmentEntries(base, segments, cylinderAt, m).values <==>
      id in base.values || (id.IntId? && 0 <= id.i < m && !IsNull(cylinderAt(segments[id.i])))
  {
    if m > 0 {
      var d := SegmentEntries(base, segments, cylinderAt, m - 1);
      SegmentEntriesShape(base, segments, cylinderAt, m - 1);
      var c := cylinderAt(segments[m - 1]);
      if !IsNull(c) {
        PutValid(d, IntId(m - 1), Displayed(c, Blue));
      }
    }
  }

  /** An entry of `base` survives the cylinder loop. */
  lemma {:induction false} SegmentEntriesKeep(base: Dict<ShapeId, Displayed>, segments: seq<(Point, Point)>, cylinderAt: ((Point, Point)) -> Shape, m: nat, id: ShapeId)
    requires m <= |segments| && id in base.values && id.StrId?
    ensures id in SegmentEntries(base, segments, cylinderAt, m).values
    ensures SegmentEntries(base, segments, cylinderAt, m).values[id] == base.values[id]
  {
    if m > 0 {
      SegmentEntriesKeep(base, segments, cylinderAt, m - 1, id);
    }
  }

  /** Segment i's cylinder stays registered under i once later segments are drawn. */
  lemma {:induction false} SegmentEntryAt(base: Dict<ShapeId, Displayed>, segments: seq<(Point, Point)>, cylinderAt: ((Point, Point)) -> Shape, m: nat, i: nat)
    requires i < m <= |segments| && !IsNull(cylinderAt(segments[i]))
    ensures IntId(i) in SegmentEntries(base, segments, cylinderAt, m).values
    ensures SegmentEntries(base, segments, cylinderAt, m).values[IntId(i)] == Displayed(cylinderAt(segments[i]), Blue)
  {
    if i < m - 1 {
      SegmentEntryAt(base, segments, cylinderAt, m - 1, i);
    }
  }

  /** `ais_shapes` after `draw_imported_shapes` has seen the first m imported shapes. */
  function ImportedEntries(step: Dict<string, Shape>, m: nat): Dict<ShapeId, Displayed>
    requires m <= |step.keys| && forall k :: k in step.keys ==> k in step.values
  {
    if m == 0 then Empty()
    else
      var d := ImportedEntries(step, m - 1);
      var k := step.keys[m - 1];
      if IsNull(step.values[k]) then d else Put(d, StrId(k), Displayed(step.values[k], LightGray))
  }

  /**
   * Each non-null imported shape is registered, light gray, under its id;
   * no other id is registered.
   */
  lemma {:induction false} ImportedEntriesSpec(step: Dict<string, Shape>, m: nat)
    requires m <= |step.keys| && Valid(step)
    requires forall k :: k in step.values ==> !IsNodeId(StrId(k))
    ensures Valid(ImportedEntries(step, m))
    ensures ColoursAgree(ImportedEntries(step, m), [])
    ensures forall id :: id in ImportedEntries(step, m).values <==>
      id.StrId? && id.s in step.keys[..m] && !IsNull(step.values[id.s])
    ensures forall k :: k in step.keys[..m] && !IsNull(step.values[k]) ==>
      ImportedEntries(step, m).values[StrId(k)] == Displayed(step.values[k], LightGray)
  {
    if m > 0 {
      var d := ImportedEntries(step, m - 1);
      var k := step.keys[m - 1];
      ImportedEntriesSpec(step, m - 1);
      assert forall x :: x in step.keys[..m] <==> x in step.keys[..m - 1] || x == k;
      if !IsNull(step.values[k]) {
        PutValid(d, StrId(k), Displayed(step.values[k], LightGray));
      }
    }
  }
}
