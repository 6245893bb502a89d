/**
 * What the viewers keep about the CAD kernel and the Qt tree widget:
 * shape handles compared by IsSame, the ids shapes are registered under,
 * display colours, and tree items with the payload stored in their
 * UserRole data.
 */
module Shapes {
  import opened Basics

  /** TopAbs_ShapeEnum. */
  datatype ShapeKind = Compound | CompSolid | Solid | Shell | Face | Wire | Edge | Vertex | AnyShape

  /**
   * A TopoDS_Shape handle: the shared geometry it points to (0 for a null
   * shape), its placement and its orientation, and the kind of the
   * geometry.
   */
  datatype Shape = Shape(tshape: nat, location: nat, orientation: nat, kind: ShapeKind)

  predicate IsNull(s: Shape) { s.tshape == 0 }

  /** TopoDS_Shape.IsSame: the same geometry at the same placement, whatever the orientation. */
  predicate IsSame(a: Shape, b: Shape) { a.tshape == b.tshape && a.location == b.location }

  /** A coordinate triple, kept only to be stored and shown. */
  datatype Point = Point(x: real, y: real, z: real)

  /** The key of an entry of `ais_shapes`: a segment index or a string id. */
  datatype ShapeId = IntId(i: int) | StrId(s: string)

  const NodePrefix: string := "node_"

  /** `isinstance(shape_id, str) and shape_id.startswith('node_')` */
  predicate IsNodeId(id: ShapeId)
  {
    id.StrId? && |NodePrefix| <= |id.s| && id.s[..|NodePrefix|] == NodePrefix
  }

  /** The Quantity_Color values the viewers use. */
  datatype Colour = Red | Blue | LightGray | Green | Yellow

  /** An entry of `ais_shapes`: the AIS object's shape and its current colour. */
  datatype Displayed = Displayed(shape: Shape, colour: Colour)

  /** An item's UserRole data: none, one id, or a list of ids. */
  datatype Payload = NoData | One(id: ShapeId) | Many(ids: seq<ShapeId>)

  /** A QTreeWidgetItem: its data and its children in order. */
  datatype Item = Item(data: Payload, children: seq<Item>)

  /** An item with no data and no children, such as a "Xorigine= ..." line. */
  function Leaf(): Item { Item(NoData, []) }

  /** An item with no data over `n` leaves. */
  function Group(n: nat): (r: Item)
    ensures r.data == NoData && |r.children| == n
  {
    Item(NoData, Leaves(n))
  }

  function Leaves(n: nat): (r: seq<Item>)
    ensures |r| == n
  {
    if n == 0 then [] else Leaves(n - 1) + [Leaf()]
  }

  /**
   * The identity of a tree item: which filling of the tree it belongs to
   * (every `tree.clear()` starts a new one) and its position in it.
   */
  datatype ItemKey = ItemKey(generation: nat, path: seq<nat>)

  /** path[0] picks a top-level item, each further index a child. */
  predicate ValidPath(items: seq<Item>, path: seq<nat>)
    decreases |path|
  {
    && 1 <= |path| && path[0] < |items|
    && (|path| == 1 || ValidPath(items[path[0]].children, path[1..]))
  }

  function ItemAt(items: seq<Item>, path: seq<nat>): Item
    requires ValidPath(items, path)
    decreases |path|
  {
    if |path| == 1 then items[path[0]] else ItemAt(items[path[0]].children, path[1..])
  }

  /** Stepping to child c of the item at `path`. */
  lemma ItemAtChild(items: seq<Item>, path: seq<nat>, c: nat)
    requires ValidPath(items, path) && c < |ItemAt(items, path).children|
    ensures ValidPath(items, path + [c]) && ItemAt(items, path + [c]) == ItemAt(items, path).children[c]
    decreases |path|
  {
    if |path| > 1 {
      assert (path + [c])[1..] == path[1..] + [c];
      ItemAtChild(items[path[0]].children, path[1..], c);
    }
  }
}
