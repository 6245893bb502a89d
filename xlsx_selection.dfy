/**
 * The value-level rules behind the spreadsheet viewer's selection
 * handling (visualize_xlsx.py): which colour a shape takes when it is
 * highlighted or released, which ids of a tree item can be highlighted,
 * which registered shape a 3D pick resolves to, which tree item matches
 * an id, and what the info panel shows for a node, a link or an
 * imported shape.
 */
module XlsxSelection {
  import opened Basics
  import opened Dicts
  import opened Shapes
  import opened XlsxRecords

  // ---------------------------------------------------------------------
  // Colours
  // ---------------------------------------------------------------------

  /**
   * The colour `highlight_shapes` sets: green or yellow when highlighting;
   * when releasing, the colour the shape was registered with (red for a
   * node sphere, blue for a segment cylinder, light gray for an imported
   * shape).
   */
  function ColourFor(id: ShapeId, on: bool): Colour
  {
    if on then (if IsNodeId(id) then Green else Yellow)
    else if IsNodeId(id) then Red
    else if id.IntId? then Blue
    else LightGray
  }

  /** The display entries after `highlight_shapes(ids, on)`: each registered id of `ids` recoloured. */
  function Recoloured(d: Dict<ShapeId, Displayed>, ids: seq<ShapeId>, on: bool): (r: Dict<ShapeId, Displayed>)
    ensures r.keys == d.keys
    ensures forall k :: k in r.values <==> k in d.values
    ensures forall k :: k in d.values ==> r.values[k].shape == d.values[k].shape
  {
    Dict(d.keys, map k | k in d.values :: if k in ids then Displayed(d.values[k].shape, ColourFor(k, on)) else d.values[k])
  }

  /** An id listed in `ids` takes the colour for `on`; any other keeps its colour. */
  lemma RecolouredColour(d: Dict<ShapeId, Displayed>, ids: seq<ShapeId>, on: bool, k: ShapeId)
    requires k in d.values
    ensures Recoloured(d, ids, on).values[k].colour == if k in ids then ColourFor(k, on) else d.values[k].colour
  {
  }

  /** The recolouring of one id, as one pass of the loop in `highlight_shapes` does it; an unregistered id is skipped. */
  function Recolour(d: Dict<ShapeId, Displayed>, id: ShapeId, on: bool): Dict<ShapeId, Displayed>
  {
    if id in d.values then Dict(d.keys, d.values[id := Displayed(d.values[id].shape, ColourFor(id, on))]) else d
  }

  /** Recolouring the ids one after the other, in order, recolours them all. */
  lemma RecolouredStep(d: Dict<ShapeId, Displayed>, ids: seq<ShapeId>, i: nat, on: bool)
    requires i < |ids|
    ensures Recoloured(d, ids[..i + 1], on) == Recolour(Recoloured(d, ids[..i], on), ids[i], on)
  {
    var a := Recoloured(d, ids[..i + 1], on);
    var b := Recolour(Recoloured(d, ids[..i], on), ids[i], on);
    assert forall k :: k in ids[..i + 1] <==> k in ids[..i] || k == ids[i];
    assert a.values == b.values;
  }

  /** Recolouring no ids changes nothing. */
  lemma RecolouredNone(d: Dict<ShapeId, Displayed>, on: bool)
    ensures Recoloured(d, [], on) == d
  {
    assert Recoloured(d, [], on).values == d.values;
  }

  /** Every displayed shape shows the colour its membership of `highlighted` calls for. */
  ghost predicate ColoursAgree(d: Dict<ShapeId, Displayed>, highlighted: seq<ShapeId>)
  {
    forall k :: k in d.values ==> d.values[k].colour == ColourFor(k, k in highlighted)
  }

  /** Highlighting and then releasing the same ids restores every shape that showed its default colour. */
  lemma HighlightRoundTrip(d: Dict<ShapeId, Displayed>, ids: seq<ShapeId>)
    requires forall k :: k in d.values && k in ids ==> d.values[k].colour == ColourFor(k, false)
    ensures Recoloured(Recoloured(d, ids, true), ids, false) == d
  {
    var r := Recoloured(Recoloured(d, ids, true), ids, false);
    forall k | k in d.values
      ensures r.values[k] == d.values[k]
    {
      RecolouredColour(d, ids, true, k);
      RecolouredColour(Recoloured(d, ids, true), ids, false, k);
    }
    assert r.values == d.values;
  }

  /** Releasing the old highlight and highlighting a new set leaves exactly the new set highlighted. */
  lemma SwitchHighlight(d: Dict<ShapeId, Displayed>, before: seq<ShapeId>, after: seq<ShapeId>)
    requires ColoursAgree(d, before)
    ensures ColoursAgree(Recoloured(Recoloured(d, before, false), after, true), after)
  {
    var mid := Recoloured(d, before, false);
    forall k | k in d.values
      ensures Recoloured(mid, after, true).values[k].colour == ColourFor(k, k in after)
    {
      RecolouredColour(d, before, false, k);
      RecolouredColour(mid, after, true, k);
    }
  }

  /** Releasing the old highlight leaves nothing highlighted. */
  lemma ClearHighlight(d: Dict<ShapeId, Displayed>, before: seq<ShapeId>)
    requires ColoursAgree(d, before)
    ensures ColoursAgree(Recoloured(d, before, false), [])
  {
    forall k | k in d.values
      ensures Recoloured(d, before, false).values[k].colour == ColourFor(k, false)
    {
      RecolouredColour(d, before, false, k);
    }
  }

  /** Highlighting the one id already highlighted keeps the colours in agreement. */
  lemma RepeatHighlight(d: Dict<ShapeId, Displayed>, ids: seq<ShapeId>)
    requires ColoursAgree(d, ids)
    ensures ColoursAgree(Recoloured(d, ids, true), ids)
  {
    forall k | k in d.values
      ensures Recoloured(d, ids, true).values[k].colour == ColourFor(k, k in ids)
    {
      RecolouredColour(d, ids, true, k);
    }
  }

  /** Highlighting again the one id that is highlighted already changes no colour. */
  lemma RepickUnchanged(d: Dict<ShapeId, Displayed>, id: ShapeId)
    requires ColoursAgree(d, [id])
    ensures Recoloured(d, [id], true) == d
  {
    forall k | k in d.values
      ensures Recoloured(d, [id], true).values[k] == d.values[k]
    {
      RecolouredColour(d, [id], true, k);
    }
    assert Recoloured(d, [id], true).values == d.values;
  }

  // ---------------------------------------------------------------------
  // The ids of a tree item
  // ---------------------------------------------------------------------

  /** The ids of an item's data: none, the single id, or the list. */
  function DataIds(p: Payload): seq<ShapeId>
  {
    match p
    case NoData => []
    case One(id) => [id]
    case Many(ids) => ids
  }

  /** `[sid for sid in ids if sid in self.ais_shapes]` */
  function Present(ids: seq<ShapeId>, d: Dict<ShapeId, Displayed>): (r: seq<ShapeId>)
    ensures forall x :: x in r <==> x in ids && x in d.values
    ensures |r| <= |ids|
  {
    if |ids| == 0 then []
    else
      var r := Present(ids[..|ids| - 1], d);
      assert forall x :: x in ids <==> x in ids[..|ids| - 1] || x == ids[|ids| - 1];
      if ids[|ids| - 1] in d.values then r + [ids[|ids| - 1]] else r
  }

  /** Filtering keeps the ids in their order: the filtered list of a prefix is a prefix. */
  lemma {:induction false} PresentOfAllPresent(ids: seq<ShapeId>, d: Dict<ShapeId, Displayed>)
    requires forall x :: x in ids ==> x in d.values
    ensures Present(ids, d) == ids
  {
    if |ids| > 0 {
      PresentOfAllPresent(ids[..|ids| - 1], d);
      assert ids[..|ids| - 1] + [ids[|ids| - 1]] == ids;
    }
  }

  // ---------------------------------------------------------------------
  // Resolving a 3D pick
  // ---------------------------------------------------------------------

  /** The entry under key k holds a non-null shape that IsSame as the picked one. */
  predicate SameShape(d: Dict<ShapeId, Displayed>, k: ShapeId, pick: Shape)
  {
    k in d.values && !IsNull(d.values[k].shape) && IsSame(d.values[k].shape, pick)
  }

  /** The position of the first of the first n keys whose shape IsSame as the pick. */
  function FirstSame(d: Dict<ShapeId, Displayed>, pick: Shape, n: nat): (r: Option<nat>)
    requires n <= |d.keys|
    ensures r.Some? ==> r.value < n && SameShape(d, d.keys[r.value], pick)
    ensures r.Some? ==> forall j :: 0 <= j < r.value ==> !SameShape(d, d.keys[j], pick)
    ensures r.None? ==> forall j :: 0 <= j < n ==> !SameShape(d, d.keys[j], pick)
  {
    if n == 0 then None
    else
      var r := FirstSame(d, pick, n - 1);
      if r.Some? then r
      else if SameShape(d, d.keys[n - 1], pick) then Some(n - 1)
      else None
  }

  /** The id a 3D pick resolves to: the first key, in insertion order, whose shape IsSame as the pick. */
  function PickedId(d: Dict<ShapeId, Displayed>, pick: Shape): (r: Option<ShapeId>)
    ensures r.None? <==> forall j :: 0 <= j < |d.keys| ==> !SameShape(d, d.keys[j], pick)
    ensures r.Some? ==> SameShape(d, r.value, pick)
    ensures r.Some? ==> exists j :: 0 <= j < |d.keys| && d.keys[j] == r.value &&
                                 forall i :: 0 <= i < j ==> !SameShape(d, d.keys[i], pick)
  {
    var j := FirstSame(d, pick, |d.keys|);
    if j.Some? then Some(d.keys[j.value]) else None
  }

  /** The first key holding a matching shape is found by any scan that reaches past it. */
  lemma {:induction false} FirstSameFrom(d: Dict<ShapeId, Displayed>, pick: Shape, j: nat, n: nat)
    requires j < n <= |d.keys| && SameShape(d, d.keys[j], pick)
    requires forall i :: 0 <= i < j ==> !SameShape(d, d.keys[i], pick)
    ensures FirstSame(d, pick, n) == Some(j)
  {
    if n - 1 > j {
      FirstSameFrom(d, pick, j, n - 1);
    }
  }

  // ---------------------------------------------------------------------
  // Finding a tree item
  // ---------------------------------------------------------------------

  /** `item_data == shape_id`, or a list holding it. */
  predicate ItemMatches(item: Item, id: ShapeId)
  {
    item.data == One(id) || (item.data.Many? && id in item.data.ids)
  }

  /** Some item of this subtree matches. */
  predicate SubtreeHas(item: Item, id: ShapeId)
    decreases item
  {
    ItemMatches(item, id) || exists c :: 0 <= c < |item.children| && SubtreeHas(item.children[c], id)
  }

  /** Some item of the forest matches. */
  predicate ForestHas(items: seq<Item>, id: ShapeId)
  {
    exists i :: 0 <= i < |items| && SubtreeHas(items[i], id)
  }

  /** An item at a path matches, so the top-level item the path starts from has a match in its subtree. */
  lemma {:induction false} PathHas(items: seq<Item>, path: seq<nat>, id: ShapeId)
    requires ValidPath(items, path) && ItemMatches(ItemAt(items, path), id)
    ensures SubtreeHas(items[path[0]], id) && ForestHas(items, id)
    decreases |path|
  {
    if |path| > 1 {
      var cs := items[path[0]].children;
      PathHas(cs, path[1..], id);
      assert SubtreeHas(cs[path[1..][0]], id);
    }
  }

  /** The number of items in a subtree. */
  function ItemSize(item: Item): nat
    decreases item, 1
  {
    1 + ChildrenSize(item, |item.children|)
  }

  /** The number of items in the subtrees of the first n children. */
  function ChildrenSize(parent: Item, n: nat): nat
    requires n <= |parent.children|
    decreases parent, 0, n
  {
    if n == 0 then 0 else ChildrenSize(parent, n - 1) + ItemSize(parent.children[n - 1])
  }

  /** A pending entry of the search: an item and its path. */
  type Entry = (seq<nat>, Item)

  /** The number of items still reachable from the queue. */
  function QueueSize(q: seq<Entry>): nat
  {
    if |q| == 0 then 0 else QueueSize(q[..|q| - 1]) + ItemSize(q[|q| - 1].1)
  }

  lemma {:induction false} QueueSizeAppend(a: seq<Entry>, b: seq<Entry>)
    ensures QueueSize(a + b) == QueueSize(a) + QueueSize(b)
    decreases |b|
  {
    if |b| > 0 {
      assert (a + b)[..|a + b| - 1] == a + b[..|b| - 1];
      assert (a + b)[|a + b| - 1] == b[|b| - 1];
      QueueSizeAppend(a, b[..|b| - 1]);
    } else {
      assert a + b == a;
    }
  }

  /** The entries the search appends for an item's children. */
  function ChildEntries(path: seq<nat>, item: Item): (r: seq<Entry>)
    ensures |r| == |item.children|
    ensures forall c :: 0 <= c < |r| ==> r[c] == (path + [c], item.children[c])
  {
    seq(|item.children|, c requires 0 <= c < |item.children| => (path + [c], item.children[c]))
  }

  lemma {:induction false} ChildEntriesSize(path: seq<nat>, item: Item, n: nat)
    requires n <= |item.children|
    ensures QueueSize(ChildEntries(path, item)[..n]) == ChildrenSize(item, n)
  {
    if n > 0 {
      ChildEntriesSize(path, item, n - 1);
      assert ChildEntries(path, item)[..n][..n - 1] == ChildEntries(path, item)[..n - 1];
    }
  }

  /** Replacing the front entry by its children's entries removes exactly one item from the count. */
  lemma QueueStep(q: seq<Entry>)
    requires |q| > 0
    ensures QueueSize(q[1..] + ChildEntries(q[0].0, q[0].1)) == QueueSize(q) - 1
  {
    var e, rest := q[0], q[1..];
    var cs := ChildEntries(e.0, e.1);
    assert q == [e] + rest;
    QueueSizeAppend([e], rest);
    QueueSizeOne(e);
    QueueSizeAppend(rest, cs);
    ChildEntriesSize(e.0, e.1, |e.1.children|);
    assert cs[..|e.1.children|] == cs;
  }

  lemma QueueSizeOne(e: Entry)
    ensures QueueSize([e]) == 1 + ChildrenSize(e.1, |e.1.children|)
  {
    assert [e][..0] == [];
  }

  /**
   * What `find_and_select_tree_item` achieves: when some item matches, the
   * current item becomes a matching item of the present tree, the first
   * top-level item whenever that one matches; otherwise the current item
   * is kept.
   */
  ghost predicate SelectsMatch(items: seq<Item>, generation: nat, id: ShapeId, before: Option<ItemKey>, after: Option<ItemKey>)
  {
    if ForestHas(items, id) then
      && after.Some? && after.value.generation == generation
      && ValidPath(items, after.value.path) && ItemMatches(ItemAt(items, after.value.path), id)
      && (ItemMatches(items[0], id) ==> after.value.path == [0])
    else after == before
  }

  // ---------------------------------------------------------------------
  // The info panel
  // ---------------------------------------------------------------------

  /** What the info panel shows. */
  datatype InfoText =
    | Cleared
    | NodeNotFound(id: ShapeId)
    | NodeText(ref: string, nodeId: ShapeId, coordinates: Point, linkCount: nat,
               listed: seq<(string, int)>, remaining: Option<nat>)
    | LinkNotFound(index: int)
    | LinkText(index: int, link: Link)
    | ImportedText(shapeId: ShapeId, typeName: string, others: Option<nat>)

  /** `display_node_info` lists at most this many connected links. */
  const ListLimit: nat := 10

  /** The ref, coordinates and connected links a record gives, with the defaults `.get` supplies. */
  function NodeFields(info: Info): (string, Point, seq<int>)
  {
    match info
    case NodeRecord(ref, coordinates, links) => (ref, coordinates, links)
    case _ => ("未知Ref", Point(0.0, 0.0, 0.0), [])
  }

  /** The name and index of each of `ks` that has a link record, in order. */
  function Listed(ks: seq<int>, linkData: map<int, Link>): (r: seq<(string, int)>)
    ensures |r| <= |ks|
    ensures forall e :: e in r ==> e.1 in ks && e.1 in linkData && e.0 == linkData[e.1].name
    ensures forall k :: k in ks && k in linkData ==> (linkData[k].name, k) in r
  {
    if |ks| == 0 then []
    else
      var r := Listed(ks[..|ks| - 1], linkData);
      var k := ks[|ks| - 1];
      assert forall x :: x in ks <==> x in ks[..|ks| - 1] || x == k;
      if k in linkData then r + [(linkData[k].name, k)] else r
  }

  /** The node panel: the first ten connected links by name, and how many remain. */
  function NodeInfoOf(infos: map<ShapeId, Info>, linkData: map<int, Link>, id: ShapeId): InfoText
  {
    if id !in infos then NodeNotFound(id)
    else
      var (ref, coordinates, links) := NodeFields(infos[id]);
      NodeText(ref, id, coordinates, |links|, Listed(links[..Min(ListLimit, |links|)], linkData),
               if |links| > ListLimit then Some(|links| - ListLimit) else None)
  }

  /**
   * The node panel names at most ten links, each one of the node's first
   * ten that has a record, and reports n-10 further links exactly when
   * the node has n > 10.
   */
  lemma NodeInfoBounded(infos: map<ShapeId, Info>, linkData: map<int, Link>, id: ShapeId)
    ensures var t := NodeInfoOf(infos, linkData, id);
      && (t.NodeNotFound? <==> id !in infos)
      && (t.NodeText? ==> |t.listed| <= ListLimit)
      && (t.NodeText? ==> forall e :: e in t.listed ==> e.1 in NodeFields(infos[id]).2[..Min(ListLimit, t.linkCount)] && e.1 in linkData)
      && (t.NodeText? ==> t.linkCount == |NodeFields(infos[id]).2|)
      && (t.NodeText? ==> (t.remaining.Some? <==> t.linkCount > ListLimit))
      && (t.NodeText? && t.remaining.Some? ==> t.remaining.value == t.linkCount - ListLimit)
  {
  }

  /** The link panel. */
  function LinkInfoOf(linkData: map<int, Link>, k: int): InfoText
  {
    if k in linkData then LinkText(k, linkData[k]) else LinkNotFound(k)
  }

  /** `self.shape_to_info.get(id, {'type': 'Imported Shape'}).get('type', '未知')` */
  function ImportedTypeOf(infos: map<ShapeId, Info>, id: ShapeId): string
  {
    if id !in infos then "Imported Shape"
    else match infos[id]
      case ImportedRecord(t) => t
      case _ => "未知"
  }

  /** The panel for the first selected id, when `count` ids are selected. */
  function InfoFor(infos: map<ShapeId, Info>, linkData: map<int, Link>, id: ShapeId, count: nat): InfoText
  {
    if IsNodeId(id) then NodeInfoOf(infos, linkData, id)
    else if id.IntId? then LinkInfoOf(linkData, id.i)
    else ImportedText(id, ImportedTypeOf(infos, id), if count > 1 then Some(count - 1) else None)
  }
}
