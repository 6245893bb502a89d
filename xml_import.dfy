/**
 * How the XML viewer (visualize_xml.py, `analyze_shape_and_build_tree`)
 * files the sub-shapes of an imported STEP or IGES model: for each of
 * five kinds, in a fixed order, the explorer's shapes get ids, are stored
 * in `step_shapes`, and appear in the tree as a type node over batch
 * nodes of at most 50 ids each. The explorer and Python's `id()` are
 * parameters.
 */
module XmlImport {
  import opened Basics
  import opened Decimal
  import opened Dicts
  import opened Shapes
  import opened Batches
  import XlsxImport

  /** The kinds `shape_types` lists, in its order. */
  const XmlKinds: seq<ShapeKind> := [Solid, Shell, Face, Wire, Edge]

  /** The names `shape_types` gives them; `lower()` leaves them unchanged, as none holds a cased letter. */
  const KindNames: seq<string> := ["实体", "壳体", "面", "线框", "边缘"]

  /** The ids of one kind are grouped under batch nodes of this many. */
  const NodeBatch: nat := 50

  // ---------------------------------------------------------------------
  // Ids
  // ---------------------------------------------------------------------

  /** `f"{type_name.lower()}_{i+1}_{id(current_shape) % 10000}"` for shape i of kind t. */
  function IdText(t: nat, i: nat, tag: nat): string
    requires t < |KindNames|
  {
    KindNames[t] + "_" + (Show(i + 1) + "_" + Show(tag % 10000))
  }

  /** Which kind an id was made for, told by its first character; 5 for none. */
  function KindOf(s: string): nat
  {
    if |s| == 0 then 5
    else if s[0] == '实' then 0
    else if s[0] == '壳' then 1
    else if s[0] == '面' then 2
    else if s[0] == '线' then 3
    else if s[0] == '边' then 4
    else 5
  }

  /** An id tells the kind it was made for. */
  lemma KindOfId(t: nat, i: nat, tag: nat)
    requires t < |KindNames|
    ensures KindOf(IdText(t, i, tag)) == t
  {
    assert IdText(t, i, tag)[0] == KindNames[t][0];
  }

  /**
   * Two ids are equal only for the same kind, the same position and the
   * same `id() % 10000`: the kind is told by the name, the position sits
   * between the two underscores.
   */
  lemma IdTextInjective(t1: nat, i1: nat, g1: nat, t2: nat, i2: nat, g2: nat)
    requires t1 < |KindNames| && t2 < |KindNames|
    requires IdText(t1, i1, g1) == IdText(t2, i2, g2)
    ensures t1 == t2 && i1 == i2 && g1 % 10000 == g2 % 10000
  {
    KindOfId(t1, i1, g1);
    KindOfId(t2, i2, g2);
    var p := KindNames[t1];
    assert '_' !in p by {
      assert p in {"实体", "壳体", "面", "线框", "边缘"};
    }
    var r1, r2 := Show(i1 + 1) + "_" + Show(g1 % 10000), Show(i2 + 1) + "_" + Show(g2 % 10000);
    XlsxImport.SplitAtSeparator(p, r1, p, r2, '_');
    XlsxImport.DigitsHaveNoUnderscore(Show(i1 + 1));
    XlsxImport.DigitsHaveNoUnderscore(Show(i2 + 1));
    XlsxImport.SplitAtSeparator(Show(i1 + 1), Show(g1 % 10000), Show(i2 + 1), Show(g2 % 10000), '_');
    ShowInjective(i1 + 1, i2 + 1);
    ShowInjective(g1 % 10000, g2 % 10000);
  }

  /** The ids of the shapes of kind t, in explorer order; `tag(kind, i)` is `id()` of shape i's wrapper. */
  function KindIds(t: nat, shapes: seq<Shape>, tag: (ShapeKind, nat) -> nat): (r: seq<ShapeId>)
    requires t < |XmlKinds|
    ensures |r| == |shapes| && forall i :: 0 <= i < |r| ==> r[i] == StrId(IdText(t, i, tag(XmlKinds[t], i)))
  {
    seq(|shapes|, i requires 0 <= i < |shapes| => StrId(IdText(t, i, tag(XmlKinds[t], i))))
  }

  /** The same ids as the strings `step_shapes` is keyed by. */
  function KindTexts(t: nat, shapes: seq<Shape>, tag: (ShapeKind, nat) -> nat): (r: seq<string>)
    requires t < |XmlKinds|
    ensures |r| == |shapes| && forall i :: 0 <= i < |r| ==> r[i] == IdText(t, i, tag(XmlKinds[t], i))
  {
    seq(|shapes|, i requires 0 <= i < |shapes| => IdText(t, i, tag(XmlKinds[t], i)))
  }

  /** The ids of one kind are distinct, and tell their kind. */
  lemma KindTextsDistinct(t: nat, shapes: seq<Shape>, tag: (ShapeKind, nat) -> nat)
    requires t < |XmlKinds|
    ensures var texts := KindTexts(t, shapes, tag);
      && Distinct(texts)
      && forall i :: 0 <= i < |texts| ==> KindOf(texts[i]) == t
  {
    var texts := KindTexts(t, shapes, tag);
    forall i, j | 0 <= i < j < |texts|
      ensures texts[i] != texts[j]
    {
      if texts[i] == texts[j] {
        IdTextInjective(t, i, tag(XmlKinds[t], i), t, j, tag(XmlKinds[t], j));
      }
    }
    forall i | 0 <= i < |texts|
      ensures KindOf(texts[i]) == t
    {
      KindOfId(t, i, tag(XmlKinds[t], i));
    }
  }

  /** The texts of string ids. */
  function Texts(ids: seq<ShapeId>): (r: seq<string>)
    requires forall p :: 0 <= p < |ids| ==> ids[p].StrId?
    ensures |r| == |ids| && forall i :: 0 <= i < |r| ==> r[i] == ids[i].s
  {
    seq(|ids|, i requires 0 <= i < |ids| => ids[i].s)
  }

  // ---------------------------------------------------------------------
  // What the analysis builds
  // ---------------------------------------------------------------------

  /** The batch nodes of a type node: batch b holds `ids[50b:min(50b + 50, len(ids))]` and no children. */
  function BatchNodes(ids: seq<ShapeId>, m: nat): (r: seq<Item>)
    requires m <= BatchCount(|ids|, NodeBatch)
    ensures |r| == m && forall b :: 0 <= b < m ==> r[b] == Item(Many(Batch(ids, NodeBatch, b)), [])
  {
    if m == 0 then [] else BatchNodes(ids, m - 1) + [Item(Many(Batch(ids, NodeBatch, m - 1)), [])]
  }

  /** A type node: all its ids as data, over its batch nodes. */
  function TypeNode(ids: seq<ShapeId>): Item
  {
    Item(Many(ids), BatchNodes(ids, BatchCount(|ids|, NodeBatch)))
  }

  /** The root's id list, the type nodes made and `step_shapes`, as the analysis has them. */
  datatype Analysis = Analysis(all: seq<ShapeId>, nodes: seq<Item>, step: Dict<string, Shape>)

  /** Kind k's shapes added to an analysis: a kind the explorer finds nothing of adds nothing. */
  function AddKind(a: Analysis, k: nat, shapes: seq<Shape>, tag: (ShapeKind, nat) -> nat): Analysis
    requires k < |XmlKinds|
  {
    var ids := KindIds(k, shapes, tag);
    if |shapes| == 0 then a
    else Analysis(a.all + ids, a.nodes + [TypeNode(ids)], PutAll(a.step, KindTexts(k, shapes, tag), shapes, |shapes|))
  }

  /** The analysis after the first t kinds. */
  function Analysed(explore: ShapeKind -> seq<Shape>, tag: (ShapeKind, nat) -> nat, t: nat): Analysis
    requires t <= |XmlKinds|
  {
    if t == 0 then Analysis([], [], Empty())
    else AddKind(Analysed(explore, tag, t - 1), t - 1, explore(XmlKinds[t - 1]), tag)
  }

  /** The root item the analysis fills: all ids as data, over the type nodes. */
  function ImportTree(explore: ShapeKind -> seq<Shape>, tag: (ShapeKind, nat) -> nat): Item
  {
    var a := Analysed(explore, tag, |XmlKinds|);
    Item(Many(a.all), a.nodes)
  }

  // ---------------------------------------------------------------------
  // The analysis, as the loops do it
  // ---------------------------------------------------------------------

  /**
   * `analyze_shape_and_build_tree`: the explorer's shapes collected per
   * kind, then, kind by kind, a type node over batch nodes for each kind
   * with shapes, every shape stored under its id, and the root given all
   * the ids.
   */
  method AnalyzeShapeAndBuildTree(explore: ShapeKind -> seq<Shape>, tag: (ShapeKind, nat) -> nat)
    returns (root: Item, step: Dict<string, Shape>)
    ensures root == ImportTree(explore, tag)
    ensures step == Analysed(explore, tag, |XmlKinds|).step
  {
    var collections: seq<seq<Shape>> := [];
    var t := 0;
    while t < |XmlKinds|
      invariant t <= |XmlKinds| && |collections| == t
      invariant forall j :: 0 <= j < t ==> collections[j] == explore(XmlKinds[j])
    {
      collections := collections + [explore(XmlKinds[t])];
      t := t + 1;
    }
    var all: seq<ShapeId> := [];
    var nodes: seq<Item> := [];
    step := Empty();
    t := 0;
    while t < |XmlKinds|
      invariant t <= |XmlKinds| && Analysis(all, nodes, step) == Analysed(explore, tag, t)
    {
      all, nodes, step := KindPass(t, collections[t], tag, all, nodes, step);
      t := t + 1;
    }
    root := Item(Many(all), nodes);
  }

  /** One kind: nothing when the explorer found none of it, else its type node, ids and shapes. */
  method KindPass(t: nat, shapes: seq<Shape>, tag: (ShapeKind, nat) -> nat,
                  all0: seq<ShapeId>, nodes0: seq<Item>, step0: Dict<string, Shape>)
    returns (all: seq<ShapeId>, nodes: seq<Item>, step: Dict<string, Shape>)
    requires t < |XmlKinds|
    ensures Analysis(all, nodes, step) == AddKind(Analysis(all0, nodes0, step0), t, shapes, tag)
  {
    all, nodes, step := all0, nodes0, step0;
    if |shapes| > 0 {
      var node;
      node, all, step := BuildTypeNode(t, shapes, tag, all, step);
      nodes := nodes + [node];
    }
  }

  /** Within kind t, the lists, `step_shapes` and the batch nodes once the first b batches were handled. */
  ghost predicate TypeState(t: nat, shapes: seq<Shape>, tag: (ShapeKind, nat) -> nat, b: nat,
                            typeIds: seq<ShapeId>, all: seq<ShapeId>, step: Dict<string, Shape>, children: seq<Item>,
                            all0: seq<ShapeId>, step0: Dict<string, Shape>)
    requires t < |XmlKinds| && b <= BatchCount(|shapes|, NodeBatch)
  {
    var ids := KindIds(t, shapes, tag);
    && typeIds == ids[..Covered(|ids|, NodeBatch, b)] && all == all0 + typeIds
    && step == PutAll(step0, KindTexts(t, shapes, tag), shapes, Covered(|ids|, NodeBatch, b))
    && children == BatchNodes(ids, b)
  }

  /** One kind with shapes: its type node over its batch nodes, its ids appended, its shapes stored. */
  method BuildTypeNode(t: nat, shapes: seq<Shape>, tag: (ShapeKind, nat) -> nat, all0: seq<ShapeId>, step0: Dict<string, Shape>)
    returns (node: Item, all: seq<ShapeId>, step: Dict<string, Shape>)
    requires t < |XmlKinds|
    ensures var ids := KindIds(t, shapes, tag);
      && node == TypeNode(ids) && all == all0 + ids && step == PutAll(step0, KindTexts(t, shapes, tag), shapes, |shapes|)
  {
    ghost var ids := KindIds(t, shapes, tag);
    var typeIds: seq<ShapeId> := [];
    var children: seq<Item> := [];
    all, step := all0, step0;
    var count := (|shapes| + NodeBatch - 1) / NodeBatch;
    var b := 0;
    while b < count
      invariant b <= count == BatchCount(|shapes|, NodeBatch)
      invariant TypeState(t, shapes, tag, b, typeIds, all, step, children, all0, step0)
    {
      typeIds, all, step, children := BatchPass(t, shapes, tag, b, typeIds, all, step, children, all0, step0);
      b := b + 1;
    }
    if |ids| > 0 {
      BatchStarts(|ids|, NodeBatch, b);
      BatchBounds(|ids|, NodeBatch, b - 1);
      CoveredStep(|ids|, NodeBatch, b);
    }
    assert ids[..Covered(|ids|, NodeBatch, b)] == ids;
    node := Item(Many(typeIds), children);
  }

  /** Batch b: `shapes[50b:min(50b + 50, len)]` handled, and its batch node added. */
  method BatchPass(t: nat, shapes: seq<Shape>, tag: (ShapeKind, nat) -> nat, b: nat,
                   typeIds0: seq<ShapeId>, all0: seq<ShapeId>, step0: Dict<string, Shape>, children0: seq<Item>,
                   ghost allBase: seq<ShapeId>, ghost stepBase: Dict<string, Shape>)
    returns (typeIds: seq<ShapeId>, all: seq<ShapeId>, step: Dict<string, Shape>, children: seq<Item>)
    requires t < |XmlKinds| && b < BatchCount(|shapes|, NodeBatch)
    requires TypeState(t, shapes, tag, b, typeIds0, all0, step0, children0, allBase, stepBase)
    ensures TypeState(t, shapes, tag, b + 1, typeIds, all, step, children, allBase, stepBase)
  {
    ghost var ids := KindIds(t, shapes, tag);
    CoveredStep(|ids|, NodeBatch, b + 1);
    var start := b * NodeBatch;
    var end := if start + NodeBatch <= |shapes| then start + NodeBatch else |shapes|;
    assert start == Covered(|ids|, NodeBatch, b) && end == Covered(|ids|, NodeBatch, b + 1);
    var batchIds;
    batchIds, typeIds, all, step := BuildBatch(t, shapes, tag, start, end, typeIds0, all0, step0, allBase, stepBase);
    children := children0 + [Item(Many(batchIds), [])];
  }

  /** Within a batch from `start`, the lists and `step_shapes` once shapes up to i - 1 were handled. */
  ghost predicate BatchState(t: nat, shapes: seq<Shape>, tag: (ShapeKind, nat) -> nat, start: nat, i: nat,
                             batchIds: seq<ShapeId>, typeIds: seq<ShapeId>, all: seq<ShapeId>, step: Dict<string, Shape>,
                             allBase: seq<ShapeId>, stepBase: Dict<string, Shape>)
    requires t < |XmlKinds| && start <= i <= |shapes|
  {
    && batchIds == KindIds(t, shapes, tag)[start..i]
    && typeIds == KindIds(t, shapes, tag)[..i] && all == allBase + typeIds
    && step == PutAll(stepBase, KindTexts(t, shapes, tag), shapes, i)
  }

  /** One batch: shapes `start` to `end - 1` of the kind get their ids and are stored. */
  method BuildBatch(t: nat, shapes: seq<Shape>, tag: (ShapeKind, nat) -> nat, start: nat, end: nat,
                    typeIds0: seq<ShapeId>, all0: seq<ShapeId>, step0: Dict<string, Shape>,
                    ghost allBase: seq<ShapeId>, ghost stepBase: Dict<string, Shape>)
    returns (batchIds: seq<ShapeId>, typeIds: seq<ShapeId>, all: seq<ShapeId>, step: Dict<string, Shape>)
    requires t < |XmlKinds| && start <= end <= |shapes|
    requires typeIds0 == KindIds(t, shapes, tag)[..start] && all0 == allBase + typeIds0
    requires step0 == PutAll(stepBase, KindTexts(t, shapes, tag), shapes, start)
    ensures batchIds == KindIds(t, shapes, tag)[start..end]
    ensures typeIds == KindIds(t, shapes, tag)[..end] && all == allBase + typeIds
    ensures step == PutAll(stepBase, KindTexts(t, shapes, tag), shapes, end)
  {
    batchIds, typeIds, all, step := [], typeIds0, all0, step0;
    var i := start;
    while i < end
      invariant start <= i <= end
      invariant BatchState(t, shapes, tag, start, i, batchIds, typeIds, all, step, allBase, stepBase)
    {
      batchIds, typeIds, all, step := StoreShape(t, shapes, tag, start, i, batchIds, typeIds, all, step, allBase, stepBase);
      i := i + 1;
    }
  }

  /** One shape: its id made, the shape stored under it, and the id appended to the three lists. */
  method StoreShape(t: nat, shapes: seq<Shape>, tag: (ShapeKind, nat) -> nat, start: nat, i: nat,
                    batchIds0: seq<ShapeId>, typeIds0: seq<ShapeId>, all0: seq<ShapeId>, step0: Dict<string, Shape>,
                    ghost allBase: seq<ShapeId>, ghost stepBase: Dict<string, Shape>)
    returns (batchIds: seq<ShapeId>, typeIds: seq<ShapeId>, all: seq<ShapeId>, step: Dict<string, Shape>)
    requires t < |XmlKinds| && start <= i < |shapes|
    requires BatchState(t, shapes, tag, start, i, batchIds0, typeIds0, all0, step0, allBase, stepBase)
    ensures BatchState(t, shapes, tag, start, i + 1, batchIds, typeIds, all, step, allBase, stepBase)
  {
    ghost var ids := KindIds(t, shapes, tag);
    var id := IdText(t, i, tag(XmlKinds[t], i));
    step := Put(step0, id, shapes[i]);
    batchIds, typeIds, all := batchIds0 + [StrId(id)], typeIds0 + [StrId(id)], all0 + [StrId(id)];
    SliceSnoc(ids, start, i);
    PrefixSnoc(ids, i);
  }

  // ---------------------------------------------------------------------
  // Properties
  // ---------------------------------------------------------------------

  /** The id list of an item's data: the list, or nothing. */
  function ListOf(p: Payload): seq<ShapeId>
  {
    if p.Many? then p.ids else []
  }

  /** The id lists of a row of items. */
  function Lists(items: seq<Item>): (r: seq<seq<ShapeId>>)
    ensures |r| == |items| && forall j :: 0 <= j < |r| ==> r[j] == ListOf(items[j].data)
  {
    seq(|items|, j requires 0 <= j < |items| => ListOf(items[j].data))
  }

  /** A type node's list is its batch nodes' lists one after the other. */
  lemma TypeNodeLists(ids: seq<ShapeId>)
    ensures Concat(Lists(TypeNode(ids).children)) == ids
  {
    var count := BatchCount(|ids|, NodeBatch);
    assert Lists(TypeNode(ids).children) == Batches.Batches(ids, NodeBatch, count);
    BatchesAll(ids, NodeBatch);
  }

  /** Adding a kind keeps the root's list the type nodes' lists one after the other. */
  lemma AddKindLists(a: Analysis, k: nat, shapes: seq<Shape>, tag: (ShapeKind, nat) -> nat)
    requires k < |XmlKinds| && Concat(Lists(a.nodes)) == a.all
    ensures Concat(Lists(AddKind(a, k, shapes, tag).nodes)) == AddKind(a, k, shapes, tag).all
  {
    if |shapes| > 0 {
      var ids := KindIds(k, shapes, tag);
      assert Lists(a.nodes + [TypeNode(ids)]) == Lists(a.nodes) + [ids];
      ConcatSnoc(Lists(a.nodes), ids);
    }
  }

  /** After each kind, the root's list is the type nodes' lists one after the other. */
  lemma {:induction false} AnalysedLists(explore: ShapeKind -> seq<Shape>, tag: (ShapeKind, nat) -> nat, t: nat)
    requires t <= |XmlKinds|
    ensures Concat(Lists(Analysed(explore, tag, t).nodes)) == Analysed(explore, tag, t).all
  {
    if t > 0 {
      AnalysedLists(explore, tag, t - 1);
      AddKindLists(Analysed(explore, tag, t - 1), t - 1, explore(XmlKinds[t - 1]), tag);
    }
  }

  /** The root's list is its type nodes' lists one after the other. */
  lemma RootLists(explore: ShapeKind -> seq<Shape>, tag: (ShapeKind, nat) -> nat)
    ensures var root := ImportTree(explore, tag);
      Concat(Lists(root.children)) == ListOf(root.data)
  {
    AnalysedLists(explore, tag, |XmlKinds|);
  }

  /** Adding a kind appends exactly its ids to the root's list. */
  lemma AddKindAll(a: Analysis, k: nat, shapes: seq<Shape>, tag: (ShapeKind, nat) -> nat)
    requires k < |XmlKinds|
    ensures AddKind(a, k, shapes, tag).all == a.all + KindIds(k, shapes, tag)
  {
    if |shapes| == 0 {
      assert KindIds(k, shapes, tag) == [];
    }
  }

  /** The root's list holds the solids' ids, then the shells', faces', wires' and edges'. */
  lemma RootListOrder(explore: ShapeKind -> seq<Shape>, tag: (ShapeKind, nat) -> nat)
    ensures ImportTree(explore, tag).data == Many(
      KindIds(0, explore(Solid), tag) + KindIds(1, explore(Shell), tag) + KindIds(2, explore(Face), tag)
      + KindIds(3, explore(Wire), tag) + KindIds(4, explore(Edge), tag))
  {
    var a0 := Analysed(explore, tag, 0);
    var a1 := Analysed(explore, tag, 1);
    var a2 := Analysed(explore, tag, 2);
    var a3 := Analysed(explore, tag, 3);
    var a4 := Analysed(explore, tag, 4);
    AddKindAll(a0, 0, explore(Solid), tag);
    AddKindAll(a1, 1, explore(Shell), tag);
    AddKindAll(a2, 2, explore(Face), tag);
    AddKindAll(a3, 3, explore(Wire), tag);
    AddKindAll(a4, 4, explore(Edge), tag);
    assert a1.all == KindIds(0, explore(Solid), tag);
  }

  /** Every id of a root list is of one of the first t kinds, and a `step_shapes` is keyed by them in order. */
  ghost predicate KeysFacts(all: seq<ShapeId>, step: Dict<string, Shape>, t: nat)
  {
    && (forall p :: 0 <= p < |all| ==> all[p].StrId? && KindOf(all[p].s) < t)
    && Valid(step) && step.keys == Texts(all)
  }

  /** Distinct ids of kind k are none of them a key already. */
  lemma Fresh(all: seq<ShapeId>, step: Dict<string, Shape>, texts: seq<string>, k: nat)
    requires KeysFacts(all, step, k) && Distinct(texts)
    requires forall i :: 0 <= i < |texts| ==> KindOf(texts[i]) == k
    ensures Distinct(step.keys + texts)
  {
    var w := step.keys + texts;
    var n := |step.keys|;
    forall p, q | 0 <= p < q < |w|
      ensures w[p] != w[q]
    {
      if q >= n {
        assert w[q] == texts[q - n];
        if p >= n {
          assert w[p] == texts[p - n];
        }
      }
    }
  }

  /** Adding kind t - 1 keeps the facts, now with it among the kinds. */
  lemma AddKindKeys(a: Analysis, t: nat, shapes: seq<Shape>, tag: (ShapeKind, nat) -> nat)
    requires 0 < t <= |XmlKinds| && KeysFacts(a.all, a.step, t - 1)
    ensures KeysFacts(AddKind(a, t - 1, shapes, tag).all, AddKind(a, t - 1, shapes, tag).step, t)
  {
    var k := t - 1;
    if |shapes| > 0 {
      var texts := KindTexts(k, shapes, tag);
      KindTextsDistinct(k, shapes, tag);
      Fresh(a.all, a.step, texts, k);
      PutAllFresh(a.step, texts, shapes);
      KeysStep(a.all, a.step, PutAll(a.step, texts, shapes, |shapes|), k, shapes, tag);
    }
  }

  /** Appending kind k's ids to the root's list and their texts to the keys keeps the facts. */
  lemma KeysStep(all: seq<ShapeId>, d: Dict<string, Shape>, e: Dict<string, Shape>, k: nat, shapes: seq<Shape>, tag: (ShapeKind, nat) -> nat)
    requires k < |XmlKinds| && KeysFacts(all, d, k)
    requires Valid(e) && e.keys == d.keys + KindTexts(k, shapes, tag)
    ensures KeysFacts(all + KindIds(k, shapes, tag), e, k + 1)
  {
    var ids, texts := KindIds(k, shapes, tag), KindTexts(k, shapes, tag);
    KindTextsDistinct(k, shapes, tag);
    assert forall i :: 0 <= i < |ids| ==> ids[i] == StrId(texts[i]);
    TextsAppend(all, ids, texts);
    KindsAppend(all, ids, k + 1);
  }

  lemma TextsAppend(all: seq<ShapeId>, ids: seq<ShapeId>, texts: seq<string>)
    requires (forall p :: 0 <= p < |all| ==> all[p].StrId?) && |texts| == |ids|
    requires forall i :: 0 <= i < |ids| ==> ids[i] == StrId(texts[i])
    ensures (forall p :: 0 <= p < |all + ids| ==> (all + ids)[p].StrId?) && Texts(all + ids) == Texts(all) + texts
  {
  }

  lemma KindsAppend(all: seq<ShapeId>, ids: seq<ShapeId>, t: nat)
    requires forall p :: 0 <= p < |all| ==> all[p].StrId? && KindOf(all[p].s) < t
    requires forall i :: 0 <= i < |ids| ==> ids[i].StrId? && KindOf(ids[i].s) < t
    ensures forall p :: 0 <= p < |all + ids| ==> (all + ids)[p].StrId? && KindOf((all + ids)[p].s) < t
  {
  }

  /** Adding kind k keeps every stored shape, and stores each of kind k's shapes under its id. */
  lemma AddKindValues(a: Analysis, k: nat, shapes: seq<Shape>, tag: (ShapeKind, nat) -> nat)
    requires k < |XmlKinds| && KeysFacts(a.all, a.step, k)
    ensures var step := AddKind(a, k, shapes, tag).step;
      && (forall s :: s in a.step.values ==> s in step.values && step.values[s] == a.step.values[s])
      && forall i :: 0 <= i < |shapes| ==>
           IdText(k, i, tag(XmlKinds[k], i)) in step.values && step.values[IdText(k, i, tag(XmlKinds[k], i))] == shapes[i]
  {
    if |shapes| > 0 {
      var texts := KindTexts(k, shapes, tag);
      KindTextsDistinct(k, shapes, tag);
      Fresh(a.all, a.step, texts, k);
      PutAllValues(a.step, texts, shapes, |shapes|);
    }
  }

  /** Every shape of the first t kinds is stored under its id. */
  ghost predicate StoresKinds(step: Dict<string, Shape>, explore: ShapeKind -> seq<Shape>, tag: (ShapeKind, nat) -> nat, t: nat)
    requires t <= |XmlKinds|
  {
    forall j, i :: 0 <= j < t && 0 <= i < |explore(XmlKinds[j])| ==>
      var s := IdText(j, i, tag(XmlKinds[j], i));
      s in step.values && step.values[s] == explore(XmlKinds[j])[i]
  }

  /** Adding kind t - 1 extends the stored kinds by it. */
  lemma StoresStep(a: Analysis, explore: ShapeKind -> seq<Shape>, tag: (ShapeKind, nat) -> nat, t: nat)
    requires 0 < t <= |XmlKinds| && KeysFacts(a.all, a.step, t - 1) && StoresKinds(a.step, explore, tag, t - 1)
    ensures StoresKinds(AddKind(a, t - 1, explore(XmlKinds[t - 1]), tag).step, explore, tag, t)
  {
    AddKindValues(a, t - 1, explore(XmlKinds[t - 1]), tag);
  }

  /** After t kinds, the facts hold of the root's list and `step_shapes`, and every shape is stored. */
  lemma {:induction false} AnalysedFacts(explore: ShapeKind -> seq<Shape>, tag: (ShapeKind, nat) -> nat, t: nat)
    requires t <= |XmlKinds|
    ensures KeysFacts(Analysed(explore, tag, t).all, Analysed(explore, tag, t).step, t)
    ensures StoresKinds(Analysed(explore, tag, t).step, explore, tag, t)
  {
    if t > 0 {
      AnalysedFacts(explore, tag, t - 1);
      var a := Analysed(explore, tag, t - 1);
      AddKindKeys(a, t, explore(XmlKinds[t - 1]), tag);
      StoresStep(a, explore, tag, t);
    }
  }

  /**
   * After the analysis, the root's ids are distinct, `step_shapes` is
   * keyed by them in the root's order, and it holds every shape the
   * explorer found under its id: no shape overwrites another.
   */
  lemma ImportedStep(explore: ShapeKind -> seq<Shape>, tag: (ShapeKind, nat) -> nat)
    ensures var a := Analysed(explore, tag, |XmlKinds|);
      && (forall p :: 0 <= p < |a.all| ==> a.all[p].StrId?)
      && Valid(a.step) && a.step.keys == Texts(a.all) && Distinct(a.all)
      && forall t, i :: 0 <= t < |XmlKinds| && 0 <= i < |explore(XmlKinds[t])| ==>
           StrId(IdText(t, i, tag(XmlKinds[t], i))) in a.all
           && a.step.values[IdText(t, i, tag(XmlKinds[t], i))] == explore(XmlKinds[t])[i]
  {
    var a := Analysed(explore, tag, |XmlKinds|);
    AnalysedFacts(explore, tag, |XmlKinds|);
    forall i, j | 0 <= i < j < |a.all|
      ensures a.all[i] != a.all[j]
    {
      assert a.step.keys[i] != a.step.keys[j];
    }
    forall t, i | 0 <= t < |XmlKinds| && 0 <= i < |explore(XmlKinds[t])|
      ensures StrId(IdText(t, i, tag(XmlKinds[t], i))) in a.all
    {
      var s := IdText(t, i, tag(XmlKinds[t], i));
      var p :| 0 <= p < |a.step.keys| && a.step.keys[p] == s;
      assert a.all[p] == StrId(s);
    }
  }
}
