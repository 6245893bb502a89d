/**
 * How the spreadsheet viewer names the sub-shapes of an imported STEP or
 * IGES model (visualize_xlsx.py, `analyze_shape_and_build_tree` and
 * `get_shape_type_name`): the category a shape is filed under, its
 * display type name, and the id it is registered under.
 */
module XlsxImport {
  import opened Basics
  import opened Decimal
  import opened Dicts
  import opened Shapes
  import opened XlsxRecords

  /** `get_shape_type_name`: the display name of a shape's type. */
  function TypeName(kind: ShapeKind): string
  {
    match kind
    case Compound => "复合体 (Compound)"
    case CompSolid => "复合实体 (CompSolid)"
    case Solid => "实体 (Solid)"
    case Shell => "壳 (Shell)"
    case Face => "面 (Face)"
    case Wire => "线框 (Wire)"
    case Edge => "边 (Edge)"
    case Vertex => "顶点 (Vertex)"
    case AnyShape => "形状 (Type " + Show(8) + ")"
  }

  /** The kinds the explorer passes visit, in that order. */
  const ExploredKinds: seq<ShapeKind> := [Solid, Shell, Face, Edge]

  /** `shape_types_to_explore.get(shape_type, "其他")`: the category a shape is filed under. */
  function Category(kind: ShapeKind): string
  {
    match kind
    case Solid => "实体 (Solid)"
    case Shell => "壳 (Shell)"
    case Face => "面 (Face)"
    case Edge => "边 (Edge)"
    case _ => "其他"
  }

  /** An explored kind is filed under its own display name. */
  lemma CategoryOfExplored(kind: ShapeKind)
    requires kind in ExploredKinds
    ensures Category(kind) == TypeName(kind)
  {
  }

  /** `s.split(' ')[0]`: the text before the first space. */
  function FirstWord(s: string): (r: string)
    ensures |r| <= |s| && r == s[..|r|] && ' ' !in r
    ensures |r| < |s| ==> s[|r|] == ' '
  {
    if |s| == 0 || s[0] == ' ' then [] else [s[0]] + FirstWord(s[1..])
  }

  /**
   * The first word of a category, which starts every id filed under it;
   * `lower()` leaves these words unchanged, as none holds a cased letter.
   */
  function IdPrefix(kind: ShapeKind): (p: string)
    ensures p == FirstWord(Category(kind))
  {
    var c := Category(kind);
    FirstWordAt(c, if c == "其他" then 2 else if c == "实体 (Solid)" then 2 else 1);
    match kind
    case Solid => "实体"
    case Shell => "壳"
    case Face => "面"
    case Edge => "边"
    case _ => "其他"
  }

  /** The first word of a text whose first space is at position n. */
  lemma FirstWordAt(s: string, n: nat)
    requires n <= |s| && ' ' !in s[..n] && (n < |s| ==> s[n] == ' ')
    ensures FirstWord(s) == s[..n]
  {
    var r := FirstWord(s);
    if |r| < n {
      assert false;
    }
    if n < |r| {
      assert false;
    }
  }

  /** `f"{prefix}_{counter}_{hash}"`: the id of the shape processed as number `counter`. */
  function ImportedId(kind: ShapeKind, counter: nat, hash: nat): string
  {
    IdPrefix(kind) + "_" + (Show(counter) + "_" + Show(hash))
  }

  /** The separator of the second text is not before that of the first. */
  lemma SeparatorNotBefore(a1: string, b1: string, a2: string, b2: string, sep: char)
    requires sep !in a2
    requires a1 + [sep] + b1 == a2 + [sep] + b2
    ensures |a2| <= |a1|
  {
    var s := a1 + [sep] + b1;
    assert s[|a1|] == sep;
    assert forall i :: 0 <= i < |a2| ==> s[i] == a2[i] && s[i] != sep;
  }

  /** Two texts with no separator before the first one split the same way. */
  lemma SplitAtSeparator(a1: string, b1: string, a2: string, b2: string, sep: char)
    requires sep !in a1 && sep !in a2
    requires a1 + [sep] + b1 == a2 + [sep] + b2
    ensures a1 == a2 && b1 == b2
  {
    SeparatorNotBefore(a1, b1, a2, b2, sep);
    SeparatorNotBefore(a2, b2, a1, b1, sep);
    var s := a1 + [sep] + b1;
    assert a1 == s[..|a1|] && a2 == s[..|a2|];
    assert b1 == s[|a1| + 1..] && b2 == s[|a2| + 1..];
  }

  lemma DigitsHaveNoUnderscore(s: string)
    requires AllDigits(s)
    ensures '_' !in s
  {
  }

  /**
   * Ids made with different counters are different, whatever the kinds and
   * hashes: the counter sits between the first and the second underscore.
   */
  lemma ImportedIdInjective(k1: ShapeKind, c1: nat, h1: nat, k2: ShapeKind, c2: nat, h2: nat)
    requires ImportedId(k1, c1, h1) == ImportedId(k2, c2, h2)
    ensures c1 == c2 && h1 == h2 && IdPrefix(k1) == IdPrefix(k2)
  {
    var p1, p2 := IdPrefix(k1), IdPrefix(k2);
    var t1, t2 := Show(c1) + "_" + Show(h1), Show(c2) + "_" + Show(h2);
    assert '_' !in p1 && '_' !in p2 by {
      assert p1 in {"实体", "壳", "面", "边", "其他"};
      assert p2 in {"实体", "壳", "面", "边", "其他"};
    }
    assert p1 + "_" + t1 == p2 + "_" + t2;
    SplitAtSeparator(p1, t1, p2, t2, '_');
    DigitsHaveNoUnderscore(Show(c1));
    DigitsHaveNoUnderscore(Show(c2));
    SplitAtSeparator(Show(c1), Show(h1), Show(c2), Show(h2), '_');
    ShowInjective(c1, c2);
    ShowInjective(h1, h2);
  }

  /** No imported id looks like a node id, so it keeps the imported shapes' colours. */
  lemma ImportedIdNotNode(kind: ShapeKind, counter: nat, hash: nat)
    ensures !IsNodeId(StrId(ImportedId(kind, counter, hash)))
  {
    var id := ImportedId(kind, counter, hash);
    assert id[0] == IdPrefix(kind)[0];
    assert IdPrefix(kind)[0] != 'n';
  }

  /** Some shape of `kept` IsSame as s. */
  predicate Seen(kept: seq<Shape>, s: Shape)
  {
    exists i :: 0 <= i < |kept| && IsSame(kept[i], s)
  }

  /**
   * `TopTools_IndexedMapOfShape.Add` over the explorer passes: the non-null
   * shapes, each kept only the first time a shape IsSame as it is seen.
   */
  function UniqueShapes(explored: seq<Shape>): seq<Shape>
  {
    if |explored| == 0 then []
    else
      var r := UniqueShapes(explored[..|explored| - 1]);
      var s := explored[|explored| - 1];
      if IsNull(s) || Seen(r, s) then r else r + [s]
  }

  /** Every kept shape is a non-null explored shape. */
  lemma {:induction false} UniqueShapesSound(explored: seq<Shape>)
    ensures forall i :: 0 <= i < |UniqueShapes(explored)| ==>
      !IsNull(UniqueShapes(explored)[i]) && UniqueShapes(explored)[i] in explored
  {
    if |explored| > 0 {
      var init := explored[..|explored| - 1];
      UniqueShapesSound(init);
      assert forall x :: x in init ==> x in explored;
    }
  }

  /** No two kept shapes are the same shape. */
  lemma {:induction false} UniqueShapesDistinct(explored: seq<Shape>)
    ensures forall i, j :: 0 <= i < j < |UniqueShapes(explored)| ==>
      !IsSame(UniqueShapes(explored)[i], UniqueShapes(explored)[j])
  {
    if |explored| > 0 {
      UniqueShapesDistinct(explored[..|explored| - 1]);
    }
  }

  /** Every non-null explored shape is kept, as itself or as a shape IsSame as it. */
  lemma {:induction false} UniqueShapesCover(explored: seq<Shape>)
    ensures forall s :: s in explored && !IsNull(s) ==> Seen(UniqueShapes(explored), s)
  {
    if |explored| > 0 {
      var init := explored[..|explored| - 1];
      var r := UniqueShapes(init);
      var s := explored[|explored| - 1];
      UniqueShapesCover(init);
      assert explored == init + [s];
      if !IsNull(s) && !Seen(r, s) {
        var r' := r + [s];
        forall x | Seen(r, x) ensures Seen(r', x) {
          var i :| 0 <= i < |r| && IsSame(r[i], x);
          assert IsSame(r'[i], x);
        }
        assert IsSame(r'[|r|], s);
      }
    }
  }

  // ---------------------------------------------------------------------
  // The second pass: ids, type groups and registered shapes
  // ---------------------------------------------------------------------

  /**
   * The id of the i-th unique shape. No unique shape is null, so the
   * counter of the i-th shape processed is i.
   */
  function ShapeIdAt(u: seq<Shape>, hashOf: Shape -> nat, i: nat): string
    requires i < |u|
  {
    ImportedId(u[i].kind, i, hashOf(u[i]))
  }

  /** The ids the second pass gives the unique shapes, in order. */
  function ImportedIds(u: seq<Shape>, hashOf: Shape -> nat): (r: seq<string>)
    ensures |r| == |u| && forall i :: 0 <= i < |u| ==> r[i] == ShapeIdAt(u, hashOf, i)
  {
    seq(|u|, i requires 0 <= i < |u| => ShapeIdAt(u, hashOf, i))
  }

  /** No two shapes get the same id, and none gets a node id. */
  lemma ImportedIdsFresh(u: seq<Shape>, hashOf: Shape -> nat)
    ensures Distinct(ImportedIds(u, hashOf))
    ensures forall i :: 0 <= i < |u| ==> !IsNodeId(StrId(ImportedIds(u, hashOf)[i]))
  {
    var ids := ImportedIds(u, hashOf);
    forall i, j | 0 <= i < j < |u|
      ensures ids[i] != ids[j]
    {
      if ids[i] == ids[j] {
        ImportedIdInjective(u[i].kind, i, hashOf(u[i]), u[j].kind, j, hashOf(u[j]));
      }
    }
    forall i | 0 <= i < |u|
      ensures !IsNodeId(StrId(ids[i]))
    {
      ImportedIdNotNode(u[i].kind, i, hashOf(u[i]));
    }
  }

  /** The category each unique shape is filed under. */
  function Categories(u: seq<Shape>): (r: seq<string>)
    ensures |r| == |u| && forall i :: 0 <= i < |u| ==> r[i] == Category(u[i].kind)
  {
    seq(|u|, i requires 0 <= i < |u| => Category(u[i].kind))
  }

  /** The display type name of each unique shape. */
  function TypeNames(u: seq<Shape>): (r: seq<string>)
    ensures |r| == |u| && forall i :: 0 <= i < |u| ==> r[i] == TypeName(u[i].kind)
  {
    seq(|u|, i requires 0 <= i < |u| => TypeName(u[i].kind))
  }

  /** `StrId` of each of the first m ids: `all_shape_ids_in_tree` after m shapes. */
  function StrIds(ids: seq<string>, m: nat): (r: seq<ShapeId>)
    requires m <= |ids|
    ensures |r| == m && forall i :: 0 <= i < m ==> r[i] == StrId(ids[i])
  {
    seq(m, i requires 0 <= i < m => StrId(ids[i]))
  }

  /** One more shape appends its id. */
  lemma StrIdsSnoc(ids: seq<string>, m: nat)
    requires m < |ids|
    ensures StrIds(ids, m + 1) == StrIds(ids, m) + [StrId(ids[m])]
  {
    assert StrIds(ids, m + 1)[..m] == StrIds(ids, m);
  }

  /**
   * `type_nodes[name]["ids"]` in creation order after the first m shapes,
   * shape i having id ids[i] and category cats[i].
   */
  function TypeGroups(cats: seq<string>, ids: seq<string>, m: nat): (r: Dict<string, seq<ShapeId>>)
    requires m <= |cats| == |ids|
    ensures forall c :: c in r.keys ==> c in r.values
  {
    if m == 0 then Empty()
    else
      var g := TypeGroups(cats, ids, m - 1);
      Put(g, cats[m - 1], Get(g, cats[m - 1], []) + [StrId(ids[m - 1])])
  }

  /** The type groups keep distinct keys matching their map. */
  lemma {:induction false} TypeGroupsValid(cats: seq<string>, ids: seq<string>, m: nat)
    requires m <= |cats| == |ids|
    ensures Valid(TypeGroups(cats, ids, m))
  {
    if m > 0 {
      var g := TypeGroups(cats, ids, m - 1);
      TypeGroupsValid(cats, ids, m - 1);
      PutValid(g, cats[m - 1], Get(g, cats[m - 1], []) + [StrId(ids[m - 1])]);
    }
  }

  /** A group is created exactly for each category some shape is filed under. */
  lemma {:induction false} TypeGroupsKeys(cats: seq<string>, ids: seq<string>, m: nat)
    requires m <= |cats| == |ids|
    ensures forall c :: c in TypeGroups(cats, ids, m).values <==> c in cats[..m]
  {
    if m > 0 {
      TypeGroupsKeys(cats, ids, m - 1);
      assert forall x :: x in cats[..m] <==> x in cats[..m - 1] || x == cats[m - 1];
    }
  }

  /** The group of category c holds exactly the ids of the shapes filed under c. */
  lemma {:induction false} TypeGroupsSpec(cats: seq<string>, ids: seq<string>, m: nat, c: string)
    requires m <= |cats| == |ids| && Distinct(ids)
    ensures forall i :: 0 <= i < m ==> (StrId(ids[i]) in Get(TypeGroups(cats, ids, m), c, []) <==> cats[i] == c)
    ensures forall id :: id in Get(TypeGroups(cats, ids, m), c, []) ==> id in StrIds(ids, m)
  {
    if m > 0 {
      var g := TypeGroups(cats, ids, m - 1);
      TypeGroupsSpec(cats, ids, m - 1, c);
      assert StrId(ids[m - 1]) !in Get(g, c, []) by {
        forall i | 0 <= i < m - 1
          ensures ids[i] != ids[m - 1]
        {
        }
      }
      assert forall id :: id in StrIds(ids, m - 1) ==> id in StrIds(ids, m);
      assert StrIds(ids, m)[m - 1] == StrId(ids[m - 1]);
    }
  }

  /** `step_shapes` after the first m shapes. */
  function StepShapes(ids: seq<string>, u: seq<Shape>, m: nat): Dict<string, Shape>
    requires m <= |ids| == |u|
  {
    if m == 0 then Empty() else Put(StepShapes(ids, u, m - 1), ids[m - 1], u[m - 1])
  }

  /** `step_shapes` holds every shape under its own id, in processing order. */
  lemma {:induction false} StepShapesSpec(ids: seq<string>, u: seq<Shape>, m: nat)
    requires m <= |ids| == |u| && Distinct(ids)
    ensures StepShapes(ids, u, m).keys == ids[..m]
    ensures forall x :: x in StepShapes(ids, u, m).values <==> x in ids[..m]
    ensures forall i :: 0 <= i < m ==> StepShapes(ids, u, m).values[ids[i]] == u[i]
  {
    if m > 0 {
      StepShapesSpec(ids, u, m - 1);
      DistinctNotBefore(ids, m - 1);
      assert ids[..m] == ids[..m - 1] + [ids[m - 1]];
    }
    forall i | 0 <= i < m
      ensures StepShapes(ids, u, m).values[ids[i]] == u[i]
    {
      StepShapesAt(ids, u, m, i);
    }
  }

  /** The i-th shape stays under its id once later shapes are added. */
  lemma {:induction false} StepShapesAt(ids: seq<string>, u: seq<Shape>, m: nat, i: nat)
    requires m <= |ids| == |u| && Distinct(ids) && i < m
    ensures ids[i] in StepShapes(ids, u, m).values && StepShapes(ids, u, m).values[ids[i]] == u[i]
  {
    if i < m - 1 {
      StepShapesAt(ids, u, m - 1, i);
      assert ids[i] != ids[m - 1];
    }
  }

  /** `step_shapes` keeps distinct keys matching its map. */
  lemma StepShapesValid(ids: seq<string>, u: seq<Shape>, m: nat)
    requires m <= |ids| == |u| && Distinct(ids)
    ensures Valid(StepShapes(ids, u, m))
  {
    StepShapesSpec(ids, u, m);
  }

  /** The shapes registered from a unique sequence keep distinct keys, none of them a node id. */
  lemma StepShapesImported(u: seq<Shape>, hashOf: Shape -> nat, m: nat)
    requires m <= |u|
    ensures Valid(StepShapes(ImportedIds(u, hashOf), u, m))
    ensures forall k :: k in StepShapes(ImportedIds(u, hashOf), u, m).values ==> !IsNodeId(StrId(k))
  {
    var ids := ImportedIds(u, hashOf);
    ImportedIdsFresh(u, hashOf);
    StepShapesSpec(ids, u, m);
    StepShapesValid(ids, u, m);
    forall k | k in StepShapes(ids, u, m).values
      ensures !IsNodeId(StrId(k))
    {
      var i :| 0 <= i < m && ids[..m][i] == k;
      assert ids[i] == k;
    }
  }

  /** `shape_to_info` after the first m shapes: `base` with each shape's type name under its id. */
  function ImportedInfos(base: map<ShapeId, Info>, ids: seq<string>, types: seq<string>, m: nat): map<ShapeId, Info>
    requires m <= |ids| == |types|
  {
    if m == 0 then base
    else ImportedInfos(base, ids, types, m - 1)[StrId(ids[m - 1]) := ImportedRecord(types[m - 1])]
  }

  /** Each shape's record names its type; only the shapes' ids are added. */
  lemma {:induction false} ImportedInfosSpec(base: map<ShapeId, Info>, ids: seq<string>, types: seq<string>, m: nat)
    requires m <= |ids| == |types| && Distinct(ids)
    ensures forall i :: 0 <= i < m ==>
      (StrId(ids[i]) in ImportedInfos(base, ids, types, m)
       && ImportedInfos(base, ids, types, m)[StrId(ids[i])] == ImportedRecord(types[i]))
    ensures forall id :: id in ImportedInfos(base, ids, types, m) <==> id in base || id in StrIds(ids, m)
  {
    if m > 0 {
      ImportedInfosSpec(base, ids, types, m - 1);
      assert forall id :: id in StrIds(ids, m) <==> id in StrIds(ids, m - 1) || id == StrId(ids[m - 1]);
    }
  }

  /** A shape's item: its id as data. */
  function ShapeItem(id: ShapeId): Item
  {
    Item(One(id), [])
  }

  /** A type node: its ids as data, over their items. */
  function TypeItem(ids: seq<ShapeId>): (r: Item)
    ensures r.data == Many(ids) && |r.children| == |ids|
    ensures forall i :: 0 <= i < |ids| ==> r.children[i] == ShapeItem(ids[i])
  {
    Item(Many(ids), seq(|ids|, i requires 0 <= i < |ids| => ShapeItem(ids[i])))
  }

  /** The model's root item: all ids in processing order as data, over the type nodes in creation order. */
  function ImportRoot(cats: seq<string>, ids: seq<string>): (r: Item)
    requires |cats| == |ids|
    ensures var g := TypeGroups(cats, ids, |ids|);
      && r.data == Many(StrIds(ids, |ids|))
      && |r.children| == |g.keys|
      && forall j :: 0 <= j < |g.keys| ==> r.children[j] == TypeItem(g.values[g.keys[j]])
  {
    var g := TypeGroups(cats, ids, |ids|);
    Item(Many(StrIds(ids, |ids|)), seq(|g.keys|, j requires 0 <= j < |g.keys| => TypeItem(g.values[g.keys[j]])))
  }
}
