/**
 * The record store the spreadsheet viewer (visualize_xlsx.py) builds from
 * the rows of its dataframe: reading one row's columns, and the effect of
 * a sequence of rows on the segments, the unique nodes, the link records,
 * the node-to-links lists and the section lists.
 */
module XlsxRecords {
  import opened Basics
  import opened Decimal
  import opened Dicts
  import opened Shapes

  // ---------------------------------------------------------------------
  // Rows and columns
  // ---------------------------------------------------------------------

  /** A cell: the text `str()` gives for it and the number `float()` gives, when it converts. */
  datatype Cell = Cell(text: string, number: Option<real>)

  /** One dataframe row: the cells of the columns it has. */
  datatype Row = Row(cells: map<string, Cell>)

  /** The fifteen columns `parse_df_and_populate_tree` reads, in its reading order. */
  const Columns: seq<string> :=
    ["Link Name", "refOrigine", "Xorigine", "Yorigine", "Zorigine",
     "RefExtremite", "Xextremite", "Yextremite", "Zextremite",
     "Length", "Density", "Safety", "Route", "Action Number", "Section"]

  const ColumnCount: nat := 15

  /** How a column is read: through `str()`, through `float()`, or kept as it is. */
  datatype ColumnKind = TextColumn | FloatColumn | RawColumn

  function Kind(c: nat): ColumnKind
    requires c < ColumnCount
  {
    if c in {0, 1, 5, 14} then TextColumn
    else if c in {2, 3, 4, 6, 7, 8} then FloatColumn
    else RawColumn
  }

  /** The value a column's local variable holds. */
  datatype Value = Text(s: string) | Num(r: real) | Raw(cell: Cell)

  predicate HasKind(v: Value, k: ColumnKind)
  {
    match k
    case TextColumn => v.Text?
    case FloatColumn => v.Num?
    case RawColumn => v.Raw?
  }

  /** One value per column, each of its column's kind. */
  predicate WellKinded(vs: seq<Value>)
  {
    |vs| == ColumnCount && forall c {:trigger vs[c]} :: 0 <= c < ColumnCount ==> HasKind(vs[c], Kind(c))
  }

  /** The default value of column c for the row at `index`. */
  function Default(c: nat, index: nat): (v: Value)
    requires c < ColumnCount
    ensures HasKind(v, Kind(c))
  {
    if c == 0 then Text("Link_" + Show(index))
    else if c == 1 then Text("Origin_" + Show(index))
    else if c == 5 then Text("Extremite_" + Show(index))
    else if c == 14 then Text("Default")
    else if Kind(c) == FloatColumn then Num(0.0)
    else if c == 9 || c == 10 then Raw(Cell("0.0", Some(0.0)))
    else Raw(Cell("", None))
  }

  /**
   * `row.get(column, default)` passed through the column's conversion:
   * None when `float()` raises on the cell.
   */
  function ReadColumn(row: Row, index: nat, c: nat): (r: Option<Value>)
    requires c < ColumnCount
    ensures r.Some? ==> HasKind(r.value, Kind(c))
    ensures r.None? <==> (Columns[c] in row.cells && Kind(c) == FloatColumn && row.cells[Columns[c]].number.None?)
  {
    if Columns[c] !in row.cells then Some(Default(c, index))
    else
      var cell := row.cells[Columns[c]];
      match Kind(c)
      case TextColumn => Some(Text(cell.text))
      case FloatColumn => if cell.number.Some? then Some(Num(cell.number.value)) else None
      case RawColumn => Some(Raw(cell))
  }

  /**
   * The reading the fallback code intends: every column read on its own,
   * one whose conversion raises taking its default.
   */
  function ReadRow(row: Row, index: nat): (vs: seq<Value>)
    ensures WellKinded(vs)
  {
    seq(ColumnCount, c requires 0 <= c < ColumnCount =>
      var r := ReadColumn(row, index, c);
      if r.Some? then r.value else Default(c, index))
  }

  /** Every column takes the row's own cell when it converts, and its default when it does not. */
  lemma ReadRowColumns(row: Row, index: nat, c: nat)
    requires c < ColumnCount
    ensures ReadColumn(row, index, c).Some? ==> ReadRow(row, index)[c] == ReadColumn(row, index, c).value
    ensures ReadColumn(row, index, c).None? ==> ReadRow(row, index)[c] == Default(c, index)
  {
  }

  /** The position of the first column whose conversion raises, ColumnCount if none does. */
  function FirstFailure(row: Row, index: nat, from: nat): (f: nat)
    requires from <= ColumnCount
    ensures from <= f <= ColumnCount
    ensures forall c :: from <= c < f ==> ReadColumn(row, index, c).Some?
    ensures f < ColumnCount ==> ReadColumn(row, index, f).None?
    decreases ColumnCount - from
  {
    if from == ColumnCount then ColumnCount
    else if ReadColumn(row, index, from).None? then from
    else FirstFailure(row, index, from + 1)
  }

  /**
   * The reading as written: the try block stops at the first conversion
   * that raises, and the fallback assigns a default only to a variable not
   * yet in `locals()`. From the second row on every variable is already
   * there, so the failing column and every column after it keep the
   * previous row's values.
   */
  function ReadRowAsWritten(row: Row, index: nat, previous: Option<seq<Value>>): (vs: seq<Value>)
    requires previous.Some? ==> WellKinded(previous.value)
    ensures WellKinded(vs)
  {
    var f := FirstFailure(row, index, 0);
    seq(ColumnCount, c requires 0 <= c < ColumnCount =>
      if c < f then ReadColumn(row, index, c).value
      else if previous.Some? then previous.value[c]
      else Default(c, index))
  }

  /**
   * A second row whose Xorigine does not convert takes its Section (and
   * its RefExtremite and the other columns after Xorigine) from the first
   * row, although its own Section cell converts.
   */
  lemma AsWrittenCarriesOver()
    ensures var first := Row(map["Section" := Cell("A", None)]);
      var second := Row(map["Xorigine" := Cell("abc", None), "Section" := Cell("B", None)]);
      && ReadColumn(second, 1, 14) == Some(Text("B"))
      && ReadRowAsWritten(second, 1, Some(ReadRowAsWritten(first, 0, None)))[14] == Text("A")
      && ReadRow(second, 1)[14] == Text("B")
  {
    var first := Row(map["Section" := Cell("A", None)]);
    var second := Row(map["Xorigine" := Cell("abc", None), "Section" := Cell("B", None)]);
    assert Columns[14] == "Section" && Columns[2] == "Xorigine";
    assert ReadColumn(second, 1, 0).Some? && ReadColumn(second, 1, 1).Some?;
    assert ReadColumn(second, 1, 2).None?;
    assert FirstFailure(second, 1, 2) == 2;
    assert FirstFailure(second, 1, 1) == 2;
    assert FirstFailure(second, 1, 0) == 2;
    assert FirstFailure(first, 0, 0) == ColumnCount by {
      forall c | 0 <= c < ColumnCount
        ensures ReadColumn(first, 0, c).Some?
      {
        assert Columns[c] in first.cells ==> c == 14;
      }
      FirstFailureAllConvert(first, 0, 0);
    }
    var previous := ReadRowAsWritten(first, 0, None);
    assert previous[14] == ReadColumn(first, 0, 14).value == Text("A");
    assert ReadRowAsWritten(second, 1, Some(previous))[14] == previous[14];
    assert ReadRow(second, 1)[14] == ReadColumn(second, 1, 14).value;
  }

  lemma {:induction false} FirstFailureAllConvert(row: Row, index: nat, from: nat)
    requires from <= ColumnCount
    requires forall c :: from <= c < ColumnCount ==> ReadColumn(row, index, c).Some?
    ensures FirstFailure(row, index, from) == ColumnCount
    decreases ColumnCount - from
  {
    if from < ColumnCount {
      FirstFailureAllConvert(row, index, from + 1);
    }
  }

  /** The two readings agree on every row in which every conversion succeeds. */
  lemma AsWrittenAgreesWithoutFailure(row: Row, index: nat, previous: Option<seq<Value>>)
    requires previous.Some? ==> WellKinded(previous.value)
    requires forall c :: 0 <= c < ColumnCount ==> ReadColumn(row, index, c).Some?
    ensures ReadRowAsWritten(row, index, previous) == ReadRow(row, index)
  {
    FirstFailureAllConvert(row, index, 0);
  }

  // ---------------------------------------------------------------------
  // Links
  // ---------------------------------------------------------------------

  /** A `link_data` entry: one row's values. */
  datatype Link = Link(
    name: string, refOrigin: string, origin: Point, refEnd: string, end: Point,
    length: Cell, density: Cell, safety: Cell, route: Cell, actionNumber: Cell, section: string)

  function ToLink(vs: seq<Value>): Link
    requires WellKinded(vs)
  {
    assert HasKind(vs[0], Kind(0)) && HasKind(vs[1], Kind(1)) && HasKind(vs[2], Kind(2));
    assert HasKind(vs[3], Kind(3)) && HasKind(vs[4], Kind(4)) && HasKind(vs[5], Kind(5));
    assert HasKind(vs[6], Kind(6)) && HasKind(vs[7], Kind(7)) && HasKind(vs[8], Kind(8));
    assert HasKind(vs[9], Kind(9)) && HasKind(vs[10], Kind(10)) && HasKind(vs[11], Kind(11));
    assert HasKind(vs[12], Kind(12)) && HasKind(vs[13], Kind(13)) && HasKind(vs[14], Kind(14));
    Link(vs[0].s, vs[1].s, Point(vs[2].r, vs[3].r, vs[4].r), vs[5].s, Point(vs[6].r, vs[7].r, vs[8].r),
         vs[9].cell, vs[10].cell, vs[11].cell, vs[12].cell, vs[13].cell, vs[14].s)
  }

  /** Column c of the row at `index`, read as text (c is a text column). */
  function TextAt(row: Row, index: nat, c: nat): string
    requires c < ColumnCount && Kind(c) == TextColumn
  {
    if Columns[c] in row.cells then row.cells[Columns[c]].text else Default(c, index).s
  }

  /** Column c read as a number, its default when `float()` raises. */
  function NumAt(row: Row, index: nat, c: nat): real
    requires c < ColumnCount && Kind(c) == FloatColumn
  {
    if Columns[c] in row.cells && row.cells[Columns[c]].number.Some? then row.cells[Columns[c]].number.value else Default(c, index).r
  }

  /** Column c kept as its cell. */
  function RawAt(row: Row, index: nat, c: nat): Cell
    requires c < ColumnCount && Kind(c) == RawColumn
  {
    if Columns[c] in row.cells then row.cells[Columns[c]] else Default(c, index).cell
  }

  /** The link one row makes. */
  function RowLink(row: Row, index: nat): Link
  {
    Link(TextAt(row, index, 0), TextAt(row, index, 1),
         Point(NumAt(row, index, 2), NumAt(row, index, 3), NumAt(row, index, 4)),
         TextAt(row, index, 5),
         Point(NumAt(row, index, 6), NumAt(row, index, 7), NumAt(row, index, 8)),
         RawAt(row, index, 9), RawAt(row, index, 10), RawAt(row, index, 11), RawAt(row, index, 12), RawAt(row, index, 13),
         TextAt(row, index, 14))
  }

  /** The link of a row is the row's values, read column by column, put into a record. */
  lemma RowLinkReadsRow(row: Row, index: nat)
    ensures RowLink(row, index) == ToLink(ReadRow(row, index))
  {
    var vs := ReadRow(row, index);
    forall c | 0 <= c < ColumnCount
      ensures Kind(c) == TextColumn ==> vs[c] == Text(TextAt(row, index, c))
      ensures Kind(c) == FloatColumn ==> vs[c] == Num(NumAt(row, index, c))
      ensures Kind(c) == RawColumn ==> vs[c] == Raw(RawAt(row, index, c))
    {
      ReadRowColumns(row, index, c);
    }
  }

  /** The links the corrected program makes: row k read on its own, at index k. */
  function IntendedLinks(rows: seq<Row>): (r: seq<Link>)
    ensures |r| == |rows|
  {
    if |rows| == 0 then [] else IntendedLinks(rows[..|rows| - 1]) + [RowLink(rows[|rows| - 1], |rows| - 1)]
  }

  /** In the corrected program link k is read from row k alone, at index k. */
  lemma {:induction false} IntendedLinksAt(rows: seq<Row>, k: nat)
    requires k < |rows|
    ensures IntendedLinks(rows)[k] == RowLink(rows[k], k) == ToLink(ReadRow(rows[k], k))
  {
    RowLinkReadsRow(rows[k], k);
    if k < |rows| - 1 {
      IntendedLinksAt(rows[..|rows| - 1], k);
    }
  }

  /**
   * The values the row loop reads from row k, as written: row k read at
   * index k over what the reading of row k - 1 left in the column
   * variables.
   */
  function ReadingAt(rows: seq<Row>, k: nat): (vs: seq<Value>)
    requires k < |rows|
    ensures WellKinded(vs)
    decreases k, 1
  {
    ReadRowAsWritten(rows[k], k, Carried(rows, k))
  }

  /** What the column variables hold when row k is read: nothing before the first row, then the previous row's values. */
  function Carried(rows: seq<Row>, k: nat): (o: Option<seq<Value>>)
    requires k <= |rows|
    ensures o.Some? ==> WellKinded(o.value)
    decreases k, 0
  {
    if k == 0 then None else Some(ReadingAt(rows, k - 1))
  }

  /** The links the row loop makes: each row's reading put into a record. */
  function LinksOf(rows: seq<Row>): (r: seq<Link>)
    ensures |r| == |rows|
  {
    seq(|rows|, k requires 0 <= k < |rows| => ToLink(ReadingAt(rows, k)))
  }

  /**
   * Link k is row k read as written: the first row over nothing, every
   * later one over the reading of the row before it.
   */
  lemma LinksOfAt(rows: seq<Row>, k: nat)
    requires k < |rows|
    ensures LinksOf(rows)[k] == ToLink(ReadRowAsWritten(rows[k], k, if k == 0 then None else Some(ReadingAt(rows, k - 1))))
  {
    assert LinksOf(rows)[k] == ToLink(ReadingAt(rows, k));
    assert Carried(rows, k) == if k == 0 then None else Some(ReadingAt(rows, k - 1));
  }

  /** When every cell of every row converts, the row loop makes the links of the corrected program. */
  lemma LinksAgreeWithoutFailure(rows: seq<Row>)
    requires forall k, c :: 0 <= k < |rows| && 0 <= c < ColumnCount ==> ReadColumn(rows[k], k, c).Some?
    ensures LinksOf(rows) == IntendedLinks(rows)
  {
    forall k | 0 <= k < |rows|
      ensures LinksOf(rows)[k] == IntendedLinks(rows)[k]
    {
      LinksOfAt(rows, k);
      AsWrittenAgreesWithoutFailure(rows[k], k, Carried(rows, k));
      IntendedLinksAt(rows, k);
    }
  }

  /**
   * The carry-over in the links: a second row whose Xorigine does not
   * convert is filed under the first row's section, where the corrected
   * program files it under its own.
   */
  lemma LinksCarryOver()
    ensures var rows := [Row(map["Section" := Cell("A", None)]),
                         Row(map["Xorigine" := Cell("abc", None), "Section" := Cell("B", None)])];
      LinksOf(rows)[1].section == "A" && IntendedLinks(rows)[1].section == "B"
  {
    var first := Row(map["Section" := Cell("A", None)]);
    var second := Row(map["Xorigine" := Cell("abc", None), "Section" := Cell("B", None)]);
    var rows := [first, second];
    AsWrittenCarriesOver();
    LinksOfAt(rows, 1);
    assert ReadingAt(rows, 0) == ReadRowAsWritten(first, 0, None);
    IntendedLinksAt(rows, 1);
  }

  // ---------------------------------------------------------------------
  // The store
  // ---------------------------------------------------------------------

  function MapGet(m: map<string, seq<int>>, k: string): seq<int>
  {
    if k in m then m[k] else []
  }

  /**
   * What the row loop accumulates: `segments`, `unique_nodes`, `link_data`,
   * `node_to_links` and the local `section_indices`, whose keys are also
   * the keys of `section_groups`, in the same order.
   */
  datatype Store = Store(
    segments: seq<(Point, Point)>,
    uniqueNodes: Dict<string, Point>,
    linkData: map<int, Link>,
    nodeToLinks: map<string, seq<int>>,
    sections: Dict<string, seq<int>>,
    infos: map<ShapeId, Info>)

  function EmptyStore(): Store
  {
    Store([], Empty(), map[], map[], Empty(), map[])
  }

  /** `if ref not in unique_nodes: unique_nodes[ref] = p` */
  function AddNode(u: Dict<string, Point>, ref: string, p: Point): (r: Dict<string, Point>)
    ensures forall x :: x in r.values <==> x in u.values || x == ref
    ensures forall x :: x in u.values ==> r.values[x] == u.values[x]
    ensures ref !in u.values ==> r.values[ref] == p && r.keys == u.keys + [ref]
    ensures ref in u.values ==> r == u
  {
    if ref in u.values then u else Put(u, ref, p)
  }

  /** `section_indices.setdefault(section, []).append(k)` */
  function AddToSection(s: Dict<string, seq<int>>, section: string, k: int): (r: Dict<string, seq<int>>)
    ensures forall x :: x in r.values <==> x in s.values || x == section
    ensures forall x :: x != section ==> Get(r, x, []) == Get(s, x, [])
    ensures Get(r, section, []) == Get(s, section, []) + [k]
  {
    Put(s, section, Get(s, section, []) + [k])
  }

  /** `node_to_links.setdefault(ref, []).append(k)` */
  function AppendLink(m: map<string, seq<int>>, ref: string, k: int): (r: map<string, seq<int>>)
  {
    m[ref := MapGet(m, ref) + [k]]
  }

  /** What one row adds; its link index is the number of segments before it. */
  function AddLink(st: Store, link: Link): Store
  {
    var k := |st.segments|;
    Store(st.segments + [(link.origin, link.end)],
          AddNode(AddNode(st.uniqueNodes, link.refOrigin, link.origin), link.refEnd, link.end),
          st.linkData[k := link],
          AppendLink(AppendLink(st.nodeToLinks, link.refOrigin, k), link.refEnd, k),
          AddToSection(st.sections, link.section, k),
          st.infos[IntId(k) := LinkRecord(link)])
  }

  /** `segments` after the first n links. */
  function Segments(links: seq<Link>, n: nat): (r: seq<(Point, Point)>)
    requires n <= |links|
    ensures |r| == n
  {
    if n == 0 then [] else Segments(links, n - 1) + [(links[n - 1].origin, links[n - 1].end)]
  }

  /** `link_data` after the first n links. */
  function LinkData(links: seq<Link>, n: nat): map<int, Link>
    requires n <= |links|
  {
    if n == 0 then map[] else LinkData(links, n - 1)[n - 1 := links[n - 1]]
  }

  /** `unique_nodes` after the first n links. */
  function Nodes(links: seq<Link>, n: nat): (r: Dict<string, Point>)
    requires n <= |links|
    ensures forall ref :: ref in r.keys ==> ref in r.values
  {
    if n == 0 then Empty()
    else AddNode(AddNode(Nodes(links, n - 1), links[n - 1].refOrigin, links[n - 1].origin), links[n - 1].refEnd, links[n - 1].end)
  }

  /** `node_to_links` after the first n links. */
  function NodeLinks(links: seq<Link>, n: nat): map<string, seq<int>>
    requires n <= |links|
  {
    if n == 0 then map[]
    else AppendLink(AppendLink(NodeLinks(links, n - 1), links[n - 1].refOrigin, n - 1), links[n - 1].refEnd, n - 1)
  }

  /** `section_indices` after the first n links. */
  function Sections(links: seq<Link>, n: nat): (r: Dict<string, seq<int>>)
    requires n <= |links|
    ensures forall s :: s in r.keys ==> s in r.values
  {
    if n == 0 then Empty() else AddToSection(Sections(links, n - 1), links[n - 1].section, n - 1)
  }

  /** The store after the first n links. */
  function Ingest(links: seq<Link>, n: nat): Store
    requires n <= |links|
  {
    Store(Segments(links, n), Nodes(links, n), LinkData(links, n), NodeLinks(links, n), Sections(links, n), LinkInfos(links, n))
  }

  /** Link k names ref as its origin or its end. */
  predicate Mentions(links: seq<Link>, k: nat, ref: string)
    requires k < |links|
  {
    ref == links[k].refOrigin || ref == links[k].refEnd
  }

  /** Link indices are 0..n-1 in row order; link k holds row k's values and segment k its two points. */
  lemma {:induction false} IngestLinks(links: seq<Link>, n: nat)
    requires n <= |links|
    ensures |Segments(links, n)| == n
    ensures forall k :: k in LinkData(links, n) <==> 0 <= k < n
    ensures forall k :: 0 <= k < n ==> LinkData(links, n)[k] == links[k]
    ensures forall k :: 0 <= k < n ==> Segments(links, n)[k] == (links[k].origin, links[k].end)
  {
    if n > 0 {
      IngestLinks(links, n - 1);
    }
  }

  /** Each row adds exactly what AddLink says, under the next link index. */
  lemma IngestStep(links: seq<Link>, n: nat)
    requires n < |links|
    ensures Ingest(links, n + 1) == AddLink(Ingest(links, n), links[n])
  {
    IngestLinks(links, n);
  }

  /** `unique_nodes` and the section dict keep distinct keys matching their maps. */
  lemma {:induction false} IngestValid(links: seq<Link>, n: nat)
    requires n <= |links|
    ensures Valid(Nodes(links, n)) && Valid(Sections(links, n))
  {
    if n > 0 {
      IngestValid(links, n - 1);
      var u := Nodes(links, n - 1);
      var link := links[n - 1];
      PutValid(u, link.refOrigin, link.origin);
      PutValid(AddNode(u, link.refOrigin, link.origin), link.refEnd, link.end);
      var secs := Sections(links, n - 1);
      PutValid(secs, link.section, Get(secs, link.section, []) + [n - 1]);
    }
  }

  /** The unique nodes are exactly the refs the links mention. */
  lemma {:induction false} IngestNodeKeys(links: seq<Link>, n: nat)
    requires n <= |links|
    ensures forall ref :: ref in Nodes(links, n).values <==> exists k :: 0 <= k < n && Mentions(links, k, ref)
  {
    if n > 0 {
      IngestNodeKeys(links, n - 1);
      forall ref
        ensures ref in Nodes(links, n).values <==> exists k :: 0 <= k < n && Mentions(links, k, ref)
      {
        if ref in Nodes(links, n - 1).values {
          var k :| 0 <= k < n - 1 && Mentions(links, k, ref);
          assert 0 <= k < n && Mentions(links, k, ref);
        } else if ref == links[n - 1].refOrigin || ref == links[n - 1].refEnd {
          assert Mentions(links, n - 1, ref);
        }
        if exists k :: 0 <= k < n && Mentions(links, k, ref) {
          var k :| 0 <= k < n && Mentions(links, k, ref);
          if k < n - 1 {
            assert exists k :: 0 <= k < n - 1 && Mentions(links, k, ref);
          }
        }
      }
    }
  }

  /**
   * A ref keeps the coordinates it was first stored with, and its place:
   * later links only append new refs and never change a stored one.
   */
  lemma {:induction false} IngestNodesStable(links: seq<Link>, m: nat, n: nat)
    requires m <= n <= |links|
    ensures Grows(Nodes(links, m), Nodes(links, n))
    decreases n - m
  {
    if m < n {
      IngestNodesStable(links, m, n - 1);
      var link := links[n - 1];
      var mid := Nodes(links, n - 1);
      var a := AddNode(mid, link.refOrigin, link.origin);
      AddNodeGrows(mid, link.refOrigin, link.origin);
      assert Nodes(links, n) == AddNode(a, link.refEnd, link.end);
      AddNodeGrows(a, link.refEnd, link.end);
      GrowsTrans(mid, a, Nodes(links, n));
      GrowsTrans(Nodes(links, m), mid, Nodes(links, n));
    }
  }

  /** Adding a ref never reorders or changes the stored ones. */
  lemma AddNodeGrows(u: Dict<string, Point>, ref: string, p: Point)
    ensures Grows(u, AddNode(u, ref, p))
  {
    if ref !in u.values {
      PutGrows(u, ref, p);
    } else {
      assert u.keys[..|u.keys|] == u.keys;
    }
  }

  /** A ref first seen as link k's origin (or, failing that, as its end) is stored with that link's point. */
  lemma FirstSightPoint(links: seq<Link>, k: nat)
    requires k < |links|
    ensures links[k].refOrigin !in Nodes(links, k).values ==> Nodes(links, k + 1).values[links[k].refOrigin] == links[k].origin
    ensures links[k].refEnd !in Nodes(links, k).values && links[k].refEnd != links[k].refOrigin ==>
      Nodes(links, k + 1).values[links[k].refEnd] == links[k].end
    ensures links[k].refOrigin in Nodes(links, k).values ==>
      Nodes(links, k + 1).values[links[k].refOrigin] == Nodes(links, k).values[links[k].refOrigin]
  {
  }

  /** The refs mentioned by the first n links. */
  function RefSet(links: seq<Link>, n: nat): set<string>
    requires n <= |links|
  {
    if n == 0 then {} else RefSet(links, n - 1) + {links[n - 1].refOrigin, links[n - 1].refEnd}
  }

  lemma {:induction false} RefSetMentions(links: seq<Link>, n: nat)
    requires n <= |links|
    ensures forall ref :: ref in RefSet(links, n) <==> exists k :: 0 <= k < n && Mentions(links, k, ref)
  {
    if n > 0 {
      RefSetMentions(links, n - 1);
      forall ref
        ensures ref in RefSet(links, n) <==> exists k :: 0 <= k < n && Mentions(links, k, ref)
      {
        if ref in RefSet(links, n - 1) {
          var k :| 0 <= k < n - 1 && Mentions(links, k, ref);
          assert 0 <= k < n && Mentions(links, k, ref);
        } else if ref == links[n - 1].refOrigin || ref == links[n - 1].refEnd {
          assert Mentions(links, n - 1, ref);
        }
        if exists k :: 0 <= k < n && Mentions(links, k, ref) {
          var k :| 0 <= k < n && Mentions(links, k, ref);
          if k < n - 1 {
            assert exists k :: 0 <= k < n - 1 && Mentions(links, k, ref);
          }
        }
      }
    }
  }

  lemma {:induction false} DistinctCard<T>(s: seq<T>)
    requires forall i, j :: 0 <= i < j < |s| ==> s[i] != s[j]
    ensures |set x | x in s| == |s|
  {
    if |s| > 0 {
      var t := s[..|s| - 1];
      DistinctCard(t);
      assert (set x | x in s) == (set x | x in t) + {s[|s| - 1]};
      assert s[|s| - 1] !in (set x | x in t);
    }
  }

  /** The node count is the number of distinct refs the links mention. */
  lemma NodeCount(links: seq<Link>, n: nat)
    requires n <= |links|
    ensures |Nodes(links, n).keys| == |RefSet(links, n)|
  {
    var u := Nodes(links, n);
    IngestValid(links, n);
    IngestNodeKeys(links, n);
    RefSetMentions(links, n);
    DistinctCard(u.keys);
    assert (set x | x in u.keys) == RefSet(links, n);
  }

  /** How many of a link's two ends are ref. */
  function Ends(link: Link, ref: string): nat
  {
    (if link.refOrigin == ref then 1 else 0) + (if link.refEnd == ref then 1 else 0)
  }

  predicate NonDecreasing(s: seq<int>)
  {
    forall i, j :: 0 <= i < j < |s| ==> s[i] <= s[j]
  }

  predicate Increasing(s: seq<int>)
  {
    forall i, j :: 0 <= i < j < |s| ==> s[i] < s[j]
  }

  /** Every element of s lies in [0, n). */
  predicate Below(s: seq<int>, n: int)
  {
    forall i :: 0 <= i < |s| ==> 0 <= s[i] < n
  }

  /** Appending the newest link index, when c holds, keeps a list ordered and counts it once more. */
  lemma PushIndex(s: seq<int>, k: int, c: bool)
    requires NonDecreasing(s) && Below(s, k + 1) && 0 <= k
    ensures var t := s + (if c then [k] else []);
      && NonDecreasing(t) && Below(t, k + 1)
      && multiset(t)[k] == multiset(s)[k] + (if c then 1 else 0)
      && forall j :: j != k ==> multiset(t)[j] == multiset(s)[j]
  {
    if c {
      assert multiset(s + [k]) == multiset(s) + multiset{k};
    } else {
      assert s + [] == s;
    }
  }

  /** Each of the first n link indices occurs in s once per end of its link that is ref. */
  predicate CountsEnds(links: seq<Link>, n: nat, ref: string, s: seq<int>)
    requires n <= |links|
  {
    forall k :: 0 <= k < n ==> multiset(s)[k] == Ends(links[k], ref)
  }

  /** What link n-1 appends to ref's list: its index once per end that is ref. */
  lemma NodeLinksStep(links: seq<Link>, n: nat, ref: string)
    requires 0 < n <= |links|
    ensures MapGet(NodeLinks(links, n), ref) ==
      MapGet(NodeLinks(links, n - 1), ref) + (if links[n - 1].refOrigin == ref then [n - 1] else [])
        + (if links[n - 1].refEnd == ref then [n - 1] else [])
  {
    var m := NodeLinks(links, n - 1);
    var m1 := AppendLink(m, links[n - 1].refOrigin, n - 1);
    assert MapGet(m1, ref) == MapGet(m, ref) + (if links[n - 1].refOrigin == ref then [n - 1] else []);
  }

  /**
   * `node_to_links[ref]` holds link k once for each of its ends that is
   * ref (twice for a link from a node to itself), in order.
   */
  lemma {:induction false} IngestNodeLinks(links: seq<Link>, n: nat, ref: string)
    requires n <= |links|
    ensures NonDecreasing(MapGet(NodeLinks(links, n), ref))
    ensures Below(MapGet(NodeLinks(links, n), ref), n)
    ensures CountsEnds(links, n, ref, MapGet(NodeLinks(links, n), ref))
  {
    if n > 0 {
      IngestNodeLinks(links, n - 1, ref);
      NodeLinksStep(links, n, ref);
      EndsStep(links, n, ref, MapGet(NodeLinks(links, n - 1), ref), MapGet(NodeLinks(links, n), ref));
    }
  }

  /** Link n-1's index, appended once per end that is ref, keeps the list of the first n-1 links right for n. */
  lemma EndsStep(links: seq<Link>, n: nat, ref: string, before: seq<int>, after: seq<int>)
    requires 0 < n <= |links|
    requires NonDecreasing(before) && Below(before, n - 1) && CountsEnds(links, n - 1, ref, before)
    requires after == before + (if links[n - 1].refOrigin == ref then [n - 1] else [])
      + (if links[n - 1].refEnd == ref then [n - 1] else [])
    ensures NonDecreasing(after) && Below(after, n) && CountsEnds(links, n, ref, after)
  {
    var k := n - 1;
    assert k !in before;
    assert Below(before, k + 1);
    PushIndex(before, k, links[k].refOrigin == ref);
    var mid := before + (if links[k].refOrigin == ref then [k] else []);
    PushIndex(mid, k, links[k].refEnd == ref);
    forall j | 0 <= j < n
      ensures multiset(after)[j] == Ends(links[j], ref)
    {
      if j < k {
        assert multiset(before)[j] == Ends(links[j], ref);
      }
    }
  }

  /** The sections are exactly those the first n links name. */
  lemma {:induction false} IngestSectionKeys(links: seq<Link>, n: nat)
    requires n <= |links|
    ensures forall s :: s in Sections(links, n).values <==> exists k :: 0 <= k < n && links[k].section == s
  {
    if n > 0 {
      IngestSectionKeys(links, n - 1);
      forall s
        ensures s in Sections(links, n).values <==> exists k :: 0 <= k < n && links[k].section == s
      {
        if s in Sections(links, n - 1).values {
          var k :| 0 <= k < n - 1 && links[k].section == s;
          assert 0 <= k < n && links[k].section == s;
        }
        if exists k :: 0 <= k < n && links[k].section == s {
          var k :| 0 <= k < n && links[k].section == s;
          if k < n - 1 {
            assert exists k :: 0 <= k < n - 1 && links[k].section == s;
          }
        }
      }
    }
  }

  /**
   * Each link index is in exactly one section list, that of its own
   * section, and each list is increasing.
   */
  lemma {:induction false} IngestSectionLists(links: seq<Link>, n: nat, s: string)
    requires n <= |links|
    ensures Increasing(Get(Sections(links, n), s, []))
    ensures Below(Get(Sections(links, n), s, []), n)
    ensures forall k :: 0 <= k < n ==> (k in Get(Sections(links, n), s, []) <==> links[k].section == s)
  {
    if n > 0 {
      IngestSectionLists(links, n - 1, s);
      var before := Get(Sections(links, n - 1), s, []);
      assert Get(Sections(links, n), s, []) == if links[n - 1].section == s then before + [n - 1] else before;
      assert (n - 1) !in before;
    }
  }

  // ---------------------------------------------------------------------
  // The tree and the node records built after the row loop
  // ---------------------------------------------------------------------

  /** `f"node_{i}"` */
  function NodeId(i: nat): string
  {
    NodePrefix + Show(i)
  }

  lemma NodeIdInjective(i: nat, j: nat)
    requires NodeId(i) == NodeId(j)
    ensures i == j
  {
    assert NodeId(i)[|NodePrefix|..] == Show(i);
    assert NodeId(j)[|NodePrefix|..] == Show(j);
    ShowInjective(i, j);
  }

  lemma NodeIdIsNodeId(i: nat)
    ensures IsNodeId(StrId(NodeId(i)))
  {
    assert NodeId(i)[..|NodePrefix|] == NodePrefix;
  }

  /** The ids node_0, ..., node_{n-1}. */
  function NodeIds(n: nat): (r: seq<ShapeId>)
    ensures |r| == n && forall i :: 0 <= i < n ==> r[i] == StrId(NodeId(i))
  {
    if n == 0 then [] else NodeIds(n - 1) + [StrId(NodeId(n - 1))]
  }

  /** A new node id is not among the earlier ones. */
  lemma NodeIdFresh(n: nat)
    ensures StrId(NodeId(n)) !in NodeIds(n)
  {
    forall j | 0 <= j < n
      ensures NodeId(j) != NodeId(n)
    {
      if NodeId(j) == NodeId(n) {
        NodeIdInjective(j, n);
      }
    }
  }

  function IntIds(ks: seq<int>): (r: seq<ShapeId>)
    ensures |r| == |ks| && forall i :: 0 <= i < |ks| ==> r[i] == IntId(ks[i])
  {
    if |ks| == 0 then [] else IntIds(ks[..|ks| - 1]) + [IntId(ks[|ks| - 1])]
  }

  /** A `shape_to_info` entry. */
  datatype Info =
    | LinkRecord(link: Link)
    | NodeRecord(ref: string, coordinates: Point, connectedLinks: seq<int>)
    | ImportedRecord(typeName: string)

  /** A link's item: its index as data, over Origin (4 lines), Extremite (4) and Other Info (6). */
  function LinkItem(k: int): Item
  {
    Item(One(IntId(k)), [Group(4), Group(4), Group(6)])
  }

  /** A node's item: its id as data, over its X, Y and Z lines. */
  function NodeItem(i: nat): Item
  {
    Item(One(StrId(NodeId(i))), [Leaf(), Leaf(), Leaf()])
  }

  /** A "Network Geometry" group: its link indices as data, over its links' items. */
  function SectionItem(ks: seq<int>): (r: Item)
    ensures r.data == Many(IntIds(ks)) && |r.children| == |ks|
    ensures forall i :: 0 <= i < |ks| ==> r.children[i] == LinkItem(ks[i])
  {
    Item(Many(IntIds(ks)), LinkItems(ks))
  }

  /** One link item per index, in order. */
  function LinkItems(ks: seq<int>): (r: seq<Item>)
    ensures |r| == |ks| && forall i :: 0 <= i < |ks| ==> r[i] == LinkItem(ks[i])
  {
    if |ks| == 0 then [] else LinkItems(ks[..|ks| - 1]) + [LinkItem(ks[|ks| - 1])]
  }

  /** "Network Nodes": the node ids as data, over the node items. */
  function NodesRoot(count: nat): (r: Item)
    ensures r.data == Many(NodeIds(count)) && |r.children| == count
    ensures forall i :: 0 <= i < count ==> r.children[i] == NodeItem(i)
  {
    Item(Many(NodeIds(count)), NodeItems(count))
  }

  /** The items of the first `count` nodes, in order. */
  function NodeItems(count: nat): (r: seq<Item>)
    ensures |r| == count && forall i :: 0 <= i < count ==> r[i] == NodeItem(i)
  {
    if count == 0 then [] else NodeItems(count - 1) + [NodeItem(count - 1)]
  }

  /**
   * "NETWORK AIRPLANE": as data all section lists in creation order then
   * the node ids; as children "Network Nodes" and then one group per
   * section in creation order.
   */
  function MainRoot(st: Store): Item
    requires forall s :: s in st.sections.keys ==> s in st.sections.values
  {
    var lists := Values(st.sections);
    var count := |st.uniqueNodes.keys|;
    Item(Many(IntIds(Concat(lists)) + NodeIds(count)), [NodesRoot(count)] + SectionItems(lists))
  }

  /** The root's first child is "Network Nodes"; child i + 1 is the group of the i-th section created. */
  lemma MainRootChildren(st: Store)
    requires forall s :: s in st.sections.keys ==> s in st.sections.values
    ensures |MainRoot(st).children| == 1 + |st.sections.keys|
    ensures MainRoot(st).children[0] == NodesRoot(|st.uniqueNodes.keys|)
    ensures forall i :: 0 <= i < |st.sections.keys| ==>
      MainRoot(st).children[i + 1] == SectionItem(st.sections.values[st.sections.keys[i]])
  {
    var lists := Values(st.sections);
    var items := SectionItems(lists);
    var children := [NodesRoot(|st.uniqueNodes.keys|)] + items;
    assert MainRoot(st).children == children;
    forall i | 0 <= i < |st.sections.keys|
      ensures children[i + 1] == SectionItem(st.sections.values[st.sections.keys[i]])
    {
      assert children[i + 1] == items[i];
      assert lists[i] == st.sections.values[st.sections.keys[i]];
    }
  }

  /** One "Network Geometry" group per list, in order. */
  function SectionItems(lists: seq<seq<int>>): (r: seq<Item>)
    ensures |r| == |lists| && forall i :: 0 <= i < |lists| ==> r[i] == SectionItem(lists[i])
  {
    if |lists| == 0 then [] else SectionItems(lists[..|lists| - 1]) + [SectionItem(lists[|lists| - 1])]
  }

  /** `shape_to_info` after the row loop: each link's record under its index. */
  function LinkInfos(links: seq<Link>, n: nat): map<ShapeId, Info>
    requires n <= |links|
  {
    if n == 0 then map[] else LinkInfos(links, n - 1)[IntId(n - 1) := LinkRecord(links[n - 1])]
  }

  /** The link records are keyed by exactly the link indices 0..n-1. */
  lemma {:induction false} LinkInfosSpec(links: seq<Link>, n: nat)
    requires n <= |links|
    ensures forall id :: id in LinkInfos(links, n) <==> id.IntId? && 0 <= id.i < n
    ensures forall k :: 0 <= k < n ==> LinkInfos(links, n)[IntId(k)] == LinkRecord(links[k])
  {
    if n > 0 {
      LinkInfosSpec(links, n - 1);
    }
  }

  /** `node_id_map` after the node loop has seen the first i refs. */
  function NodeIdMap(refs: seq<string>, i: nat): map<string, string>
    requires i <= |refs|
  {
    if i == 0 then map[] else NodeIdMap(refs, i - 1)[refs[i - 1] := NodeId(i - 1)]
  }

  /** With distinct refs, the j-th ref maps to node_j, and only the refs seen are mapped. */
  lemma {:induction false} NodeIdMapSpec(u: Dict<string, Point>, i: nat)
    requires Valid(u) && i <= |u.keys|
    ensures forall r :: r in NodeIdMap(u.keys, i) <==> r in u.keys[..i]
    ensures forall j :: 0 <= j < i ==> NodeIdMap(u.keys, i)[u.keys[j]] == NodeId(j)
  {
    if i > 0 {
      NodeIdMapSpec(u, i - 1);
      assert forall r :: r in u.keys[..i] <==> r in u.keys[..i - 1] || r == u.keys[i - 1];
    }
  }

  /** Every id the node loop stores is a node id. */
  lemma {:induction false} NodeIdMapValues(refs: seq<string>, i: nat)
    requires i <= |refs|
    ensures forall r :: r in NodeIdMap(refs, i) ==> exists j :: 0 <= j < i && NodeIdMap(refs, i)[r] == NodeId(j)
  {
    if i > 0 {
      NodeIdMapValues(refs, i - 1);
    }
  }

  /** The record the node loop stores for a node. */
  function NodeInfo(u: Dict<string, Point>, nodeToLinks: map<string, seq<int>>, ref: string): Info
    requires ref in u.values
  {
    NodeRecord(ref, u.values[ref], MapGet(nodeToLinks, ref))
  }

  /** `shape_to_info` after the node loop has seen the first i refs. */
  function WithNodeInfos(base: map<ShapeId, Info>, u: Dict<string, Point>, nodeToLinks: map<string, seq<int>>, i: nat): map<ShapeId, Info>
    requires i <= |u.keys| && forall r :: r in u.keys ==> r in u.values
  {
    if i == 0 then base
    else WithNodeInfos(base, u, nodeToLinks, i - 1)[StrId(NodeId(i - 1)) := NodeInfo(u, nodeToLinks, u.keys[i - 1])]
  }

  /**
   * node_j holds the j-th ref's record (its ref, its coordinates and its
   * connected links); the node loop adds node ids only and changes no
   * other entry.
   */
  lemma WithNodeInfosSpec(base: map<ShapeId, Info>, u: Dict<string, Point>, nodeToLinks: map<string, seq<int>>, i: nat)
    requires i <= |u.keys| && forall r :: r in u.keys ==> r in u.values
    ensures forall id :: id in WithNodeInfos(base, u, nodeToLinks, i) <==> id in base || exists j :: 0 <= j < i && id == StrId(NodeId(j))
    ensures forall j :: 0 <= j < i ==>
      (StrId(NodeId(j)) in WithNodeInfos(base, u, nodeToLinks, i)
       && WithNodeInfos(base, u, nodeToLinks, i)[StrId(NodeId(j))] == NodeInfo(u, nodeToLinks, u.keys[j]))
    ensures forall id :: id in base && !IsNodeId(id) ==> WithNodeInfos(base, u, nodeToLinks, i)[id] == base[id]
  {
    WithNodeInfosKeys(base, u, nodeToLinks, i);
    forall j | 0 <= j < i
      ensures StrId(NodeId(j)) in WithNodeInfos(base, u, nodeToLinks, i)
      ensures WithNodeInfos(base, u, nodeToLinks, i)[StrId(NodeId(j))] == NodeInfo(u, nodeToLinks, u.keys[j])
    {
      WithNodeInfoAt(base, u, nodeToLinks, i, j);
    }
    forall id | id in base && !IsNodeId(id)
      ensures WithNodeInfos(base, u, nodeToLinks, i)[id] == base[id]
    {
      WithNodeInfosKeep(base, u, nodeToLinks, i, id);
    }
  }

  /** The node loop adds exactly the ids node_0, ..., node_{i-1} to the keys of `base`. */
  lemma {:induction false} WithNodeInfosKeys(base: map<ShapeId, Info>, u: Dict<string, Point>, nodeToLinks: map<string, seq<int>>, i: nat)
    requires i <= |u.keys| && forall r :: r in u.keys ==> r in u.values
    ensures forall id :: id in WithNodeInfos(base, u, nodeToLinks, i) <==> id in base || exists j :: 0 <= j < i && id == StrId(NodeId(j))
  {
    if i > 0 {
      WithNodeInfosKeys(base, u, nodeToLinks, i - 1);
    }
  }

  /** node_j keeps the j-th ref's record once later refs are stored. */
  lemma {:induction false} WithNodeInfoAt(base: map<ShapeId, Info>, u: Dict<string, Point>, nodeToLinks: map<string, seq<int>>, i: nat, j: nat)
    requires i <= |u.keys| && forall r :: r in u.keys ==> r in u.values
    requires j < i
    ensures StrId(NodeId(j)) in WithNodeInfos(base, u, nodeToLinks, i)
    ensures WithNodeInfos(base, u, nodeToLinks, i)[StrId(NodeId(j))] == NodeInfo(u, nodeToLinks, u.keys[j])
  {
    if j < i - 1 {
      WithNodeInfoAt(base, u, nodeToLinks, i - 1, j);
      if NodeId(j) == NodeId(i - 1) {
        NodeIdInjective(j, i - 1);
      }
    }
  }

  /** An entry of `base` under an id that is not a node id survives the node loop. */
  lemma {:induction false} WithNodeInfosKeep(base: map<ShapeId, Info>, u: Dict<string, Point>, nodeToLinks: map<string, seq<int>>, i: nat, id: ShapeId)
    requires i <= |u.keys| && forall r :: r in u.keys ==> r in u.values
    requires id in base && !IsNodeId(id)
    ensures id in WithNodeInfos(base, u, nodeToLinks, i) && WithNodeInfos(base, u, nodeToLinks, i)[id] == base[id]
  {
    if i > 0 {
      WithNodeInfosKeep(base, u, nodeToLinks, i - 1, id);
      NodeIdIsNodeId(i - 1);
    }
  }


  /**
   * The root item's list holds every link index and every node id, so the
   * breadth-first search, which visits the root first, stops at the root
   * for any of them.
   */
  lemma RootListsEveryId(links: seq<Link>, n: nat)
    requires n <= |links|
    ensures var st := Ingest(links, n);
      var ids := MainRoot(st).data.ids;
      && (forall k :: 0 <= k < n ==> IntId(k) in ids)
      && (forall j :: 0 <= j < |st.uniqueNodes.keys| ==> StrId(NodeId(j)) in ids)
  {
    var st := Ingest(links, n);
    IngestValid(links, n);
    var lists := Values(st.sections);
    forall k | 0 <= k < n
      ensures IntId(k) in MainRoot(st).data.ids
    {
      var s := links[k].section;
      IngestSectionKeys(links, n);
      IngestSectionLists(links, n, s);
      assert s in st.sections.keys;
      var p :| 0 <= p < |st.sections.keys| && st.sections.keys[p] == s;
      assert k in lists[p];
      ConcatMember(lists, k);
      var c := Concat(lists);
      var q :| 0 <= q < |c| && c[q] == k;
      assert IntIds(c)[q] == IntId(k);
    }
    forall j | 0 <= j < |st.uniqueNodes.keys|
      ensures StrId(NodeId(j)) in MainRoot(st).data.ids
    {
      assert NodeIds(|st.uniqueNodes.keys|)[j] == StrId(NodeId(j));
    }
  }
}
