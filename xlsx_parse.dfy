/**
 * The row loop of `parse_df_and_populate_tree` in the spreadsheet viewer
 * (visualize_xlsx.py), on the stores it has just reset.
 */
module XlsxParse {
  import opened Basics
  import opened Dicts
  import opened Shapes
  import opened XlsxRecords
  import opened XlsxDraw

  /**
   * The row loop of the parse, polling the dialog before each row: row k
   * is read at index k, over the values the previous row left in the
   * column variables, and added to the stores (`segments`,
   * `unique_nodes`, `link_data`, `node_to_links`, the section groups and
   * `shape_to_info`) until the dialog reports cancelled.
   */
  method ReadLinks(rows: seq<Row>, cancelAt: Option<nat>) returns (st: Store, ghost n: nat)
    ensures n == Passes(|rows|, cancelAt)
    ensures st == Ingest(LinksOf(rows), n)
  {
    st := EmptyStore();
    var previous: Option<seq<Value>> := None;
    RowsReadZero(rows);
    var index := 0;
    while index < |rows| && !Cancelled(cancelAt, index)
      invariant RowsRead(rows, index, st, previous)
      invariant cancelAt.Some? ==> index <= cancelAt.value
    {
      var reading;
      st, reading := ReadOne(rows, index, st, previous);
      previous := Some(reading);
      index := index + 1;
    }
    PassesExit(|rows|, cancelAt, index);
    n := index;
  }

  /** The loop state after `index` rows: the stores hold their links, and the column variables the last reading. */
  ghost predicate RowsRead(rows: seq<Row>, index: nat, st: Store, previous: Option<seq<Value>>)
  {
    index <= |rows| && previous == Carried(rows, index) && st == Ingest(LinksOf(rows), index)
  }

  /** Before any row is read the stores are empty. */
  lemma IngestZero(links: seq<Link>)
    ensures Ingest(links, 0) == EmptyStore()
  {
  }

  /** Before the first row the stores are empty and the column variables unset. */
  lemma RowsReadZero(rows: seq<Row>)
    ensures RowsRead(rows, 0, EmptyStore(), None)
  {
    IngestZero(LinksOf(rows));
  }

  /**
   * One pass of the row loop: row `index` is read over the values the
   * rows before it left, and its link is added; the reading is what the
   * column variables hold for the next row.
   */
  method ReadOne(rows: seq<Row>, index: nat, st: Store, previous: Option<seq<Value>>) returns (st': Store, reading: seq<Value>)
    requires index < |rows| && RowsRead(rows, index, st, previous)
    ensures RowsRead(rows, index + 1, st', Some(reading))
  {
    reading := ReadRowAsWritten(rows[index], index, previous);
    LinksOfAt(rows, index);
    IngestStep(LinksOf(rows), index);
    st' := AddLink(st, ToLink(reading));
  }

  /**
   * The window's record store: `segments`, `unique_nodes`, `node_id_map`,
   * `link_data`, `node_to_links` and `shape_to_info`.
   */
  datatype Records = Records(
    segments: seq<(Point, Point)>,
    uniqueNodes: Dict<string, Point>,
    nodeIdMap: map<string, string>,
    linkData: map<int, Link>,
    nodeToLinks: map<string, seq<int>>,
    shapeToInfo: map<ShapeId, Info>)

  function NoRecords(): Records
  {
    Records([], Empty(), map[], map[], map[], map[])
  }

  /** The unique nodes keep distinct keys, and ref j has the id node_j. */
  ghost predicate RecordsValid(r: Records)
  {
    Valid(r.uniqueNodes) && IdsByPosition(r.uniqueNodes.keys, r.nodeIdMap)
  }

  /** What the row loop keeps of the rows it reads before the dialog reports cancelled. */
  function Parsed(rows: seq<Row>, cancelAt: Option<nat>): Store
  {
    Ingest(LinksOf(rows), Passes(|rows|, cancelAt))
  }

  /**
   * The record store `parse_df_and_populate_tree` leaves: the row loop's,
   * with node i under the id node_i in `node_id_map` and its record in
   * `shape_to_info`.
   */
  function ParsedRecords(rows: seq<Row>, cancelAt: Option<nat>): Records
  {
    var st := Parsed(rows, cancelAt);
    var count := |st.uniqueNodes.keys|;
    Records(st.segments, st.uniqueNodes, NodeIdMap(st.uniqueNodes.keys, count), st.linkData, st.nodeToLinks,
            WithNodeInfos(st.infos, st.uniqueNodes, st.nodeToLinks, count))
  }

  /** The record store of a parse is valid. */
  lemma ParsedRecordsValid(rows: seq<Row>, cancelAt: Option<nat>)
    ensures RecordsValid(ParsedRecords(rows, cancelAt))
  {
    var n := Passes(|rows|, cancelAt);
    IngestValid(LinksOf(rows), n);
    NodeIdMapSpec(Nodes(LinksOf(rows), n), |Nodes(LinksOf(rows), n).keys|);
  }

  /**
   * `parse_df_and_populate_tree` past its resets: the row loop, then the
   * node loop on the nodes it found, and the tree built from the records.
   */
  method Parse(rows: seq<Row>, cancelAt: Option<nat>) returns (r: Records, tree: seq<Item>)
    ensures r == ParsedRecords(rows, cancelAt)
    ensures tree == [MainRoot(Parsed(rows, cancelAt))]
    ensures RecordsValid(r)
  {
    ParsedRecordsValid(rows, cancelAt);
    var st, n := ReadLinks(rows, cancelAt);
    var ids, infos := RegisterNodes(st.uniqueNodes, st.nodeToLinks, st.infos);
    r := Records(st.segments, st.uniqueNodes, ids, st.linkData, st.nodeToLinks, infos);
    tree := [MainRoot(st)];
  }

  /**
   * The node loop of the parse: the i-th ref gets the id node_i in
   * `node_id_map`, and its record (ref, coordinates, connected links)
   * is stored under that id on top of `infos`.
   */
  method RegisterNodes(u: Dict<string, Point>, nodeToLinks: map<string, seq<int>>, infos: map<ShapeId, Info>)
    returns (nodeIdMap: map<string, string>, infos': map<ShapeId, Info>)
    requires forall r :: r in u.keys ==> r in u.values
    ensures nodeIdMap == NodeIdMap(u.keys, |u.keys|)
    ensures infos' == WithNodeInfos(infos, u, nodeToLinks, |u.keys|)
  {
    var refs := u.keys;
    nodeIdMap := map[];
    infos' := infos;
    var i := 0;
    while i < |refs|
      invariant i <= |refs|
      invariant nodeIdMap == NodeIdMap(refs, i)
      invariant infos' == WithNodeInfos(infos, u, nodeToLinks, i)
    {
      var ref := refs[i];
      var id := NodeId(i);
      nodeIdMap := nodeIdMap[ref := id];
      var connected := if ref in nodeToLinks then nodeToLinks[ref] else [];
      infos' := infos'[StrId(id) := NodeRecord(ref, u.values[ref], connected)];
      i := i + 1;
    }
  }
}
