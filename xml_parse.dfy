/**
 * The XML viewer's parse (visualize_xml.py, `parse_xml_and_populate_tree`):
 * the Net / SubNet / Segement / Network hierarchy of the document, the
 * segments the networks contribute, the tree items built for them and
 * the index lists each level stores.
 */
module XmlParse {
  import opened Basics
  import opened Shapes

  /** A `Network` element: its two end points when both `StartPoint` and `EndPoint` are present. */
  datatype Network = Network(ends: Option<(Point, Point)>)

  /** A `Segement` element (the document's own spelling) and its networks. */
  datatype Segment = Segment(networks: seq<Network>)

  /** A `SubNet` element: whether both `NetStartPoint` and `NetEndPoint` are present, and its segments. */
  datatype SubNet = SubNet(netPoints: bool, segments: seq<Segment>)

  /**
   * A `Net` element: the number of `Device` children of its `Devices`
   * element and of `IsoelePt` children of its `IsoelectricPoints`
   * element, each when that element is present, and its subnets.
   */
  datatype Net = Net(devices: Option<nat>, isoPoints: Option<nat>, subnets: seq<SubNet>)

  /**
   * What reading a run of elements of one level gives: their tree items,
   * the concatenation of their index lists, and the segments appended to
   * `segments` for them, in order.
   */
  datatype Read = Read(items: seq<Item>, ids: seq<ShapeId>, ends: seq<(Point, Point)>)

  /** The int ids lo, lo+1, ..., hi-1. */
  function IntIds(lo: nat, hi: nat): (r: seq<ShapeId>)
    ensures |r| == if lo <= hi then hi - lo else 0
    ensures forall k :: 0 <= k < |r| ==> r[k] == IntId(lo + k)
  {
    seq(if lo <= hi then hi - lo else 0, k => IntId(lo + k))
  }

  /** Adjacent runs of int ids join into one run. */
  lemma IntIdsSplit(lo: nat, mid: nat, hi: nat)
    requires lo <= mid <= hi
    ensures IntIds(lo, mid) + IntIds(mid, hi) == IntIds(lo, hi)
  {
    assert forall k :: 0 <= k < hi - lo ==> (IntIds(lo, mid) + IntIds(mid, hi))[k] == IntId(lo + k);
  }

  /**
   * Reading the elements of one level in order, after `base` segments:
   * the element read at offset `off` gives its tree items, its index
   * list and its segments, and the level's are their concatenations.
   */
  function Level<T>(xs: seq<T>, base: nat, read: (T, nat) -> Read): Read
  {
    if |xs| == 0 then Read([], [], [])
    else
      var r := Level(xs[..|xs| - 1], base, read);
      Join(r, read(xs[|xs| - 1], base + |r.ends|))
  }

  /** What is read first, then what is read after it. */
  function Join(r: Read, s: Read): Read
  {
    Read(r.items + s.items, r.ids + s.ids, r.ends + s.ends)
  }

  /** A network: its item carries its index when both end points are present. */
  function NetworkRead(n: Network, off: nat): Read
  {
    if n.ends.Some? then Read([Item(One(IntId(off)), [Leaf(), Leaf()])], [IntId(off)], [n.ends.value])
    else Read([Item(NoData, [])], [], [])
  }

  /** A segment: its item stores the list of its networks' indices. */
  function SegmentRead(seg: Segment, off: nat): Read
  {
    var s := Level(seg.networks, off, NetworkRead);
    Read([Item(Many(s.ids), s.items)], s.ids, s.ends)
  }

  /** The two items shown for a subnet's net points, each over the point's name. */
  function NetPointItems(present: bool): seq<Item>
  {
    if present then [Group(1), Group(1)] else []
  }

  /** A subnet: its item stores the concatenation of its segments' lists. */
  function SubNetRead(sn: SubNet, off: nat): Read
  {
    var s := Level(sn.segments, off, SegmentRead);
    Read([Item(Many(s.ids), NetPointItems(sn.netPoints) + s.items)], s.ids, s.ends)
  }

  /** The item of an optional group element over its `count` children. */
  function GroupItems(count: Option<nat>): seq<Item>
  {
    if count.Some? then [Group(count.value)] else []
  }

  /** A net: its item stores the concatenation of its subnets' lists. */
  function NetRead(net: Net, off: nat): Read
  {
    var s := Level(net.subnets, off, SubNetRead);
    Read([Item(Many(s.ids), GroupItems(net.devices) + GroupItems(net.isoPoints) + s.items)], s.ids, s.ends)
  }

  /** The document: the items of its nets and every segment, from index 0. */
  function DocumentRead(nets: seq<Net>): Read
  {
    Level(nets, 0, NetRead)
  }

  // ---------------------------------------------------------------------
  // What the lists hold
  // ---------------------------------------------------------------------

  /** The list read at offset `off` is the run of indices of the segments read there. */
  ghost predicate Run(r: Read, off: nat)
  {
    r.ids == IntIds(off, off + |r.ends|)
  }

  /** Reading the i-th element after the first i. */
  lemma LevelGrow<T>(xs: seq<T>, base: nat, read: (T, nat) -> Read, i: nat, r: Read, one: Read)
    requires i < |xs| && r == Level(xs[..i], base, read) && one == read(xs[i], base + |r.ends|)
    ensures Level(xs[..i + 1], base, read) == Join(r, one)
  {
    assert xs[..i + 1][..i] == xs[..i];
  }

  /** When every element's list is the run of its segments' indices, so is the level's. */
  lemma {:induction false} LevelRun<T>(xs: seq<T>, base: nat, read: (T, nat) -> Read)
    requires forall x, off :: Run(read(x, off), off)
    ensures Run(Level(xs, base, read), base)
  {
    if |xs| > 0 {
      var init := xs[..|xs| - 1];
      LevelRun(init, base, read);
      var r := Level(init, base, read);
      var s := read(xs[|xs| - 1], base + |r.ends|);
      assert Run(s, base + |r.ends|);
      IntIdsSplit(base, base + |r.ends|, base + |r.ends| + |s.ends|);
    }
  }

  /** Reading a prefix of the elements gives a prefix of the items and of the segments. */
  lemma {:induction false} LevelPrefix<T>(xs: seq<T>, base: nat, read: (T, nat) -> Read, k: nat)
    requires k <= |xs|
    ensures var p := Level(xs[..k], base, read);
      var r := Level(xs, base, read);
      |p.items| <= |r.items| && p.items == r.items[..|p.items|]
      && |p.ends| <= |r.ends| && p.ends == r.ends[..|p.ends|]
  {
    if k < |xs| {
      var init := xs[..|xs| - 1];
      LevelPrefix(init, base, read, k);
      assert init[..k] == xs[..k];
    } else {
      assert xs[..k] == xs;
    }
  }

  /** Every element reads as exactly one item. */
  ghost predicate OneItem<T(!new)>(read: (T, nat) -> Read)
  {
    forall x, off :: |read(x, off).items| == 1
  }

  /** Where the segments of element k start: after those of the elements before it. */
  function Offset<T>(xs: seq<T>, base: nat, read: (T, nat) -> Read, k: nat): nat
    requires k <= |xs|
  {
    base + |Level(xs[..k], base, read).ends|
  }

  /** With one item per element, item j is element j's, read where its segments start. */
  lemma LevelItemAt<T(!new)>(xs: seq<T>, base: nat, read: (T, nat) -> Read, j: nat)
    requires OneItem(read) && j < |xs|
    ensures |Level(xs, base, read).items| == |xs|
    ensures Level(xs, base, read).items[j] == read(xs[j], Offset(xs, base, read, j)).items[0]
  {
    var before := Level(xs[..j], base, read);
    LevelGrow(xs, base, read, j, before, read(xs[j], base + |before.ends|));
    LevelCount(xs, base, read);
    LevelCount(xs[..j], base, read);
    LevelPrefix(xs, base, read, j + 1);
  }

  /** The segments of element j sit in the level's from where the elements before it end. */
  lemma LevelEndsAt<T>(xs: seq<T>, base: nat, read: (T, nat) -> Read, j: nat)
    requires j < |xs|
    ensures var s := read(xs[j], Offset(xs, base, read, j));
      var r := Level(xs, base, read);
      && Offset(xs, base, read, j + 1) == Offset(xs, base, read, j) + |s.ends|
      && Offset(xs, base, read, j + 1) <= base + |r.ends|
      && r.ends[Offset(xs, base, read, j) - base..Offset(xs, base, read, j + 1) - base] == s.ends
  {
    var before := Level(xs[..j], base, read);
    var s := read(xs[j], base + |before.ends|);
    LevelGrow(xs, base, read, j, before, s);
    LevelPrefix(xs, base, read, j + 1);
    var ends := Level(xs, base, read).ends;
    var n := |before.ends|;
    assert ends[..n + |s.ends|] == before.ends + s.ends;
    assert ends[n..n + |s.ends|] == (before.ends + s.ends)[n..];
  }

  lemma {:induction false} LevelCount<T(!new)>(xs: seq<T>, base: nat, read: (T, nat) -> Read)
    requires OneItem(read)
    ensures |Level(xs, base, read).items| == |xs|
  {
    if |xs| > 0 {
      LevelCount(xs[..|xs| - 1], base, read);
      var r := Level(xs[..|xs| - 1], base, read);
      assert |read(xs[|xs| - 1], base + |r.ends|).items| == 1;
    }
  }

  /** The offsets of the elements never decrease. */
  lemma OffsetMonotone<T>(xs: seq<T>, base: nat, read: (T, nat) -> Read, j1: nat, j2: nat)
    requires j1 <= j2 <= |xs|
    ensures Offset(xs, base, read, j1) <= Offset(xs, base, read, j2)
  {
    LevelPrefix(xs[..j2], base, read, j1);
    assert xs[..j2][..j1] == xs[..j1];
  }

  /** At every level, an element's list is the run of indices of its own segments. */
  lemma ReadsAreRuns()
    ensures forall n, off :: Run(NetworkRead(n, off), off)
    ensures forall seg, off :: Run(SegmentRead(seg, off), off)
    ensures forall sn, off :: Run(SubNetRead(sn, off), off)
    ensures forall net, off :: Run(NetRead(net, off), off)
  {
    forall seg, off
      ensures Run(SegmentRead(seg, off), off)
    {
      LevelRun(seg.networks, off, NetworkRead);
    }
    forall sn, off
      ensures Run(SubNetRead(sn, off), off)
    {
      LevelRun(sn.segments, off, SegmentRead);
    }
    forall net, off
      ensures Run(NetRead(net, off), off)
    {
      LevelRun(net.subnets, off, SubNetRead);
    }
  }

  lemma NetsReadOne()
    ensures OneItem(NetRead) && OneItem(NetworkRead)
  {
  }

  /**
   * The list stored on net j is exactly the run of indices from where its
   * segments start to where the next net's start: consecutive and
   * strictly increasing.
   */
  lemma NetList(nets: seq<Net>, j: nat)
    requires j < |nets|
    ensures |DocumentRead(nets).items| == |nets|
    ensures DocumentRead(nets).items[j].data == Many(IntIds(Offset(nets, 0, NetRead, j), Offset(nets, 0, NetRead, j + 1)))
  {
    NetsReadOne();
    LevelItemAt(nets, 0, NetRead, j);
    LevelEndsAt(nets, 0, NetRead, j);
    ReadsAreRuns();
    assert Run(NetRead(nets[j], Offset(nets, 0, NetRead, j)), Offset(nets, 0, NetRead, j));
  }

  /** Every index listed on an earlier net is below every index listed on a later one, so the lists are disjoint. */
  lemma NetListsOrdered(nets: seq<Net>, j1: nat, j2: nat)
    requires j1 < j2 < |nets|
    ensures |DocumentRead(nets).items| == |nets|
    ensures var d1 := DocumentRead(nets).items[j1].data;
      var d2 := DocumentRead(nets).items[j2].data;
      && d1.Many? && d2.Many?
      && forall a, b :: a in d1.ids && b in d2.ids ==> a.IntId? && b.IntId? && a.i < b.i
  {
    NetList(nets, j1);
    NetList(nets, j2);
    OffsetMonotone(nets, 0, NetRead, j1 + 1, j2);
  }

  /** Together the nets list every segment index once, in order. */
  lemma AllIndices(nets: seq<Net>)
    ensures DocumentRead(nets).ids == IntIds(0, |DocumentRead(nets).ends|)
  {
    ReadsAreRuns();
    LevelRun(nets, 0, NetRead);
  }

  /**
   * A network item carries an index exactly when the network has both end
   * points, and that index is the position of its own segment.
   */
  lemma NetworkIndex(ns: seq<Network>, base: nat, i: nat)
    requires i < |ns|
    ensures var r := Level(ns, base, NetworkRead);
      var at := Offset(ns, base, NetworkRead, i);
      && |r.items| == |ns| && base <= at <= base + |r.ends|
      && (r.items[i].data != NoData <==> ns[i].ends.Some?)
      && (ns[i].ends.Some? ==> at < base + |r.ends| && r.items[i].data == One(IntId(at)) && r.ends[at - base] == ns[i].ends.value)
  {
    NetsReadOne();
    LevelItemAt(ns, base, NetworkRead, i);
    LevelEndsAt(ns, base, NetworkRead, i);
    var r := Level(ns, base, NetworkRead);
    var at := Offset(ns, base, NetworkRead, i);
    if ns[i].ends.Some? {
      assert r.ends[at - base..at - base + 1] == [ns[i].ends.value];
    }
  }

  // ---------------------------------------------------------------------
  // The loops of the parse
  // ---------------------------------------------------------------------

  /**
   * One pass of the network loop of a segment entered with `base`
   * segments, after `r` has been read: a network with both end points
   * appends its segment and gets the index of that segment, the length
   * of `segments` less one.
   */
  method NetworksStep(ns: seq<Network>, base: nat, i: nat, r: Read) returns (r': Read)
    requires i < |ns| && r == Level(ns[..i], base, NetworkRead)
    ensures r' == Level(ns[..i + 1], base, NetworkRead)
  {
    var network := ns[i];
    LevelGrow(ns, base, NetworkRead, i, r, NetworkRead(network, base + |r.ends|));
    if network.ends.Some? {
      var ends := r.ends + [network.ends.value];
      r' := Read(r.items + [Item(One(IntId(base + |ends| - 1)), [Leaf(), Leaf()])], r.ids + [IntId(base + |ends| - 1)], ends);
    } else {
      r' := Read(r.items + [Item(NoData, [])], r.ids, r.ends);
    }
  }

  /** The network loop of one segment: its items, its network list and the segments it appends. */
  method ReadNetworks(ns: seq<Network>, base: nat) returns (r: Read)
    ensures r == Level(ns, base, NetworkRead)
  {
    r := Read([], [], []);
    var i := 0;
    while i < |ns|
      invariant i <= |ns| && r == Level(ns[..i], base, NetworkRead)
    {
      r := NetworksStep(ns, base, i, r);
      i := i + 1;
    }
    assert ns[..i] == ns;
  }

  /** A segment's item over its networks' items. */
  method ReadSegment(seg: Segment, off: nat) returns (one: Read)
    ensures one == SegmentRead(seg, off)
  {
    var networks := ReadNetworks(seg.networks, off);
    one := Read([Item(Many(networks.ids), networks.items)], networks.ids, networks.ends);
  }

  /** One pass of the segment loop of a subnet. */
  method SegmentsStep(ss: seq<Segment>, base: nat, i: nat, r: Read) returns (r': Read)
    requires i < |ss| && r == Level(ss[..i], base, SegmentRead)
    ensures r' == Level(ss[..i + 1], base, SegmentRead)
  {
    var one := ReadSegment(ss[i], base + |r.ends|);
    LevelGrow(ss, base, SegmentRead, i, r, one);
    r' := Read(r.items + one.items, r.ids + one.ids, r.ends + one.ends);
  }

  /** The segment loop of one subnet. */
  method ReadSegments(ss: seq<Segment>, base: nat) returns (r: Read)
    ensures r == Level(ss, base, SegmentRead)
  {
    r := Read([], [], []);
    var i := 0;
    while i < |ss|
      invariant i <= |ss| && r == Level(ss[..i], base, SegmentRead)
    {
      r := SegmentsStep(ss, base, i, r);
      i := i + 1;
    }
    assert ss[..i] == ss;
  }

  /** A subnet's item over its net point items and its segments' items. */
  method ReadSubNet(sn: SubNet, off: nat) returns (one: Read)
    ensures one == SubNetRead(sn, off)
  {
    var segments := ReadSegments(sn.segments, off);
    one := Read([Item(Many(segments.ids), NetPointItems(sn.netPoints) + segments.items)], segments.ids, segments.ends);
  }

  /** One pass of the subnet loop of a net. */
  method SubNetsStep(sn: seq<SubNet>, base: nat, i: nat, r: Read) returns (r': Read)
    requires i < |sn| && r == Level(sn[..i], base, SubNetRead)
    ensures r' == Level(sn[..i + 1], base, SubNetRead)
  {
    var one := ReadSubNet(sn[i], base + |r.ends|);
    LevelGrow(sn, base, SubNetRead, i, r, one);
    r' := Read(r.items + one.items, r.ids + one.ids, r.ends + one.ends);
  }

  /** The subnet loop of one net. */
  method ReadSubNets(sn: seq<SubNet>, base: nat) returns (r: Read)
    ensures r == Level(sn, base, SubNetRead)
  {
    r := Read([], [], []);
    var i := 0;
    while i < |sn|
      invariant i <= |sn| && r == Level(sn[..i], base, SubNetRead)
    {
      r := SubNetsStep(sn, base, i, r);
      i := i + 1;
    }
    assert sn[..i] == sn;
  }

  /** A net's item over its device and isoelectric point groups and its subnets' items. */
  method ReadNet(net: Net, off: nat) returns (one: Read)
    ensures one == NetRead(net, off)
  {
    var subnets := ReadSubNets(net.subnets, off);
    one := Read([Item(Many(subnets.ids), GroupItems(net.devices) + GroupItems(net.isoPoints) + subnets.items)], subnets.ids, subnets.ends);
  }

  /** One pass of the net loop. */
  method NetsStep(nets: seq<Net>, i: nat, r: Read) returns (r': Read)
    requires i < |nets| && r == Level(nets[..i], 0, NetRead)
    ensures r' == Level(nets[..i + 1], 0, NetRead)
  {
    var one := ReadNet(nets[i], |r.ends|);
    LevelGrow(nets, 0, NetRead, i, r, one);
    r' := Read(r.items + one.items, r.ids + one.ids, r.ends + one.ends);
  }

  /**
   * The net loop of the document, on emptied stores: the top-level
   * items, and `segments` as the networks append to it.
   */
  method ReadNets(nets: seq<Net>) returns (items: seq<Item>, segments: seq<(Point, Point)>)
    ensures items == DocumentRead(nets).items && segments == DocumentRead(nets).ends
  {
    var r := Read([], [], []);
    var i := 0;
    while i < |nets|
      invariant i <= |nets| && r == Level(nets[..i], 0, NetRead)
    {
      r := NetsStep(nets, i, r);
      i := i + 1;
    }
    assert nets[..i] == nets;
    items, segments := r.items, r.ends;
  }
}
