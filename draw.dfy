/** What GGraph.draw emits, as values: the icon and colour of every node,
    and the edge scan that draws each observed adjacency once, marking the
    reciprocal link at the far end so that it is not drawn a second time. */
module Drawing {
  import opened Wrappers
  import opened Links
  import opened Nodes
  import opened DeviceTypes
  import opened Diffs

  datatype Color = Blue | Green | Red

  /** The colour of a tag: green for "added", red for "removed", blue
      otherwise. */
  function CompColor(c: Comp): (col: Color)
    ensures col == Green <==> c == Added
    ensures col == Red <==> c == Removed
    ensures col == Blue <==> c == Unchanged
  {
    match c
    case Added => Green
    case Removed => Red
    case Unchanged => Blue
  }

  function ColorName(col: Color): string
  {
    match col
    case Blue => "blue"
    case Green => "green"
    case Red => "red"
  }

  /** The colour of an edge: the tag of the link being drawn, or, when that
      link is untagged, the tag of the reciprocal link found at the far end. */
  function EdgeColor(own: Comp, partner: Option<Comp>): (col: Color)
    ensures col == Green <==> own == Added || (own == Unchanged && partner == Some(Added))
    ensures col == Red <==> own == Removed || (own == Unchanged && partner == Some(Removed))
    ensures own != Unchanged ==> col == CompColor(own)
    ensures col == Blue <==> own == Unchanged && (partner == None || partner == Some(Unchanged))
  {
    if own != Unchanged then CompColor(own)
    else if partner.Some? then CompColor(partner.value)
    else Blue
  }

  /** Icon file prefixes by device type (DEVTYPE_FILES, without the
      directory of the running process). An untyped node is drawn as an
      l2switch. */
  const DevtypeFiles: map<string, string> :=
    map["" := "l2switch", "router" := "router", "l2switch" := "l2switch",
        "l3switch" := "l3switch", "station" := "station", "phone" := "phone",
        "phonewithswitch" := "phonewithswitch", "ap" := "ap"]

  /** The table has an entry for the empty type and for each type name that
      classification produces, and every named type keeps its own icon. */
  lemma DevtypeFilesEntries()
    ensures DevtypeFiles.Keys == {"", "router", "l2switch", "l3switch", "station", "phone", "phonewithswitch", "ap"}
    ensures DevtypeFiles[""] == "l2switch"
    ensures forall t :: t in DevtypeFiles && t != "" ==> DevtypeFiles[t] == t
  {
  }

  /** The icon of a node, or None when its device type has no entry (the
      lookup raises KeyError and nothing is drawn). */
  function Icon(deviceType: string, col: Color): (r: Option<string>)
    ensures r.None? <==> deviceType !in DevtypeFiles
    ensures r.Some? ==> r.value == DevtypeFiles[deviceType] + "_" + ColorName(col) + ".png"
  {
    if deviceType in DevtypeFiles then Some(DevtypeFiles[deviceType] + "_" + ColorName(col) + ".png")
    else None
  }

  /** A node gets an icon exactly when its device type came from a rule, was
      never set, or is a raw capability string that happens to be a type
      name. */
  lemma IconOfClassified(capabilities: string)
    ensures Classify(capabilities) in DevtypeFiles <==> HasCode(capabilities) || capabilities in DevtypeFiles
  {
  }

  datatype NodeRecord = NodeRecord(name: string, image: string)

  /** Every node has an icon for its device type. */
  predicate AllIcons(vs: seq<NodeView>)
  {
    forall i :: 0 <= i < |vs| ==> vs[i].deviceType in DevtypeFiles
  }

  /** `recs` holds one node statement per snapshot, in order, named by the
      hostname and showing the device type's icon in the colour of the
      node's tag. */
  predicate Records(vs: seq<NodeView>, recs: seq<NodeRecord>)
  {
    |recs| == |vs| &&
    forall i :: 0 <= i < |vs| ==>
      recs[i].name == vs[i].hostname && Icon(vs[i].deviceType, CompColor(vs[i].comp)) == Some(recs[i].image)
  }

  /** One edge statement: the tail is the visited node, the head the node
      found for the link's remote hostname, and the interface names label
      the ends. */
  datatype Edge = Edge(tail: string, head: string, color: Color, headLabel: string, tailLabel: string)

  /** What draw hands to graphviz. */
  datatype Picture = Picture(nodes: seq<NodeRecord>, edges: seq<Edge>)

  /** The snapshots of the nodes and the edges emitted so far. */
  datatype Scan = Scan(views: seq<NodeView>, edges: seq<Edge>)

  /** `w` differs from `v` at most in drawn flags of its links, and a drawn
      link stays drawn. */
  predicate LinksGrow(v: NodeView, w: NodeView)
  {
    w.hostname == v.hostname && w.direct == v.direct && w.comp == v.comp &&
    w.deviceType == v.deviceType && w.numNeighbors == v.numNeighbors && |w.links| == |v.links| &&
    forall b :: 0 <= b < |v.links| ==> Gains(v.links[b], w.links[b])
  }

  /** `m` is `l` with at most its drawn flag raised. */
  predicate Gains(l: Link, m: Link)
  {
    m.localIfname == l.localIfname && m.remoteIfname == l.remoteIfname &&
    m.remoteHostname == l.remoteHostname && m.capabilities == l.capabilities &&
    m.comp == l.comp && (l.drawn ==> m.drawn)
  }

  /** Every node only gains drawn flags from `s` to `r`. */
  predicate Grows(s: seq<NodeView>, r: seq<NodeView>)
  {
    |r| == |s| && forall a :: 0 <= a < |s| ==> LinksGrow(s[a], r[a])
  }

  lemma LinksGrowTrans(u: NodeView, v: NodeView, w: NodeView)
    requires LinksGrow(u, v) && LinksGrow(v, w)
    ensures LinksGrow(u, w)
  {
    forall b | 0 <= b < |u.links| ensures Gains(u.links[b], w.links[b]) {
      assert Gains(u.links[b], v.links[b]) && Gains(v.links[b], w.links[b]);
    }
  }

  lemma GrowsTrans(s: seq<NodeView>, t: seq<NodeView>, r: seq<NodeView>)
    requires Grows(s, t) && Grows(t, r)
    ensures Grows(s, r)
  {
    forall a | 0 <= a < |s| ensures LinksGrow(s[a], r[a]) {
      LinksGrowTrans(s[a], t[a], r[a]);
    }
  }

  lemma GrowsRefl(s: seq<NodeView>)
    ensures Grows(s, s)
  {
    forall a | 0 <= a < |s| ensures LinksGrow(s[a], s[a]) {
      assert s[a] == s[a].(links := s[a].links);
    }
  }

  /** The node find_nodename picks for `h`; a hostname that is absent gives
      -1, which as a list index names the last node. */
  function FarEnd(vs: seq<NodeView>, h: string): (k: int)
    requires vs != []
    ensures 0 <= k < |vs|
    ensures h in HostnamesOf(vs) ==> vs[k].hostname == h
  {
    var f := FindView(vs, h);
    if f == -1 then |vs| - 1 else f
  }

  /** `r` has as many nodes as `s`, each with as many links. */
  predicate SameShape(s: seq<NodeView>, r: seq<NodeView>)
  {
    |r| == |s| && forall a :: 0 <= a < |s| ==> |r[a].links| == |s[a].links|
  }

  /** Mark link `b` of node `a` drawn. */
  function MarkDrawn(vs: seq<NodeView>, a: int, b: int): (r: seq<NodeView>)
    requires 0 <= a < |vs| && 0 <= b < |vs[a].links|
    ensures SameShape(vs, r)
  {
    vs[a := vs[a].(links := vs[a].links[b := vs[a].links[b].SetDrawn(true)])]
  }

  /** Marking sets one drawn flag and touches nothing else. */
  lemma MarkDrawnGrows(vs: seq<NodeView>, a: int, b: int)
    requires 0 <= a < |vs| && 0 <= b < |vs[a].links|
    ensures var r := MarkDrawn(vs, a, b);
      Grows(vs, r) && r[a].links[b].drawn &&
      (forall c :: 0 <= c < |vs| && c != a ==> r[c] == vs[c]) &&
      (forall d :: 0 <= d < |vs[a].links| && d != b ==> r[a].links[d] == vs[a].links[d])
  {
    var r := MarkDrawn(vs, a, b);
    assert LinksGrow(vs[a], r[a]);
    GrowsRefl(vs);
  }

  /** The marks one iteration of the edge loop makes for the undrawn link
      `j` of node `i`: the link itself, then the first reciprocal link at the
      far end, searched after the first mark. */
  function MarkPair(vs: seq<NodeView>, i: int, j: int): (r: seq<NodeView>)
    requires 0 <= i < |vs| && 0 <= j < |vs[i].links|
    ensures SameShape(vs, r)
  {
    var l := vs[i].links[j];
    var vs1 := MarkDrawn(vs, i, j);
    var k := FarEnd(vs, l.remoteHostname);
    var m := ReciprocalIndex(vs1[k].links, l, vs[i].hostname);
    if m == -1 then vs1 else MarkDrawn(vs1, k, m)
  }

  /** Both marks only set drawn flags: the link's own, and that of the first
      reciprocal link at the far end (which the search finds whether or not
      the first mark was made). */
  lemma MarkPairGrows(vs: seq<NodeView>, i: int, j: int)
    requires 0 <= i < |vs| && 0 <= j < |vs[i].links|
    ensures var r, l := MarkPair(vs, i, j), vs[i].links[j];
      var k := FarEnd(vs, l.remoteHostname);
      var m := ReciprocalIndex(vs[k].links, l, vs[i].hostname);
      Grows(vs, r) && r[i].links[j].drawn && (m != -1 ==> r[k].links[m].drawn)
  {
    var l := vs[i].links[j];
    var vs1 := MarkDrawn(vs, i, j);
    MarkDrawnGrows(vs, i, j);
    var k := FarEnd(vs, l.remoteHostname);
    assert LinksGrow(vs[k], vs1[k]);
    ReciprocalByNames(vs[k].links, vs1[k].links, l, vs[i].hostname);
    var m := ReciprocalIndex(vs1[k].links, l, vs[i].hostname);
    if m != -1 {
      MarkDrawnGrows(vs1, k, m);
      GrowsTrans(vs, vs1, MarkDrawn(vs1, k, m));
      assert LinksGrow(vs1[i], MarkDrawn(vs1, k, m)[i]);
    }
  }

  /** The edge drawn for link `j` of node `i`, coloured by its own tag or
      else by the tag of the reciprocal link at the far end. */
  function EdgeAt(vs: seq<NodeView>, i: int, j: int): (e: Edge)
    requires 0 <= i < |vs| && 0 <= j < |vs[i].links|
    ensures var l := vs[i].links[j];
      e.tail == vs[i].hostname && e.tailLabel == l.localIfname && e.headLabel == l.remoteIfname &&
      (l.remoteHostname in HostnamesOf(vs) ==> e.head == l.remoteHostname)
  {
    var l := vs[i].links[j];
    var k := FarEnd(vs, l.remoteHostname);
    var m := ReciprocalIndex(vs[k].links, l, vs[i].hostname);
    Edge(vs[i].hostname, vs[k].hostname, EdgeColor(l.comp, if m == -1 then None else Some(vs[k].links[m].comp)),
         l.remoteIfname, l.localIfname)
  }

  /** Marking link `j` of node `i` does not move or retag the reciprocal
      link of any node `k`. */
  lemma MarkKeepsPartner(vs: seq<NodeView>, i: int, j: int, k: int)
    requires 0 <= i < |vs| && 0 <= j < |vs[i].links| && 0 <= k < |vs|
    ensures var l, vs1 := vs[i].links[j], MarkDrawn(vs, i, j);
      var m := ReciprocalIndex(vs[k].links, l, vs[i].hostname);
      ReciprocalIndex(vs1[k].links, l, vs[i].hostname) == m &&
      (m != -1 ==> vs1[k].links[m].comp == vs[k].links[m].comp)
  {
    var l, vs1 := vs[i].links[j], MarkDrawn(vs, i, j);
    MarkDrawnGrows(vs, i, j);
    assert LinksGrow(vs[k], vs1[k]);
    ReciprocalByNames(vs[k].links, vs1[k].links, l, vs[i].hostname);
  }

  /** One iteration of the edge loop of draw, at link `j` of node `i`: a
      link already drawn is skipped; otherwise it and its first reciprocal
      are marked and one edge is emitted. */
  function Visit(s: Scan, i: int, j: int): (r: Scan)
    requires 0 <= i < |s.views| && 0 <= j < |s.views[i].links|
    ensures |r.views| == |s.views| && |r.views[i].links| == |s.views[i].links|
  {
    if s.views[i].links[j].drawn then s
    else Scan(MarkPair(s.views, i, j), s.edges + [EdgeAt(s.views, i, j)])
  }

  /** An iteration only sets drawn flags and leaves its link drawn. */
  lemma VisitGrows(s: Scan, i: int, j: int)
    requires 0 <= i < |s.views| && 0 <= j < |s.views[i].links|
    ensures var r := Visit(s, i, j);
      Grows(s.views, r.views) && r.views[i].links[j].drawn
  {
    if s.views[i].links[j].drawn {
      GrowsRefl(s.views);
    } else {
      MarkPairGrows(s.views, i, j);
    }
  }

  /** An iteration emits exactly one edge, EdgeAt, when its link was not
      drawn yet, and changes nothing otherwise. */
  lemma VisitEmits(s: Scan, i: int, j: int)
    requires 0 <= i < |s.views| && 0 <= j < |s.views[i].links|
    ensures var r := Visit(s, i, j);
      (s.views[i].links[j].drawn ==> r == s) &&
      (!s.views[i].links[j].drawn ==>
         |r.edges| == |s.edges| + 1 && r.edges[..|s.edges|] == s.edges && r.edges[|s.edges|] == EdgeAt(s.views, i, j))
  {
    if !s.views[i].links[j].drawn {
      var r := Visit(s, i, j);
      assert r.edges[..|s.edges|] == s.edges;
    }
  }

  /** An iteration at an undrawn link is the two marks and the edge. */
  lemma VisitIs(s: Scan, i: int, j: int)
    requires 0 <= i < |s.views| && 0 <= j < |s.views[i].links| && !s.views[i].links[j].drawn
    ensures Visit(s, i, j) == Scan(MarkPair(s.views, i, j), s.edges + [EdgeAt(s.views, i, j)])
  {
  }

  /** The reciprocal search looks at interface and host names only. */
  lemma {:induction false} ReciprocalByNames(ls: seq<Link>, ms: seq<Link>, l: Link, h: string)
    requires |ls| == |ms| && forall b :: 0 <= b < |ls| ==> ms[b].Key() == ls[b].Key()
    ensures ReciprocalIndex(ms, l, h) == ReciprocalIndex(ls, l, h)
    decreases |ls|
  {
    if ls != [] {
      ReciprocalByNames(ls[1..], ms[1..], l, h);
    }
  }

  /** The inner loop of draw over the first `j` links of node `i`. */
  function ScanNode(s: Scan, i: int, j: int): (r: Scan)
    requires 0 <= i < |s.views| && 0 <= j <= |s.views[i].links|
    ensures |r.views| == |s.views| && |r.views[i].links| == |s.views[i].links|
    decreases j
  {
    if j == 0 then s else Visit(ScanNode(s, i, j - 1), i, j - 1)
  }

  /** One more iteration of the inner loop. */
  lemma ScanNodeStep(s: Scan, i: int, j: int)
    requires 0 <= i < |s.views| && 0 <= j < |s.views[i].links|
    ensures var p := ScanNode(s, i, j);
      |p.views| == |s.views| && |p.views[i].links| == |s.views[i].links| &&
      ScanNode(s, i, j + 1) == Visit(p, i, j)
  {
  }

  /** The first `j` links of node `i` are drawn. */
  predicate DrawnBelow(vs: seq<NodeView>, i: int, j: int)
  {
    0 <= i < |vs| && j <= |vs[i].links| && forall b :: 0 <= b < j ==> vs[i].links[b].drawn
  }

  /** The inner loop only sets drawn flags and leaves the links it has
      passed drawn. */
  lemma ScanNodeGrows(s: Scan, i: int, j: int)
    requires 0 <= i < |s.views| && 0 <= j <= |s.views[i].links|
    ensures var r := ScanNode(s, i, j);
      Grows(s.views, r.views) && DrawnBelow(r.views, i, j)
  {
    ScanNodeGrowsFrom(s, i, 0, j);
    ScanNodeMarks(s, i, j);
  }

  /** The inner loop leaves the links it has passed drawn. */
  lemma {:induction false} ScanNodeMarks(s: Scan, i: int, j: int)
    requires 0 <= i < |s.views| && 0 <= j <= |s.views[i].links|
    ensures DrawnBelow(ScanNode(s, i, j).views, i, j)
    decreases j
  {
    if j > 0 {
      var p := ScanNode(s, i, j - 1);
      assert ScanNode(s, i, j) == Visit(p, i, j - 1);
      ScanNodeMarks(s, i, j - 1);
      VisitMarks(p, i, j - 1);
    }
  }

  /** The induction step of ScanNodeMarks, on one iteration. */
  lemma VisitMarks(p: Scan, i: int, j: int)
    requires 0 <= i < |p.views| && 0 <= j < |p.views[i].links| && DrawnBelow(p.views, i, j)
    ensures DrawnBelow(Visit(p, i, j).views, i, j + 1)
  {
    var r := Visit(p, i, j);
    VisitGrows(p, i, j);
    assert LinksGrow(p.views[i], r.views[i]);
  }

  /** The inner loop only appends edges. */
  lemma {:induction false} ScanNodeAppends(s: Scan, i: int, j: int)
    requires 0 <= i < |s.views| && 0 <= j <= |s.views[i].links|
    ensures s.edges <= ScanNode(s, i, j).edges
    decreases j
  {
    if j > 0 {
      var p := ScanNode(s, i, j - 1);
      ScanNodeAppends(s, i, j - 1);
      VisitEmits(p, i, j - 1);
    }
  }

  /** Every link of the first `n` nodes is drawn. */
  predicate DrawnUpTo(vs: seq<NodeView>, n: int)
  {
    forall a, b :: 0 <= a < n && a < |vs| && 0 <= b < |vs[a].links| ==> vs[a].links[b].drawn
  }

  /** The outer loop of draw over the first `i` nodes. */
  function ScanAll(s: Scan, i: int): (r: Scan)
    requires 0 <= i <= |s.views|
    ensures |r.views| == |s.views|
    decreases i
  {
    if i == 0 then s
    else
      var p := ScanAll(s, i - 1);
      ScanNode(p, i - 1, |p.views[i - 1].links|)
  }

  /** One more iteration of the outer loop. */
  lemma ScanAllStep(s: Scan, i: int)
    requires 0 <= i < |s.views|
    ensures var p := ScanAll(s, i);
      |p.views| == |s.views| && ScanAll(s, i + 1) == ScanNode(p, i, |p.views[i].links|)
  {
  }

  /** The outer loop only sets drawn flags and leaves every link of the
      nodes it has passed drawn. */
  lemma {:induction false} ScanAllGrows(s: Scan, i: int)
    requires 0 <= i <= |s.views|
    ensures var r := ScanAll(s, i);
      Grows(s.views, r.views) && DrawnUpTo(r.views, i)
    decreases i
  {
    if i == 0 {
      GrowsRefl(s.views);
    } else {
      var p := ScanAll(s, i - 1);
      var r := ScanNode(p, i - 1, |p.views[i - 1].links|);
      assert ScanAll(s, i) == r;
      ScanAllGrows(s, i - 1);
      ScanNodeGrows(p, i - 1, |p.views[i - 1].links|);
      GrowsAll(s.views, p.views, r.views, i - 1);
    }
  }

  /** The induction step of ScanAllGrows, on plain snapshots. */
  lemma GrowsAll(u: seq<NodeView>, v: seq<NodeView>, w: seq<NodeView>, i: int)
    requires Grows(u, v) && Grows(v, w) && 0 <= i < |u|
    requires DrawnUpTo(v, i)
    requires DrawnBelow(w, i, |w[i].links|)
    ensures Grows(u, w) && DrawnUpTo(w, i + 1)
  {
    GrowsTrans(u, v, w);
    forall a, b | 0 <= a < i + 1 && 0 <= b < |w[a].links| ensures w[a].links[b].drawn {
      if a < i {
        assert LinksGrow(v[a], w[a]);
      }
    }
  }

  /** The outer loop only appends edges. */
  lemma {:induction false} ScanAllAppends(s: Scan, i: int)
    requires 0 <= i <= |s.views|
    ensures s.edges <= ScanAll(s, i).edges
    decreases i
  {
    if i > 0 {
      var p := ScanAll(s, i - 1);
      ScanAllAppends(s, i - 1);
      ScanNodeAppends(p, i - 1, |p.views[i - 1].links|);
    }
  }

  /** The inner loop from its `j`-th to its `j2`-th iteration only sets
      drawn flags. */
  lemma {:induction false} ScanNodeGrowsFrom(s: Scan, i: int, j: int, j2: int)
    requires 0 <= i < |s.views| && 0 <= j <= j2 <= |s.views[i].links|
    ensures Grows(ScanNode(s, i, j).views, ScanNode(s, i, j2).views)
    decreases j2
  {
    if j2 == j {
      GrowsRefl(ScanNode(s, i, j).views);
    } else {
      var p := ScanNode(s, i, j2 - 1);
      assert ScanNode(s, i, j2) == Visit(p, i, j2 - 1);
      ScanNodeGrowsFrom(s, i, j, j2 - 1);
      GrowsThenVisit(ScanNode(s, i, j).views, p, i, j2 - 1);
    }
  }

  /** Growth up to a scan extends over one more iteration. */
  lemma GrowsThenVisit(u: seq<NodeView>, p: Scan, i: int, j: int)
    requires 0 <= i < |p.views| && 0 <= j < |p.views[i].links| && Grows(u, p.views)
    ensures Grows(u, Visit(p, i, j).views)
  {
    VisitGrows(p, i, j);
    GrowsTrans(u, p.views, Visit(p, i, j).views);
  }

  /** The outer loop from its `i`-th to its `i2`-th iteration only sets
      drawn flags. */
  lemma {:induction false} ScanAllGrowsFrom(s: Scan, i: int, i2: int)
    requires 0 <= i <= i2 <= |s.views|
    ensures Grows(ScanAll(s, i).views, ScanAll(s, i2).views)
    decreases i2
  {
    if i2 == i {
      GrowsRefl(ScanAll(s, i).views);
    } else {
      var p := ScanAll(s, i2 - 1);
      ScanAllGrowsFrom(s, i, i2 - 1);
      ScanNodeGrows(p, i2 - 1, |p.views[i2 - 1].links|);
      GrowsTrans(ScanAll(s, i).views, p.views, ScanAll(s, i2).views);
    }
  }

  lemma ShapeTrans(u: seq<NodeView>, v: seq<NodeView>, w: seq<NodeView>)
    requires SameShape(u, v) && SameShape(v, w)
    ensures SameShape(u, w)
  {
  }

  /** The loops keep the number of nodes and of links of each. */
  lemma {:induction false} ScanNodeShape(s: Scan, i: int, j: int)
    requires 0 <= i < |s.views| && 0 <= j <= |s.views[i].links|
    ensures SameShape(s.views, ScanNode(s, i, j).views)
    decreases j
  {
    if j == 0 {
    } else {
      var p := ScanNode(s, i, j - 1);
      ScanNodeShape(s, i, j - 1);
      if !p.views[i].links[j - 1].drawn {
        ShapeTrans(s.views, p.views, MarkPair(p.views, i, j - 1));
      }
    }
  }

  lemma {:induction false} ScanAllShape(s: Scan, i: int)
    requires 0 <= i <= |s.views|
    ensures SameShape(s.views, ScanAll(s, i).views)
    decreases i
  {
    if i > 0 {
      var p := ScanAll(s, i - 1);
      ScanAllShape(s, i - 1);
      ScanNodeShape(p, i - 1, |p.views[i - 1].links|);
      ShapeTrans(s.views, p.views, ScanAll(s, i).views);
    }
  }

  /** The scan just before the iteration at link `j` of node `i`. */
  function At(s: Scan, i: int, j: int): (r: Scan)
    requires 0 <= i < |s.views| && 0 <= j <= |s.views[i].links|
    ensures SameShape(s.views, r.views)
  {
    var p := ScanAll(s, i);
    ScanAllShape(s, i);
    ScanNodeShape(p, i, j);
    ShapeTrans(s.views, p.views, ScanNode(p, i, j).views);
    ScanNode(p, i, j)
  }

  /** Position (i, j) of the edge loop comes no later than (k, m). */
  predicate NoLater(i: int, j: int, k: int, m: int)
  {
    i < k || (i == k && j <= m)
  }

  /** The iteration at (i, j) takes the scan to the one before (i, j + 1). */
  lemma AtNext(s: Scan, i: int, j: int)
    requires 0 <= i < |s.views| && 0 <= j < |s.views[i].links|
    ensures Visit(At(s, i, j), i, j) == At(s, i, j + 1)
  {
    ScanAllGrows(s, i);
    assert LinksGrow(s.views[i], ScanAll(s, i).views[i]);
  }

  /** The scan before the first iteration of a node is the outer loop's,
      and the scan after its last one is the outer loop's next. */
  lemma AtEnds(s: Scan, i: int)
    requires 0 <= i < |s.views|
    ensures At(s, i, 0) == ScanAll(s, i)
    ensures At(s, i, |s.views[i].links|) == ScanAll(s, i + 1)
  {
    ScanAllShape(s, i);
  }

  /** Within one node the inner loop only sets drawn flags. */
  lemma AtGrowsNode(s: Scan, i: int, j: int, m: int)
    requires 0 <= i < |s.views| && 0 <= j <= m <= |s.views[i].links|
    ensures Grows(At(s, i, j).views, At(s, i, m).views)
  {
    ScanAllShape(s, i);
    ScanNodeGrowsFrom(ScanAll(s, i), i, j, m);
  }

  lemma GrowsChain(u: seq<NodeView>, v: seq<NodeView>, w: seq<NodeView>, x: seq<NodeView>)
    requires Grows(u, v) && Grows(v, w) && Grows(w, x)
    ensures Grows(u, x)
  {
    GrowsTrans(u, v, w);
    GrowsTrans(u, w, x);
  }

  /** Between two positions of the edge loop only drawn flags are set. */
  lemma AtGrows(s: Scan, i: int, j: int, k: int, m: int)
    requires 0 <= i < |s.views| && 0 <= j <= |s.views[i].links|
    requires 0 <= k < |s.views| && 0 <= m <= |s.views[k].links|
    requires NoLater(i, j, k, m)
    ensures Grows(At(s, i, j).views, At(s, k, m).views)
  {
    if i == k {
      AtGrowsNode(s, i, j, m);
    } else {
      var n := |s.views[i].links|;
      AtGrowsNode(s, i, j, n);
      AtEnds(s, i);
      ScanAllGrowsFrom(s, i + 1, k);
      AtEnds(s, k);
      AtGrowsNode(s, k, 0, m);
      GrowsChain(At(s, i, j).views, ScanAll(s, i + 1).views, ScanAll(s, k).views, At(s, k, m).views);
    }
  }

  /** A drawn link stays drawn. */
  lemma StaysDrawn(v: seq<NodeView>, w: seq<NodeView>, k: int, m: int)
    requires Grows(v, w) && 0 <= k < |v| && 0 <= m < |v[k].links| && v[k].links[m].drawn
    ensures w[k].links[m].drawn
  {
    assert LinksGrow(v[k], w[k]);
  }

  /** The link of (k, m) is the first reciprocal, at the node found for its
      remote hostname, of the link at the earlier position (i, j), which was
      not drawn when the loop reached it: so the loop reaches (k, m) with
      that link drawn and emits no second edge for the pair. */
  lemma PartnerSkipped(s: Scan, i: int, j: int, k: int, m: int)
    requires 0 <= i < |s.views| && 0 <= j < |s.views[i].links|
    requires !At(s, i, j).views[i].links[j].drawn
    requires var t := At(s, i, j).views;
      k == FarEnd(t, t[i].links[j].remoteHostname) &&
      m == ReciprocalIndex(t[k].links, t[i].links[j], t[i].hostname) && m != -1
    requires NoLater(i, j + 1, k, m)
    ensures At(s, k, m).views[k].links[m].drawn
    ensures Visit(At(s, k, m), k, m) == At(s, k, m)
  {
    AtNext(s, i, j);
    AtGrows(s, i, j + 1, k, m);
    SkipPartner(At(s, i, j), At(s, i, j + 1), At(s, k, m), i, j, k, m);
  }

  /** PartnerSkipped on plain scans: `r` is the iteration at (i, j) applied
      to `t`, and `u` a later scan. */
  lemma SkipPartner(t: Scan, r: Scan, u: Scan, i: int, j: int, k: int, m: int)
    requires 0 <= i < |t.views| && 0 <= j < |t.views[i].links| && !t.views[i].links[j].drawn
    requires k == FarEnd(t.views, t.views[i].links[j].remoteHostname)
    requires m == ReciprocalIndex(t.views[k].links, t.views[i].links[j], t.views[i].hostname) && m != -1
    requires r == Visit(t, i, j) && Grows(r.views, u.views)
    ensures u.views[k].links[m].drawn && Visit(u, k, m) == u
  {
    MarkPairGrows(t.views, i, j);
    StaysDrawn(r.views, u.views, k, m);
    VisitEmits(u, k, m);
  }

  /** The number of links over all nodes. */
  function LinkCount(vs: seq<NodeView>): nat
  {
    if vs == [] then 0 else LinkCount(vs[..|vs| - 1]) + |vs[|vs| - 1].links|
  }

  /** The inner loop emits at most one edge per link it passes. */
  lemma {:induction false} ScanNodeEdges(s: Scan, i: int, j: int)
    requires 0 <= i < |s.views| && 0 <= j <= |s.views[i].links|
    ensures |ScanNode(s, i, j).edges| <= |s.edges| + j
    decreases j
  {
    if j > 0 {
      ScanNodeEdges(s, i, j - 1);
      VisitEmits(ScanNode(s, i, j - 1), i, j - 1);
    }
  }

  /** The outer loop emits at most one edge per link of the nodes it
      passes. */
  lemma {:induction false} ScanAllEdges(s: Scan, i: int)
    requires 0 <= i <= |s.views|
    ensures |ScanAll(s, i).edges| <= |s.edges| + LinkCount(s.views[..i])
    decreases i
  {
    if i > 0 {
      var p := ScanAll(s, i - 1);
      ScanAllEdges(s, i - 1);
      ScanAllShape(s, i - 1);
      ScanNodeEdges(p, i - 1, |p.views[i - 1].links|);
      assert s.views[..i][..i - 1] == s.views[..i - 1];
    }
  }

  /** What draw does to the links and which edges it emits, from the
      snapshots before the call. */
  function DrawScan(vs: seq<NodeView>): (r: Scan)
    ensures SameShape(vs, r.views)
  {
    ScanAllShape(Scan(vs, []), |vs|);
    ScanAll(Scan(vs, []), |vs|)
  }

  /** Draw emits at most one edge per link. */
  lemma DrawEdgeBound(vs: seq<NodeView>)
    ensures |DrawScan(vs).edges| <= LinkCount(vs)
  {
    ScanAllEdges(Scan(vs, []), |vs|);
    assert vs[..|vs|] == vs;
  }

  /** Two switches that saw each other: the adjacency is drawn once, from
      the first node, and both links end up drawn. */
  lemma DrawPairOnce()
    ensures var a := NodeView("a", Direct, Unchanged, [Link("p1", "p2", "b", "", Unchanged, false)], "", 1);
      var b := NodeView("b", Direct, Unchanged, [Link("p2", "p1", "a", "", Unchanged, false)], "", 1);
      DrawScan([a, b]).edges == [Edge("a", "b", Blue, "p2", "p1")]
  {
    var a := NodeView("a", Direct, Unchanged, [Link("p1", "p2", "b", "", Unchanged, false)], "", 1);
    var b := NodeView("b", Direct, Unchanged, [Link("p2", "p1", "a", "", Unchanged, false)], "", 1);
    var s := Scan([a, b], []);
    assert FindView([a, b], "b") == 1;
    assert ReciprocalIndex(b.links, a.links[0], "a") == 0;
    var s1 := Visit(s, 0, 0);
    assert ScanAll(s, 1) == s1;
    assert s1.views[1].links[0].drawn;
    assert ScanAll(s, 2) == s1;
  }

  /** Every link is marked drawn when draw completes and nothing else about the
      nodes changed. */
  lemma DrawMarksAll(vs: seq<NodeView>)
    ensures var r := DrawScan(vs).views;
      |r| == |vs| &&
      forall a :: 0 <= a < |vs| ==>
        r[a] == vs[a].(links := r[a].links) && |r[a].links| == |vs[a].links| &&
        forall b :: 0 <= b < |vs[a].links| ==> r[a].links[b] == vs[a].links[b].SetDrawn(true)
  {
    var r := DrawScan(vs).views;
    ScanAllGrows(Scan(vs, []), |vs|);
    forall a, b | 0 <= a < |vs| && 0 <= b < |vs[a].links|
      ensures r[a].links[b] == vs[a].links[b].SetDrawn(true)
    {
      assert LinksGrow(vs[a], r[a]);
      assert r[a].links[b].drawn;
    }
  }

  /** Every link is drawn. */
  predicate AllDrawn(vs: seq<NodeView>)
  {
    DrawnUpTo(vs, |vs|)
  }

  /** Once every link is drawn the loops emit nothing and change nothing. */
  lemma {:induction false} ScanNodeDrawn(s: Scan, i: int, j: int)
    requires 0 <= i < |s.views| && 0 <= j <= |s.views[i].links| && AllDrawn(s.views)
    ensures ScanNode(s, i, j) == s
    decreases j
  {
    if j > 0 {
      ScanNodeDrawn(s, i, j - 1);
      VisitEmits(s, i, j - 1);
    }
  }

  lemma {:induction false} ScanAllDrawn(s: Scan, i: int)
    requires 0 <= i <= |s.views| && AllDrawn(s.views)
    ensures ScanAll(s, i) == s
    decreases i
  {
    if i > 0 {
      ScanAllDrawn(s, i - 1);
      ScanNodeDrawn(s, i - 1, |s.views[i - 1].links|);
    }
  }

  /** The drawn flags persist in the graph, so drawing it a second time
      emits no edge and changes nothing. */
  lemma DrawTwice(vs: seq<NodeView>)
    ensures DrawScan(DrawScan(vs).views) == Scan(DrawScan(vs).views, [])
  {
    var r := DrawScan(vs).views;
    ScanAllGrows(Scan(vs, []), |vs|);
    assert AllDrawn(r);
    ScanAllDrawn(Scan(r, []), |r|);
  }

  /** Drawing keeps every node's invariant: only drawn flags change. */
  lemma DrawKeepsValid(vs: seq<NodeView>)
    requires AllValid(vs)
    ensures AllValid(DrawScan(vs).views)
  {
    var r := DrawScan(vs).views;
    DrawMarksAll(vs);
    forall a | 0 <= a < |r| ensures ValidView(r[a]) {
      assert ValidView(vs[a]);
      forall l | l in r[a].links ensures '.' !in l.remoteHostname {
        var b :| 0 <= b < |r[a].links| && r[a].links[b] == l;
        assert vs[a].links[b] in vs[a].links;
      }
    }
  }
}
