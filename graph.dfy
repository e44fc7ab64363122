/** GGraph: the topology as a list of nodes with unique hostnames, its
    builder (add_node and the synthesis of indirect neighbours), the
    graph-level diff and the edge traversal of draw. */
module Graphs {
  import opened Wrappers
  import opened Names
  import opened DeviceTypes
  import opened Links
  import opened Nodes
  import opened Diffs
  import opened Drawing

  /** The index of the first node of `ns` with hostname `h`, or -1. */
  function FirstIndex(ns: seq<GNode>, h: string): (k: int)
    ensures -1 <= k < |ns|
    ensures k == -1 <==> forall j :: 0 <= j < |ns| ==> ns[j].hostname != h
    ensures k >= 0 ==> ns[k].hostname == h && forall j :: 0 <= j < k ==> ns[j].hostname != h
    decreases |ns|
  {
    if ns == [] then -1
    else if ns[0].hostname == h then 0
    else
      var k := FirstIndex(ns[1..], h);
      if k == -1 then -1 else k + 1
  }

  /** No two nodes of `ns` share a hostname. Hostnames never change, so this
      does not depend on the heap. */
  predicate DistinctHosts(ns: seq<GNode>)
  {
    forall i, j :: 0 <= i < j < |ns| ==> ns[i].hostname != ns[j].hostname
  }

  /** `pos` gives every node its position in `ns`, so no node object occurs
      twice. */
  predicate Indexed(ns: seq<GNode>, pos: map<GNode, int>)
  {
    forall i :: 0 <= i < |ns| ==> ns[i] in pos && pos[ns[i]] == i
  }

  /** The position of every node of a list with distinct hostnames. */
  ghost function Positions(ns: seq<GNode>): map<GNode, int>
    requires DistinctHosts(ns)
  {
    map i | 0 <= i < |ns| :: ns[i] := i
  }

  lemma IndexedPositions(ns: seq<GNode>)
    requires DistinctHosts(ns)
    ensures Indexed(ns, Positions(ns))
  {
  }

  /** What a node holds, for stating what an operation changed. */
  datatype NodeState = NodeState(links: seq<Link>, deviceType: string)

  /** The hostnames the links of `ls` point at. */
  function Targets(ls: seq<Link>): set<string>
  {
    set l | l in ls :: l.remoteHostname
  }

  /** The targets of a prefix grow by the name the next link points at. */
  lemma TargetsSnoc(ls: seq<Link>, i: int)
    requires 0 <= i < |ls|
    ensures Targets(ls[..i + 1]) == Targets(ls[..i]) + {ls[i].remoteHostname}
  {
    assert ls[..i + 1] == ls[..i] + [ls[i]];
  }

  /** The reversals of the links of `ls` that point at `hn`, in link order,
      as the node named `h` holding `ls` hands them to `hn`. */
  function Reversals(ls: seq<Link>, hn: string, h: string): seq<Link>
    decreases |ls|
  {
    if ls == [] then []
    else
      var l := ls[|ls| - 1];
      Reversals(ls[..|ls| - 1], hn, h) + (if l.remoteHostname == hn then [Reversed(l, h)] else [])
  }

  /** The device type the node named `hn` learns from the links `ls`: each
      link pointing at it with non-empty capabilities sets its
      classification, so the last such link decides; "" when there is none. */
  function LearntType(ls: seq<Link>, hn: string): (t: string)
    ensures Stable(t)
    decreases |ls|
  {
    if ls == [] then ""
    else
      var l := ls[|ls| - 1];
      if l.remoteHostname == hn && l.capabilities != "" then
        ClassifyIdempotent(l.capabilities);
        Classify(l.capabilities)
      else LearntType(ls[..|ls| - 1], hn)
  }

  /** A name no link points at gets nothing. */
  lemma {:induction false} Untargeted(ls: seq<Link>, hn: string, h: string)
    ensures hn !in Targets(ls) ==> Reversals(ls, hn, h) == [] && LearntType(ls, hn) == ""
    decreases |ls|
  {
    if ls != [] && hn !in Targets(ls) {
      var p := ls[..|ls| - 1];
      assert ls == p + [ls[|ls| - 1]];
      Untargeted(p, hn, h);
    }
  }

  /** What the node named `hn`, holding `st`, holds once add_indirect_nodes
      has run over the links `ls` of the node named `h`: the reversals
      pointing at it are merged into its links, and the learnt type, if
      any, replaces its type. A node no link points at keeps what it holds. */
  function Absorb(st: NodeState, ls: seq<Link>, hn: string, h: string): NodeState
  {
    var t := LearntType(ls, hn);
    NodeState(MergeLinks(st.links, Reversals(ls, hn, h)), if t == "" then st.deviceType else t)
  }

  /** A node no link points at keeps what it holds. */
  lemma AbsorbUntargeted(st: NodeState, ls: seq<Link>, hn: string, h: string)
    requires hn !in Targets(ls)
    ensures Absorb(st, ls, hn, h) == st
  {
    Untargeted(ls, hn, h);
  }

  /** What the node itself absorbs through its links to itself: only
      links pointing back at it, and nothing without such links. */
  lemma AbsorbOwn(st: NodeState, ls: seq<Link>, h: string)
    requires '.' !in h
    ensures forall l :: l in Absorb(st, ls, h, h).links ==> l in st.links || l.remoteHostname == h
    ensures (forall l :: l in ls ==> l.remoteHostname != h) ==> Absorb(st, ls, h, h) == st
  {
    ReversalsFrom(ls, h, h);
    HostPartOfPlain(h);
    if forall l :: l in ls ==> l.remoteHostname != h {
      AbsorbUntargeted(st, ls, h, h);
    }
  }

  /** Absorbing one more link is what add_node does when it merges the node
      synthesised from that link into the node named `hn`: MergeLinks of the
      reversed link and set_device_type of the link's classification. */
  lemma AbsorbStep(st: NodeState, ls: seq<Link>, i: int, hn: string, h: string)
    requires 0 <= i < |ls|
    ensures var p := Absorb(st, ls[..i], hn, h);
      Absorb(st, ls[..i + 1], hn, h) ==
        if ls[i].remoteHostname == hn then
          NodeState(MergeLinks(p.links, [Reversed(ls[i], h)]), NextType(p.deviceType, NextType("", ls[i].capabilities)))
        else p
  {
    var q := ls[..i + 1];
    assert q[..i] == ls[..i] && q[i] == ls[i];
    if ls[i].remoteHostname == hn {
      var r := Reversals(ls[..i], hn, h);
      var x := Reversed(ls[i], h);
      assert (r + [x])[..|r|] == r && [x][..0] == [];
      assert MergeLinks(st.links, r + [x]) == MergeLinks(MergeLinks(st.links, r), [x]);
      ClassifyIdempotent(ls[i].capabilities);
    } else {
      assert Reversals(q, hn, h) == Reversals(ls[..i], hn, h) + [];
      assert Reversals(q, hn, h) == Reversals(ls[..i], hn, h);
      assert LearntType(q, hn) == LearntType(ls[..i], hn);
      assert Absorb(st, q, hn, h) == Absorb(st, ls[..i], hn, h);
    }
  }

  /** Every reversal handed to `hn` comes from a link pointing at it, and
      every link pointing at it hands one. */
  lemma {:induction false} ReversalsFrom(ls: seq<Link>, hn: string, h: string)
    ensures forall l :: l in Reversals(ls, hn, h) ==>
              exists b :: 0 <= b < |ls| && ls[b].remoteHostname == hn && l == Reversed(ls[b], h)
    ensures forall b :: 0 <= b < |ls| && ls[b].remoteHostname == hn ==> Reversed(ls[b], h) in Reversals(ls, hn, h)
    decreases |ls|
  {
    if ls != [] {
      var p := ls[..|ls| - 1];
      ReversalsFrom(p, hn, h);
      forall l | l in Reversals(ls, hn, h)
        ensures exists b :: 0 <= b < |ls| && ls[b].remoteHostname == hn && l == Reversed(ls[b], h)
      {
        if l in Reversals(p, hn, h) {
          var b :| 0 <= b < |p| && p[b].remoteHostname == hn && l == Reversed(p[b], h);
          assert ls[b] == p[b];
        }
      }
      forall b | 0 <= b < |ls| && ls[b].remoteHostname == hn
        ensures Reversed(ls[b], h) in Reversals(ls, hn, h)
      {
        if b < |p| {
          assert ls[b] == p[b];
        }
      }
    }
  }

  /** The node add_indirect_nodes creates for a name its links point at:
      one link per key, each the reversal of a link pointing at it, every
      such reversal present, and the learnt type. */
  lemma NeighbourContents(ls: seq<Link>, hn: string, h: string)
    requires hn in Targets(ls)
    ensures var r := Absorb(NodeState([], ""), ls, hn, h);
      r.links != [] && NoDupKeys(r.links) && r.deviceType == LearntType(ls, hn) &&
      (forall l :: l in r.links ==> exists b :: 0 <= b < |ls| && ls[b].remoteHostname == hn && l == Reversed(ls[b], h)) &&
      (forall b :: 0 <= b < |ls| && ls[b].remoteHostname == hn ==> HasKey(r.links, Reversed(ls[b], h)))
  {
    var rs := Reversals(ls, hn, h);
    var m := MergeLinks([], rs);
    ReversalsFrom(ls, hn, h);
    MergeLinksNoDup([], rs);
    var l0 :| l0 in ls && l0.remoteHostname == hn;
    var b0 :| 0 <= b0 < |ls| && ls[b0] == l0;
    forall b | 0 <= b < |ls| && ls[b].remoteHostname == hn
      ensures HasKey(m, Reversed(ls[b], h))
    {
      var x := Reversed(ls[b], h);
      var j :| 0 <= j < |rs| && rs[j] == x;
      assert HasKey(rs, x);
      MergeLinksKeys([], rs, x);
    }
    assert HasKey(m, Reversed(ls[b0], h));
  }

  /** What position `a` of `ns` holds after add_indirect_nodes over the
      links `ls` of the node named `h`: what it held in `st0` (nothing, for
      a node the pass appended) with the links pointing at it absorbed. */
  function Expected(st0: seq<NodeState>, ns: seq<GNode>, ls: seq<Link>, h: string, a: int): NodeState
    requires 0 <= a < |ns|
  {
    Absorb(if a < |st0| then st0[a] else NodeState([], ""), ls, ns[a].hostname, h)
  }

  /** The states `st` of the nodes `ns` are what add_indirect_nodes over
      `ls` makes of the states `st0`, position by position. */
  predicate Propagated(st0: seq<NodeState>, st: seq<NodeState>, ns: seq<GNode>, ls: seq<Link>, h: string)
  {
    |st| == |ns| && forall a {:trigger Expected(st0, ns, ls, h, a)} :: 0 <= a < |ns| ==> st[a] == Expected(st0, ns, ls, h, a)
  }

  /** The nodes of `ns` from position `lo` on are INDIRECT and named by the
      links `ls`. */
  predicate NamedBy(ns: seq<GNode>, lo: int, ls: seq<Link>)
  {
    forall a :: 0 <= lo <= a < |ns| ==> ns[a].direct == Indirect && ns[a].hostname in Targets(ls)
  }

  /** One neighbour step keeps NamedBy one link further. */
  lemma NamedByStep(ns: seq<GNode>, ns1: seq<GNode>, lo: int, ls: seq<Link>, i: int, k: int)
    requires 0 <= i < |ls| && 0 <= lo <= |ns| && NamedBy(ns, lo, ls[..i])
    requires k == -1 ==>
               |ns1| == |ns| + 1 && (forall a :: 0 <= a < |ns| ==> ns1[a] == ns[a]) &&
               ns1[|ns|].hostname == ls[i].remoteHostname && ns1[|ns|].direct == Indirect
    requires k != -1 ==> ns1 == ns
    ensures NamedBy(ns1, lo, ls[..i + 1])
  {
    TargetsSnoc(ls, i);
  }

  /** One neighbour step keeps Propagated one link further: the neighbour
      is appended holding the reversed link, or the node at `k` absorbs it. */
  lemma PropagatedStep(st0: seq<NodeState>, st: seq<NodeState>, ns: seq<GNode>, st1: seq<NodeState>, ns1: seq<GNode>,
                       ls: seq<Link>, i: int, h: string, k: int)
    requires 0 <= i < |ls| && |st| == |ns| && |st0| <= |st| && -1 <= k < |ns|
    requires Propagated(st0, st, ns, ls[..i], h)
    requires forall a :: 0 <= a < |ns| && a != k ==> ns[a].hostname != ls[i].remoteHostname
    requires k == -1 ==>
               ls[i].remoteHostname !in Targets(ls[..i]) &&
               |ns1| == |ns| + 1 && (forall a :: 0 <= a < |ns| ==> ns1[a] == ns[a]) &&
               ns1[|ns|].hostname == ls[i].remoteHostname &&
               st1 == st + [NodeState([Reversed(ls[i], h)], NextType("", ls[i].capabilities))]
    requires k >= 0 ==>
               ns[k].hostname == ls[i].remoteHostname && ns1 == ns &&
               st1 == st[k := NodeState(MergeLinks(st[k].links, [Reversed(ls[i], h)]),
                                        NextType(st[k].deviceType, NextType("", ls[i].capabilities)))]
    ensures Propagated(st0, st1, ns1, ls[..i + 1], h)
  {
    forall a | 0 <= a < |ns1|
      ensures st1[a] == Expected(st0, ns1, ls[..i + 1], h, a)
    {
      var base := if a < |st0| then st0[a] else NodeState([], "");
      AbsorbStep(base, ls, i, ns1[a].hostname, h);
      if a == |ns| {
        var x := Reversed(ls[i], h);
        AbsorbUntargeted(base, ls[..i], ns1[a].hostname, h);
        assert [x][..0] == [];
        assert MergeLinks([], [x]) == [x];
        ClassifyIdempotent(ls[i].capabilities);
      } else {
        assert ns1[a] == ns[a] && st[a] == Expected(st0, ns, ls[..i], h, a);
      }
    }
  }

  /** The snapshot of one node. */
  ghost function View(n: GNode): NodeView
    reads n
  {
    NodeView(n.hostname, n.direct, n.comp, n.links, n.deviceType, n.numNeighbors)
  }

  /** The snapshots of a list of nodes, position by position. */
  ghost function Views(ns: seq<GNode>): (vs: seq<NodeView>)
    reads ns
    ensures |vs| == |ns| && forall i :: 0 <= i < |ns| ==> vs[i] == View(ns[i])
  {
    seq(|ns|, i requires 0 <= i < |ns| reads ns => View(ns[i]))
  }

  /** Distinct hostnames, read off the snapshots. */
  lemma ViewsDistinct(ns: seq<GNode>)
    ensures DistinctHosts(ns) <==> UniqueNames(Views(ns))
  {
  }

  lemma ViewsAppend(ns: seq<GNode>, n: GNode)
    ensures Views(ns + [n]) == Views(ns) + [View(n)]
  {
  }

  /** Nodes that an operation did not touch keep their snapshots. */
  twostate lemma ViewsFrame(ns: seq<GNode>)
    requires forall n :: n in ns ==> unchanged(n)
    ensures Views(ns) == old(Views(ns))
  {
    assert forall i :: 0 <= i < |ns| ==> ns[i] in ns;
  }

  /** A node keeps its invariant exactly when its snapshot does. */
  lemma ViewValid(n: GNode)
    ensures n.Valid() <==> ValidView(View(n))
  {
  }

  class GGraph {
    /** The label of the graph; it plays no part in any operation. */
    const name: string
    var nodes: seq<GNode>

    /** No two nodes share a hostname. */
    ghost predicate Unique()
      reads this
    {
      DistinctHosts(nodes)
    }

    ghost predicate Valid()
      reads this, nodes
    {
      Unique() && forall i :: 0 <= i < |nodes| ==> nodes[i].Valid()
    }

    function Hostnames(): set<string>
      reads this
    {
      set i | 0 <= i < |nodes| :: nodes[i].hostname
    }

    /** The index of the first node with hostname `h`, or -1. */
    function IndexOf(h: string): (k: int)
      reads this
      ensures -1 <= k < |nodes|
      ensures k == -1 <==> h !in Hostnames()
      ensures k >= 0 ==> nodes[k].hostname == h && forall j :: 0 <= j < k ==> nodes[j].hostname != h
    {
      FirstIndex(nodes, h)
    }

    constructor (name: string)
      ensures Valid() && this.name == name && nodes == []
    {
      this.name := name;
      nodes := [];
    }

    /** The index of the first node with `hostname`, or -1. */
    method FindNodename(hostname: string) returns (idx: int)
      ensures idx == IndexOf(hostname)
    {
      var i := 0;
      while i < |nodes|
        invariant 0 <= i <= |nodes|
        invariant forall j :: 0 <= j < i ==> nodes[j].hostname != hostname
      {
        if nodes[i].hostname == hostname {
          return i;
        }
        i := i + 1;
      }
      return -1;
    }

    /** The hostnames of the nodes, in order. */
    function NodeNames(): (names: seq<string>)
      reads this
      ensures |names| == |nodes|
      ensures forall i :: 0 <= i < |nodes| ==> names[i] == nodes[i].hostname
    {
      seq(|nodes|, i requires 0 <= i < |nodes| reads this => nodes[i].hostname)
    }

    /** In a graph with unique hostnames the name list has no repetition and
        holds exactly the hostnames. */
    lemma NodeNamesDistinct()
      requires Unique()
      ensures forall i, j :: 0 <= i < j < |NodeNames()| ==> NodeNames()[i] != NodeNames()[j]
      ensures forall h :: h in NodeNames() <==> h in Hostnames()
    {
      var names := NodeNames();
      forall h | h in Hostnames() ensures h in names {
        var i :| 0 <= i < |nodes| && nodes[i].hostname == h;
        assert names[i] == h;
      }
    }

    /** The contents of every node, position by position. */
    ghost function State(): (st: seq<NodeState>)
      reads this, nodes
      ensures |st| == |nodes|
      ensures forall i :: 0 <= i < |nodes| ==> st[i] == NodeState(nodes[i].links, nodes[i].deviceType)
    {
      seq(|nodes|, i requires 0 <= i < |nodes| reads this, nodes => NodeState(nodes[i].links, nodes[i].deviceType))
    }

    /** Synthesise, for every link of a DIRECT node, an INDIRECT node for the
        neighbour holding the reversed link, and add it. */
    method AddIndirectNodes(node: GNode)
      requires Valid() && node in nodes
      modifies this, nodes
      ensures Valid()
      ensures |old(nodes)| <= |nodes| && forall i :: 0 <= i < |old(nodes)| ==> nodes[i] == old(nodes[i])
      ensures forall i :: |old(nodes)| <= i < |nodes| ==> fresh(nodes[i])
      ensures node.direct == Direct ==>
                forall l :: l in old(node.links) ==> l.remoteHostname in Hostnames()
      ensures forall l :: l in node.links ==> l in old(node.links) || l.remoteHostname == node.hostname
      ensures old(node.SelfLoopFree()) ==> node.links == old(node.links) && node.deviceType == old(node.deviceType)
      ensures node.direct == Indirect ==> nodes == old(nodes) && State() == old(State())
      // every node, old or appended, has absorbed the links pointing at it
      ensures node.direct == Direct ==> Propagated(old(State()), State(), nodes, old(node.links), node.hostname)
      // the appended nodes are INDIRECT and named by the links
      ensures forall i :: |old(nodes)| <= i < |nodes| ==>
                nodes[i].direct == Indirect && nodes[i].hostname in Targets(old(node.links))
      // a node no link points at keeps its state
      ensures forall i :: 0 <= i < |old(nodes)| && nodes[i].hostname !in Targets(old(node.links)) ==>
                State()[i] == old(State())[i]
      decreases if node.direct == Direct then 1 else 0, 2
    {
      if node.direct == Direct {
        var ls := node.links;
        var i := 0;
        ghost var p :| 0 <= p < |nodes| && nodes[p] == node;
        assert ls[..0] == [];
        while i < |ls|
          invariant 0 <= i <= |ls|
          invariant Valid() && node in nodes
          invariant |old(nodes)| <= |nodes| && forall k :: 0 <= k < |old(nodes)| ==> nodes[k] == old(nodes[k])
          invariant forall k :: |old(nodes)| <= k < |nodes| ==> fresh(nodes[k])
          invariant Targets(ls[..i]) <= Hostnames()
          invariant Propagated(old(State()), State(), nodes, ls[..i], node.hostname)
          invariant NamedBy(nodes, |old(nodes)|, ls[..i])
        {
          assert ls[i] in old(node.links);
          i := AddNeighbourAt(node, ls, i, old(State()), |old(nodes)|);
        }
        assert ls[..|ls|] == ls;
        forall l | l in ls ensures l.remoteHostname in Hostnames() {
          assert l.remoteHostname in Targets(ls);
        }
        assert State()[p] == Expected(old(State()), nodes, ls, node.hostname, p);
        AbsorbOwn(old(State())[p], ls, node.hostname);
        forall a | 0 <= a < |old(nodes)| && nodes[a].hostname !in Targets(ls)
          ensures State()[a] == old(State())[a]
        {
          assert State()[a] == Expected(old(State()), nodes, ls, node.hostname, a);
          AbsorbUntargeted(old(State())[a], ls, nodes[a].hostname, node.hostname);
        }
      }
    }

    /** Iteration `i` of add_indirect_nodes over the links `ls` of `node`:
        one link further, every node has absorbed the links pointing at it,
        every appended node is named by them, and all they name is present. */
    method AddNeighbourAt(node: GNode, ls: seq<Link>, i: int, ghost st0: seq<NodeState>, ghost lo: int) returns (j: int)
      requires Valid() && node in nodes && node.direct == Direct
      requires 0 <= i < |ls| && '.' !in ls[i].remoteHostname && 0 <= lo <= |nodes| && |st0| == lo
      requires Targets(ls[..i]) <= Hostnames()
      requires Propagated(st0, State(), nodes, ls[..i], node.hostname) && NamedBy(nodes, lo, ls[..i])
      modifies this, nodes
      ensures Valid() && node in nodes
      ensures |old(nodes)| <= |nodes| && forall k :: 0 <= k < |old(nodes)| ==> nodes[k] == old(nodes[k])
      ensures forall k :: |old(nodes)| <= k < |nodes| ==> fresh(nodes[k])
      ensures j == i + 1 && Targets(ls[..j]) <= Hostnames()
      ensures Propagated(st0, State(), nodes, ls[..j], node.hostname) && NamedBy(nodes, lo, ls[..j])
      decreases 1, 1
    {
      ghost var n0, st, k := nodes, State(), IndexOf(ls[i].remoteHostname);
      assert forall a :: 0 <= a < |n0| && a != k ==> n0[a].hostname != ls[i].remoteHostname;
      AddNeighbour(node, ls[i]);
      TargetsSnoc(ls, i);
      PropagatedStep(st0, st, n0, State(), nodes, ls, i, node.hostname, k);
      NamedByStep(n0, nodes, lo, ls, i, k);
      j := i + 1;
    }

    /** One step of add_indirect_nodes: the INDIRECT node for the far end of
        `link`, holding the reversed link and typed from the link's
        capabilities, is added to the graph. */
    method AddNeighbour(node: GNode, link: Link)
      requires Valid() && node in nodes && node.direct == Direct && '.' !in link.remoteHostname
      modifies this, nodes
      ensures Valid() && node in nodes
      ensures |old(nodes)| <= |nodes| && forall i :: 0 <= i < |old(nodes)| ==> nodes[i] == old(nodes[i])
      ensures forall i :: |old(nodes)| <= i < |nodes| ==> fresh(nodes[i])
      ensures old(Hostnames()) + {link.remoteHostname} <= Hostnames()
      ensures forall l :: l in node.links ==> l in old(node.links) || l.remoteHostname == node.hostname
      ensures link.remoteHostname != node.hostname ==>
                node.links == old(node.links) && node.deviceType == old(node.deviceType)
      // a new neighbour is appended holding the reversed link; a neighbour
      // already present absorbs it
      ensures var k, rev, t := old(IndexOf(link.remoteHostname)), Reversed(link, node.hostname), NextType("", link.capabilities);
              if k == -1 then
                |nodes| == |old(nodes)| + 1 && nodes[|old(nodes)|].hostname == link.remoteHostname &&
                nodes[|old(nodes)|].direct == Indirect && State() == old(State()) + [NodeState([rev], t)]
              else
                nodes == old(nodes) &&
                State() == old(State())[k := NodeState(MergeLinks(old(nodes[k].links), [rev]),
                                                       NextType(old(nodes[k].deviceType), t))]
      decreases 1, 0
    {
      var gn := NeighbourOf(node, link);
      ghost var k :| 0 <= k < |nodes| && nodes[k] == node;
      ghost var st := State();
      ghost var g := IndexOf(gn.hostname);
      ghost var gl, gd := gn.links, gn.deviceType;
      assert st == old(State()) && g == old(IndexOf(link.remoteHostname));
      assert gl == [gl[0]];
      AddNode(gn);
      assert State()[k] == NodeState(node.links, node.deviceType);
      if g == -1 {
        assert State()[k] == st[k];
      } else if g != k {
        assert State()[k] == st[k];
      } else {
        assert node.links == MergeLinks(st[k].links, gl);
      }
    }

    /** The INDIRECT node add_indirect_nodes builds for the far end of `link`
        of `node`. */
    static method NeighbourOf(node: GNode, link: Link) returns (gn: GNode)
      requires '.' !in link.remoteHostname && '.' !in node.hostname
      ensures fresh(gn) && gn.Valid()
      ensures gn.hostname == link.remoteHostname && gn.direct == Indirect
      ensures |gn.links| == 1 && gn.links[0].remoteHostname == node.hostname
      ensures gn.links[0].localIfname == IfPart(link.remoteIfname) && gn.links[0].remoteIfname == IfPart(link.localIfname)
      ensures gn.links[0].capabilities == "" && gn.links[0].comp == Unchanged && !gn.links[0].drawn
      ensures gn.links == [Reversed(link, node.hostname)]
      ensures gn.deviceType == NextType("", link.capabilities)
    {
      HostPartOfPlain(link.remoteHostname);
      HostPartOfPlain(node.hostname);
      gn := new GNode(link.remoteHostname, Indirect);
      // the reversed link, as the neighbour sees it
      gn.AddLinkStr(link.remoteIfname, link.localIfname, node.hostname, "");
      gn.SetDeviceType(link.capabilities);
    }

    /** add_node for a hostname not yet in the graph: append the node, then
        its indirect neighbours. */
    method InsertNew(node: GNode)
      requires Valid() && node.Valid() && node.hostname !in Hostnames()
      modifies this, nodes, node
      ensures Valid()
      ensures |old(nodes)| < |nodes| && nodes[|old(nodes)|] == node
      ensures forall i :: 0 <= i < |old(nodes)| ==> nodes[i] == old(nodes[i])
      ensures forall i :: |old(nodes)| < i < |nodes| ==> fresh(nodes[i])
      ensures node.direct == Direct ==> forall l :: l in node.links ==> l.remoteHostname in Hostnames()
      ensures node.direct == Direct ==> forall l :: l in old(node.links) ==> l.remoteHostname in Hostnames()
      ensures forall l :: l in node.links ==> l in old(node.links) || l.remoteHostname == node.hostname
      ensures old(node.SelfLoopFree()) ==> node.links == old(node.links) && node.deviceType == old(node.deviceType)
      ensures node.direct == Indirect ==>
                nodes == old(nodes) + [node] && State() == old(State()) + [NodeState(old(node.links), old(node.deviceType))]
      // the node and every other node have absorbed the links pointing at them
      ensures node.direct == Direct ==>
                Propagated(old(State()) + [NodeState(old(node.links), old(node.deviceType))], State(), nodes,
                           old(node.links), node.hostname)
      ensures forall i :: |old(nodes)| < i < |nodes| ==>
                nodes[i].direct == Indirect && nodes[i].hostname in Targets(old(node.links))
      ensures forall i :: 0 <= i < |old(nodes)| && nodes[i].hostname !in Targets(old(node.links)) ==>
                State()[i] == old(State())[i]
      decreases if node.direct == Direct then 1 else 0, 3
    {
      ghost var st := State();
      nodes := nodes + [node];
      assert State() == st + [NodeState(node.links, node.deviceType)];
      AddIndirectNodes(node);
      HostPartOfPlain(node.hostname);
    }

    /** add_node for a DIRECT node whose hostname is held by an INDIRECT node:
        the direct node takes over the device type and the place, then its
        indirect neighbours are added. */
    method ReplaceIndirect(k: int, node: GNode)
      requires Valid() && node.Valid() && node.direct == Direct
      requires 0 <= k < |nodes| && nodes[k].hostname == node.hostname && nodes[k].direct == Indirect
      modifies this, nodes, node
      ensures Valid()
      ensures |old(nodes)| <= |nodes| && nodes[k] == node
      ensures forall i :: 0 <= i < |old(nodes)| && i != k ==> nodes[i] == old(nodes[i])
      ensures forall i :: |old(nodes)| <= i < |nodes| ==> fresh(nodes[i])
      ensures forall l :: l in node.links ==> l.remoteHostname in Hostnames()
      ensures forall l :: l in old(node.links) ==> l.remoteHostname in Hostnames()
      ensures old(node.SelfLoopFree()) ==>
                node.links == old(node.links) &&
                node.deviceType == if old(nodes[k].deviceType) != "" then old(nodes[k].deviceType) else old(node.deviceType)
      // the node, holding the type it took over, and every other node have
      // absorbed the links pointing at them
      ensures Propagated(old(State())[k := NodeState(old(node.links), NextType(old(node.deviceType), old(nodes[k].deviceType)))],
                         State(), nodes, old(node.links), node.hostname)
      ensures forall i :: |old(nodes)| <= i < |nodes| ==>
                nodes[i].direct == Indirect && nodes[i].hostname in Targets(old(node.links))
      ensures forall i :: 0 <= i < |old(nodes)| && i != k && nodes[i].hostname !in Targets(old(node.links)) ==>
                State()[i] == old(State())[i]
      decreases 1, 3
    {
      assert node !in nodes;
      // keep the device type learnt from the neighbours' view
      node.SetDeviceType(nodes[k].deviceType);
      NextTypeOfStable(old(node.deviceType), nodes[k].deviceType);
      nodes := nodes[k := node];
      assert nodes[k] == node;
      assert State() == old(State())[k := NodeState(old(node.links), NextType(old(node.deviceType), old(nodes[k].deviceType)))];
      AddIndirectNodes(node);
      HostPartOfPlain(node.hostname);
    }

    /** add_node when the hostname is present and no replacement applies: the
        existing node absorbs the device type and the links it lacks. */
    method MergeExisting(k: int, node: GNode)
      requires Valid() && node.Valid()
      requires 0 <= k < |nodes| && nodes[k].hostname == node.hostname
      modifies nodes[k]
      ensures Valid()
      ensures State() == old(State())[k := NodeState(MergeLinks(old(nodes[k].links), old(node.links)),
                                                     NextType(old(nodes[k].deviceType), old(node.deviceType)))]
    {
      var existing := nodes[k];
      existing.SetDeviceType(node.deviceType);
      existing.Append(node);
      assert forall j :: 0 <= j < |nodes| && j != k ==> nodes[j] != existing;
    }

    /** `node` needs no adding: it is in the graph, or the node holding its
        hostname is kept by add_node (no replacement applies) and already
        holds its links and its device type. */
    ghost predicate Absorbed(node: GNode)
      reads this, nodes, node
    {
      node in nodes ||
      (var k := IndexOf(node.hostname);
       k >= 0 && !(nodes[k].direct == Indirect && node.direct == Direct) &&
       MergeLinks(nodes[k].links, node.links) == nodes[k].links &&
       NextType(nodes[k].deviceType, node.deviceType) == nodes[k].deviceType)
    }

    /** Merge one node into the graph. */
    method AddNode(node: GNode)
      requires Valid() && node.Valid()
      modifies this, nodes, node
      ensures Valid()
      // never removes a node; only a DIRECT node replaces an INDIRECT one
      ensures |old(nodes)| <= |nodes|
      ensures forall i :: 0 <= i < |old(nodes)| ==>
                nodes[i] == old(nodes[i]) ||
                (nodes[i] == node && node.direct == Direct && old(nodes[i]).direct == Indirect &&
                 old(nodes[i]).hostname == node.hostname)
      ensures forall i :: |old(nodes)| <= i < |nodes| ==> nodes[i] == node || fresh(nodes[i])
      ensures old(Hostnames()) + {node.hostname} <= Hostnames()
      // a DIRECT node always ends up DIRECT in the graph
      ensures node.direct == Direct ==> nodes[IndexOf(node.hostname)].direct == Direct
      // a DIRECT node that is inserted has all its neighbours in the graph
      ensures var k := old(IndexOf(node.hostname));
              node.direct == Direct && (k == -1 || old(nodes[k]).direct == Indirect) ==>
                node in nodes && forall l :: l in node.links ==> l.remoteHostname in Hostnames()
      // on replacement the DIRECT node takes the INDIRECT node's device type
      ensures var k := old(IndexOf(node.hostname));
              k >= 0 && old(nodes[k]).direct == Indirect && node.direct == Direct ==>
                nodes[k] == node &&
                (old(node.SelfLoopFree()) ==>
                   node.links == old(node.links) &&
                   node.deviceType == if old(nodes[k].deviceType) != "" then old(nodes[k].deviceType) else old(node.deviceType))
      // otherwise the existing node absorbs the device type and the new links
      ensures var k := old(IndexOf(node.hostname));
              k >= 0 && !(old(nodes[k]).direct == Indirect && node.direct == Direct) ==>
                nodes == old(nodes) &&
                State() == old(State())[k := NodeState(MergeLinks(old(nodes[k].links), old(node.links)),
                                                       NextType(old(nodes[k].deviceType), old(node.deviceType)))]
      // a hostname not yet held is appended
      ensures old(IndexOf(node.hostname)) == -1 ==> |old(nodes)| < |nodes| && nodes[|old(nodes)|] == node
      // a new INDIRECT node is appended and touches no other node
      ensures old(IndexOf(node.hostname)) == -1 && node.direct == Indirect ==>
                nodes == old(nodes) + [node] && State() == old(State()) + [NodeState(old(node.links), old(node.deviceType))]
      // an inserted DIRECT node, and every other node, have absorbed the links pointing at them
      ensures var k := old(IndexOf(node.hostname));
              node.direct == Direct && (k == -1 || old(nodes[k]).direct == Indirect) ==>
                (forall l :: l in old(node.links) ==> l.remoteHostname in Hostnames()) &&
                Propagated(if k == -1 then old(State()) + [NodeState(old(node.links), old(node.deviceType))]
                           else old(State())[k := NodeState(old(node.links), NextType(old(node.deviceType), old(nodes[k].deviceType)))],
                           State(), nodes, old(node.links), node.hostname)
      ensures old(IndexOf(node.hostname)) == -1 && old(node.SelfLoopFree()) ==>
                node.links == old(node.links) && node.deviceType == old(node.deviceType)
      // the nodes appended besides `node` are INDIRECT and named by its links
      ensures forall i :: |old(nodes)| <= i < |nodes| && nodes[i] != node ==>
                nodes[i].direct == Indirect && nodes[i].hostname in Targets(old(node.links))
      // a node of another name that no link of `node` points at keeps its state
      ensures forall i :: 0 <= i < |old(nodes)| && nodes[i].hostname != node.hostname &&
                          nodes[i].hostname !in Targets(old(node.links)) ==>
                State()[i] == old(State())[i]
      // a merged node is left as it was
      ensures var k := old(IndexOf(node.hostname));
              k >= 0 && !(old(nodes[k]).direct == Indirect && node.direct == Direct) && !old(node in nodes) ==>
                unchanged(node)
      // afterwards the node needs no adding, and adding a node that needs none changes nothing
      ensures node.Valid() && Absorbed(node)
      ensures old(Absorbed(node)) ==> nodes == old(nodes) && State() == old(State())
      decreases if node.direct == Direct then 1 else 0, 5
    {
      var idx := FindNodename(node.hostname);
      assert idx == old(IndexOf(node.hostname)) && nodes == old(nodes) && State() == old(State());
      if idx == -1 {
        InsertNew(node);
      } else {
        AddFound(idx, node);
      }
    }

    /** add_node when the hostname is already held, at `idx`; the contract
        is add_node's for that case. */
    method AddFound(idx: int, node: GNode)
      requires Valid() && node.Valid() && 0 <= idx == IndexOf(node.hostname)
      modifies this, nodes, node
      ensures Valid()
      // never removes a node; only a DIRECT node replaces an INDIRECT one
      ensures |old(nodes)| <= |nodes|
      ensures forall i :: 0 <= i < |old(nodes)| ==>
                nodes[i] == old(nodes[i]) ||
                (nodes[i] == node && node.direct == Direct && old(nodes[i]).direct == Indirect &&
                 old(nodes[i]).hostname == node.hostname)
      ensures forall i :: |old(nodes)| <= i < |nodes| ==> nodes[i] == node || fresh(nodes[i])
      ensures old(Hostnames()) + {node.hostname} <= Hostnames()
      // a DIRECT node always ends up DIRECT in the graph
      ensures node.direct == Direct ==> nodes[IndexOf(node.hostname)].direct == Direct
      // a DIRECT node that is inserted has all its neighbours in the graph
      ensures var k := old(IndexOf(node.hostname));
              node.direct == Direct && old(nodes[k]).direct == Indirect ==>
                node in nodes && forall l :: l in node.links ==> l.remoteHostname in Hostnames()
      // on replacement the DIRECT node takes the INDIRECT node's device type
      ensures var k := old(IndexOf(node.hostname));
              k >= 0 && old(nodes[k]).direct == Indirect && node.direct == Direct ==>
                nodes[k] == node &&
                (old(node.SelfLoopFree()) ==>
                   node.links == old(node.links) &&
                   node.deviceType == if old(nodes[k].deviceType) != "" then old(nodes[k].deviceType) else old(node.deviceType))
      // otherwise the existing node absorbs the device type and the new links
      ensures var k := old(IndexOf(node.hostname));
              k >= 0 && !(old(nodes[k]).direct == Indirect && node.direct == Direct) ==>
                nodes == old(nodes) &&
                State() == old(State())[k := NodeState(MergeLinks(old(nodes[k].links), old(node.links)),
                                                       NextType(old(nodes[k].deviceType), old(node.deviceType)))]
      // an inserted DIRECT node, and every other node, have absorbed the links pointing at them
      ensures var k := old(IndexOf(node.hostname));
              node.direct == Direct && old(nodes[k]).direct == Indirect ==>
                (forall l :: l in old(node.links) ==> l.remoteHostname in Hostnames()) &&
                Propagated(old(State())[k := NodeState(old(node.links), NextType(old(node.deviceType), old(nodes[k].deviceType)))],
                           State(), nodes, old(node.links), node.hostname)
      // the nodes appended besides `node` are INDIRECT and named by its links
      ensures forall i :: |old(nodes)| <= i < |nodes| && nodes[i] != node ==>
                nodes[i].direct == Indirect && nodes[i].hostname in Targets(old(node.links))
      // a node of another name that no link of `node` points at keeps its state
      ensures forall i :: 0 <= i < |old(nodes)| && nodes[i].hostname != node.hostname &&
                          nodes[i].hostname !in Targets(old(node.links)) ==>
                State()[i] == old(State())[i]
      // a merged node is left as it was
      ensures var k := old(IndexOf(node.hostname));
              k >= 0 && !(old(nodes[k]).direct == Indirect && node.direct == Direct) && !old(node in nodes) ==>
                unchanged(node)
      // afterwards the node needs no adding, and adding a node that needs none changes nothing
      ensures node.Valid() && Absorbed(node)
      ensures old(Absorbed(node)) ==> nodes == old(nodes) && State() == old(State())
      decreases if node.direct == Direct then 1 else 0, 4
    {
      ghost var inGraph, absorbed := node in nodes, Absorbed(node);
      if nodes[idx].direct == Indirect && node.direct == Direct {
        assert !inGraph && !absorbed;
        ReplaceIndirect(idx, node);
      } else {
        MergeExisting(idx, node);
        if inGraph {
          assert nodes[idx] == node;
          MergeLinksSelf(old(node.links));
          NextTypeOfStable(old(node.deviceType), old(node.deviceType));
          assert State() == old(State());
        } else {
          assert nodes[idx] != node;
          MergeLinksIdempotent(old(nodes[idx].links), old(node.links));
          NextTypeIdempotent(old(nodes[idx].deviceType), old(node.deviceType));
          assert old(State())[idx] == NodeState(old(nodes[idx].links), old(nodes[idx].deviceType));
        }
      }
    }

    /** The snapshots carry the graph's hostnames. */
    lemma ViewsHostnames()
      ensures HostnamesOf(Views(nodes)) == Hostnames()
    {
    }

    /** The graph invariant, read off the snapshots. */
    lemma ValidByViews()
      ensures Valid() <==> UniqueNames(Views(nodes)) && AllValid(Views(nodes))
    {
      var vs := Views(nodes);
      assert Unique() <==> UniqueNames(vs);
      forall i | 0 <= i < |nodes| ensures nodes[i].Valid() <==> ValidView(vs[i]) {
        ViewValid(nodes[i]);
      }
    }

    /** A graph with distinct hostnames whose snapshots keep the node
        invariant is valid. */
    lemma ValidFrom(vs: seq<NodeView>)
      requires DistinctHosts(nodes) && Views(nodes) == vs && AllValid(vs)
      ensures Valid()
    {
      ViewsDistinct(nodes);
      ValidByViews();
    }

    /** Looking a hostname up in the snapshots finds the node find_nodename
        finds. */
    lemma ViewsIndexOf(h: string)
      ensures FindView(Views(nodes), h) == IndexOf(h)
    {
      var k, m := FindView(Views(nodes), h), IndexOf(h);
      if k != -1 && m != -1 {
        assert !(k < m) && !(m < k);
      }
    }

    /** Tag one node of the graph and all its links. */
    method TagNode(i: int, c: Comp)
      requires 0 <= i < |nodes| && DistinctHosts(nodes)
      modifies nodes[i]
      ensures Views(nodes) == old(Views(nodes))[i := Tagged(old(View(nodes[i])), c)]
    {
      var node := nodes[i];
      node.SetComp(c);
      assert forall j :: 0 <= j < |nodes| && j != i ==> nodes[j] != node;
    }

    /** Tag node `i` of `from` and append it here; the nodes of `keep` are
        not touched. */
    method MoveTagged(from: GGraph, i: int, c: Comp, ghost keep: seq<GNode>)
      requires this != from && 0 <= i < |from.nodes| && DistinctHosts(from.nodes)
      requires from.nodes[i].hostname !in HostnamesOf(Views(nodes)) && from.nodes[i] !in keep
      modifies this, from.nodes[i]
      ensures nodes == old(nodes) + [from.nodes[i]]
      ensures Views(from.nodes) == old(Views(from.nodes))[i := Tagged(old(View(from.nodes[i])), c)]
      ensures Views(nodes) == old(Views(nodes)) + [Tagged(old(View(from.nodes[i])), c)]
      ensures Views(keep) == old(Views(keep))
    {
      var node := from.nodes[i];
      ghost var before, rv := nodes, Views(nodes);
      assert forall j :: 0 <= j < |nodes| ==> rv[j].hostname == nodes[j].hostname;
      label Before:
      from.TagNode(i, c);
      ViewsFrame@Before(before);
      ViewsFrame@Before(keep);
      nodes := nodes + [node];
      ViewsAppend(before, node);
    }

    /** One pass of the first two loops of compare, at node `i` of `from`:
        `vs`, `ws` and `rs` are the snapshots of `from`, `other` and this
        graph before the loop. */
    method TagStep(from: GGraph, other: GGraph, c: Comp, i: int,
                   ghost vs: seq<NodeView>, ghost ws: seq<NodeView>, ghost rs: seq<NodeView>)
      requires this != from && this != other && DistinctHosts(from.nodes) && UniqueNames(vs)
      requires 0 <= i < |from.nodes| == |vs|
      requires forall x :: x in other.nodes ==> x.hostname in HostnamesOf(ws)
      requires HostnamesOf(rs) <= HostnamesOf(ws)
      requires Views(from.nodes) == TagWhere(vs, HostnamesOf(ws), c, i) && Views(other.nodes) == ws
      requires Views(nodes) == rs + OnlyIn(vs[..i], ws, c)
      modifies this, from.nodes[i]
      ensures Views(from.nodes) == TagWhere(vs, HostnamesOf(ws), c, i + 1) && Views(other.nodes) == ws
      ensures Views(nodes) == rs + OnlyIn(vs[..i + 1], ws, c)
      ensures nodes == old(nodes) || nodes == old(nodes) + [from.nodes[i]]
    {
      var node := from.nodes[i];
      TagPass(vs, ws, rs, c, i);
      assert View(node) == vs[i];
      var idx := other.IndexOf(node.hostname);
      other.ViewsIndexOf(node.hostname);
      if idx == -1 {
        MoveTagged(from, i, c, other.nodes);
      }
    }

    /** The first two loops of compare: every node of `from` whose hostname
        `other` lacks is tagged `c` (with all its links) and appended here. */
    method AddTagged(from: GGraph, other: GGraph, c: Comp)
      requires this != from && this != other && DistinctHosts(from.nodes)
      requires HostnamesOf(Views(nodes)) <= HostnamesOf(Views(other.nodes))
      modifies this, from.nodes
      ensures Views(nodes) == old(Views(nodes)) + OnlyIn(old(Views(from.nodes)), old(Views(other.nodes)), c)
      ensures Views(from.nodes) == TagWhere(old(Views(from.nodes)), HostnamesOf(old(Views(other.nodes))), c, |old(Views(from.nodes))|)
      ensures Views(other.nodes) == old(Views(other.nodes))
      ensures forall x :: x in nodes ==> x in old(nodes) || x in from.nodes
    {
      ghost var vs, ws, rs := Views(from.nodes), Views(other.nodes), Views(nodes);
      ghost var start := nodes;
      ViewsDistinct(from.nodes);
      forall x | x in other.nodes ensures x.hostname in HostnamesOf(ws) {
        var j :| 0 <= j < |other.nodes| && other.nodes[j] == x;
        assert ws[j].hostname == x.hostname;
      }
      var i := 0;
      while i < |from.nodes|
        invariant 0 <= i <= |from.nodes|
        invariant Views(from.nodes) == TagWhere(vs, HostnamesOf(ws), c, i) && Views(other.nodes) == ws
        invariant Views(nodes) == rs + OnlyIn(vs[..i], ws, c)
        invariant forall x :: x in nodes ==> x in start || x in from.nodes
      {
        TagStep(from, other, c, i, vs, ws, rs);
        i := i + 1;
      }
      assert vs[..i] == vs;
    }

    /** One pass of the last loop of compare, at node `i` of `from`: `fv`,
        `ov` and `rs` are the snapshots of `from`, `other` and this graph
        before the loop. */
    method CompareStep(from: GGraph, other: GGraph, i: int,
                       ghost fv: seq<NodeView>, ghost ov: seq<NodeView>, ghost rs: seq<NodeView>)
      requires this != from && this != other && 0 <= i < |from.nodes| == |fv|
      requires Views(from.nodes) == fv && Views(other.nodes) == ov && AllValid(fv) && AllValid(ov)
      requires Views(nodes) == rs + Common(fv[..i], ov)
      modifies this
      ensures Views(from.nodes) == fv && Views(other.nodes) == ov
      ensures Views(nodes) == rs + Common(fv[..i + 1], ov)
      ensures forall x :: x in nodes ==> x in old(nodes) || fresh(x)
    {
      var h := from.nodes[i].hostname;
      CommonPass(fv, ov, rs, i);
      var idx := other.IndexOf(h);
      other.ViewsIndexOf(h);
      if idx != -1 {
        ViewValid(from.nodes[i]);
        ViewValid(other.nodes[idx]);
        ghost var before := nodes;
        label Before:
        var n := from.nodes[i].Compare(other.nodes[idx]);
        nodes := nodes + [n];
        ViewsFrame@Before(from.nodes);
        ViewsFrame@Before(other.nodes);
        ViewsFrame@Before(before);
        ViewsAppend(before, n);
      }
    }

    /** The last loop of compare: for every hostname of `from` that `other`
        also holds, the node comparison is appended here. */
    method AddCompared(from: GGraph, other: GGraph)
      requires this != from && this != other
      requires AllValid(Views(from.nodes)) && AllValid(Views(other.nodes))
      modifies this
      ensures Views(nodes) == old(Views(nodes)) + Common(old(Views(from.nodes)), old(Views(other.nodes)))
      ensures forall x :: x in nodes ==> x in old(nodes) || fresh(x)
      ensures old(from.Valid()) ==> from.Valid()
      ensures old(other.Valid()) ==> other.Valid()
    {
      ghost var fv, ov, rs := Views(from.nodes), Views(other.nodes), Views(nodes);
      ghost var start := nodes;
      var i := 0;
      while i < |from.nodes|
        invariant 0 <= i <= |from.nodes|
        invariant Views(from.nodes) == fv && Views(other.nodes) == ov
        invariant Views(nodes) == rs + Common(fv[..i], ov)
        invariant forall x :: x in nodes ==> x in start || fresh(x)
      {
        CompareStep(from, other, i, fv, ov, rs);
        i := i + 1;
      }
      assert fv[..i] == fv;
    }

    /** The first two phases of compare into this empty result: the nodes
        only in `a` tagged "added", then the nodes only in `b` (read after
        the first phase) tagged "removed". */
    method AddBothTagged(a: GGraph, b: GGraph, ghost vs: seq<NodeView>, ghost ws: seq<NodeView>)
      requires this != a && this != b && DistinctHosts(a.nodes) && DistinctHosts(b.nodes)
      requires Views(a.nodes) == vs && Views(b.nodes) == ws && Views(nodes) == []
      requires var vs1 := TagWhere(vs, HostnamesOf(ws), Added, |vs|);
        HostnamesOf(OnlyIn(vs, ws, Added)) <= HostnamesOf(vs1) &&
        AllValid(vs1) && AllValid(TagWhere(ws, HostnamesOf(vs1), Removed, |ws|))
      modifies this, a.nodes, b.nodes
      ensures var vs1 := TagWhere(vs, HostnamesOf(ws), Added, |vs|);
        Views(a.nodes) == vs1 && Views(b.nodes) == TagWhere(ws, HostnamesOf(vs1), Removed, |ws|) &&
        Views(nodes) == OnlyIn(vs, ws, Added) + OnlyIn(ws, vs1, Removed)
      ensures a.Valid() && b.Valid()
    {
      AddTagged(a, b, Added);
      ghost var vs1 := TagWhere(vs, HostnamesOf(ws), Added, |vs|);
      ghost var mid := Views(nodes);
      assert mid == OnlyIn(vs, ws, Added) && Views(a.nodes) == vs1 && Views(b.nodes) == ws;
      AddTagged(b, a, Removed);
      assert Views(nodes) == mid + OnlyIn(ws, vs1, Removed);
      a.ValidFrom(vs1);
      b.ValidFrom(TagWhere(ws, HostnamesOf(vs1), Removed, |ws|));
    }

    /** Compare this (newer) graph with `g` (older): the result holds the
        nodes only here tagged "added", the nodes only in `g` tagged
        "removed", and a fresh comparison node for every common hostname.
        The tagged nodes are this graph's and `g`'s own node objects (see
        AddTagged). */
    method Compare(g: GGraph) returns (res: GGraph)
      requires Valid() && g.Valid()
      modifies nodes, g.nodes
      ensures fresh(res) && res.Valid()
      ensures Views(res.nodes) == DiffViews(old(Views(nodes)), old(Views(g.nodes)))
      // tagging the inputs' nodes in place keeps both graphs valid
      ensures Valid() && g.Valid()
    {
      ghost var vs, ws := Views(nodes), Views(g.nodes);
      ValidByViews();
      g.ValidByViews();
      ComparePhases(vs, ws);
      res := new GGraph("---COMPARISON RESULT---");
      res.AddBothTagged(this, g, vs, ws);
      res.AddCompared(this, g);
      res.ValidByViews();
    }

    /** The node loop of draw: a statement per node with the icon of its
        device type in the colour of its tag, or None when a device type
        has no icon. */
    method NodeRecords() returns (recs: Option<seq<NodeRecord>>)
      ensures recs.None? <==> !AllIcons(Views(nodes))
      ensures recs.Some? ==> Records(Views(nodes), recs.value)
    {
      ghost var vs := Views(nodes);
      var out := [];
      var i := 0;
      while i < |nodes|
        invariant 0 <= i <= |nodes|
        invariant Records(vs[..i], out) && AllIcons(vs[..i])
      {
        var node := nodes[i];
        var color := Blue;
        if node.comp == Added {
          color := Green;
        } else if node.comp == Removed {
          color := Red;
        }
        if node.deviceType !in DevtypeFiles {
          return None;
        }
        out := out + [NodeRecord(node.hostname, DevtypeFiles[node.deviceType] + "_" + ColorName(color) + ".png")];
        i := i + 1;
      }
      assert vs[..i] == vs;
      return Some(out);
    }

    /** `link.drawn = True` for link `j` of node `i`. */
    method MarkOwn(i: int, j: int, ghost pos: map<GNode, int>)
      requires Indexed(nodes, pos) && 0 <= i < |nodes| && 0 <= j < |nodes[i].links|
      modifies nodes[i]
      ensures Views(nodes) == MarkDrawn(old(Views(nodes)), i, j)
    {
      var node := nodes[i];
      node.links := node.links[j := node.links[j].SetDrawn(true)];
      assert forall k :: 0 <= k < |nodes| && k != i ==> nodes[k] != node;
    }

    /** set_link_drawn on the node at `k`, seen from `hostname`. */
    method MarkFar(k: int, link: Link, hostname: string, ghost pos: map<GNode, int>) returns (l2: Option<Link>)
      requires Indexed(nodes, pos) && 0 <= k < |nodes|
      modifies nodes[k]
      ensures var vs := old(Views(nodes));
        var m := ReciprocalIndex(vs[k].links, link, hostname);
        if m == -1 then l2 == None && Views(nodes) == vs
        else l2 == Some(vs[k].links[m].SetDrawn(true)) && Views(nodes) == MarkDrawn(vs, k, m)
    {
      var far := nodes[k];
      l2 := far.SetLinkDrawn(link, hostname);
      assert forall i :: 0 <= i < |nodes| && i != k ==> nodes[i] != far;
    }

    /** One iteration of the edge loop of draw, at link `j` of node `i`. */
    method DrawLink(i: int, j: int, edges: seq<Edge>, ghost pos: map<GNode, int>) returns (out: seq<Edge>)
      requires Indexed(nodes, pos) && 0 <= i < |nodes| && 0 <= j < |nodes[i].links|
      modifies nodes
      ensures Scan(Views(nodes), out) == Visit(Scan(old(Views(nodes)), edges), i, j)
    {
      var node := nodes[i];
      var link := node.links[j];
      if link.drawn {
        return edges;
      }
      ghost var vs := Views(nodes);
      ViewsIndexOf(link.remoteHostname);
      MarkOwn(i, j, pos);
      var f := FindNodename(link.remoteHostname);
      var k := if f == -1 then |nodes| - 1 else f;
      assert k == FarEnd(vs, link.remoteHostname);
      MarkKeepsPartner(vs, i, j, k);
      var far := nodes[k];
      var l2 := MarkFar(k, link, node.hostname, pos);
      var eComp := Unchanged;
      if link.comp != Unchanged {
        eComp := link.comp;
      } else if l2.Some? && l2.value.comp != Unchanged {
        eComp := l2.value.comp;
      }
      var color := Blue;
      if eComp == Added {
        color := Green;
      } else if eComp == Removed {
        color := Red;
      }
      out := edges + [Edge(node.hostname, far.hostname, color, link.remoteIfname, link.localIfname)];
      VisitIs(Scan(vs, edges), i, j);
    }

    /** The inner loop of draw, over the links of node `i`. */
    method DrawNode(i: int, edges: seq<Edge>, ghost pos: map<GNode, int>) returns (out: seq<Edge>)
      requires Indexed(nodes, pos) && 0 <= i < |nodes|
      modifies nodes
      ensures var s := Scan(old(Views(nodes)), edges);
        Scan(Views(nodes), out) == ScanNode(s, i, |s.views[i].links|)
    {
      ghost var s := Scan(Views(nodes), edges);
      out := edges;
      var n := |nodes[i].links|;
      var j := 0;
      while j < n
        invariant 0 <= j <= n == |s.views[i].links|
        invariant Scan(Views(nodes), out) == ScanNode(s, i, j)
      {
        ScanNodeStep(s, i, j);
        out := DrawLink(i, j, out, pos);
        j := j + 1;
      }
    }

    /** The edge loops of draw. */
    method DrawEdges(ghost pos: map<GNode, int>) returns (edges: seq<Edge>)
      requires Indexed(nodes, pos)
      modifies nodes
      ensures Scan(Views(nodes), edges) == DrawScan(old(Views(nodes)))
    {
      ghost var s0 := Scan(Views(nodes), []);
      edges := [];
      for i := 0 to |nodes|
        invariant Scan(Views(nodes), edges) == ScanAll(s0, i)
      {
        ScanAllStep(s0, i);
        edges := DrawNode(i, edges, pos);
      }
    }

    /** draw: the node statements, then every link not yet drawn becomes an
        edge and is marked drawn together with its reciprocal link at the
        far end. */
    method Draw() returns (pic: Option<Picture>)
      requires Unique()
      modifies nodes
      ensures pic.None? <==> !AllIcons(old(Views(nodes)))
      ensures pic.None? ==> Views(nodes) == old(Views(nodes))
      ensures pic.Some? ==> Records(old(Views(nodes)), pic.value.nodes)
      ensures pic.Some? ==> Scan(Views(nodes), pic.value.edges) == DrawScan(old(Views(nodes)))
    {
      var recs := NodeRecords();
      if recs.None? {
        return None;
      }
      IndexedPositions(nodes);
      var edges := DrawEdges(Positions(nodes));
      pic := Some(Picture(recs.value, edges));
    }
  }
}
