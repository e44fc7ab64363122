/** The graph-level diff of GGraph.compare, stated on snapshots of nodes:
    nodes only in the newer graph are tagged "added", nodes only in the
    older graph "removed" (both with all their links), and nodes in both
    are compared link by link. */
module Diffs {
  import opened Links
  import opened Nodes

  /** What a node holds at one moment. */
  datatype NodeView = NodeView(hostname: string, direct: Origin, comp: Comp, links: seq<Link>,
                               deviceType: string, numNeighbors: nat)

  /** GNode.set_comp on a snapshot: the node and every link get `c`. */
  function Tagged(v: NodeView, c: Comp): (r: NodeView)
    ensures r.comp == c && r.hostname == v.hostname && r.direct == v.direct && r.deviceType == v.deviceType
    ensures r.numNeighbors == v.numNeighbors && |r.links| == |v.links|
    ensures forall b :: 0 <= b < |v.links| ==> r.links[b].Key() == v.links[b].Key() && r.links[b].comp == c
  {
    v.(comp := c, links := TagAll(v.links, c))
  }

  /** GNode.compare on snapshots: the result keeps the first node's name,
      origin and type and is itself untagged. */
  function CompareView(v: NodeView, w: NodeView): (r: NodeView)
    ensures r.hostname == v.hostname && r.direct == v.direct && r.deviceType == v.deviceType
    ensures r.comp == Unchanged && r.numNeighbors == |r.links|
  {
    var ls := CompareLinks(v.links, w.links);
    NodeView(v.hostname, v.direct, Unchanged, ls, v.deviceType, |ls|)
  }

  /** A snapshot of a node that keeps GNode's invariant. */
  predicate ValidView(v: NodeView)
  {
    WellFormed(v.hostname, v.numNeighbors, v.links, v.deviceType)
  }

  predicate AllValid(vs: seq<NodeView>)
  {
    forall i :: 0 <= i < |vs| ==> ValidView(vs[i])
  }

  /** Tagging keeps the invariant. */
  lemma TaggedValid(v: NodeView, c: Comp)
    requires ValidView(v)
    ensures ValidView(Tagged(v, c))
  {
    var ls := TagAll(v.links, c);
    forall l | l in ls ensures '.' !in l.remoteHostname {
      var j :| 0 <= j < |ls| && ls[j] == l;
      assert v.links[j] in v.links;
    }
  }

  /** The node comparison keeps the invariant: every link of the result is
      one of the two nodes' links with another tag. */
  lemma CompareViewValid(v: NodeView, w: NodeView)
    requires ValidView(v) && ValidView(w)
    ensures ValidView(CompareView(v, w))
  {
    var ls := CompareLinks(v.links, w.links);
    CompareLinksSpec(v.links, w.links);
    forall l | l in ls ensures '.' !in l.remoteHostname {
      var k :| 0 <= k < |ls| && ls[k] == l;
      if k < |v.links| {
        assert v.links[k] in v.links;
      } else {
        var j :| 0 <= j < |w.links| && ls[k] == w.links[j].SetComp(Removed);
        assert w.links[j] in w.links;
      }
    }
  }

  function HostnamesOf(vs: seq<NodeView>): set<string>
  {
    set i | 0 <= i < |vs| :: vs[i].hostname
  }

  predicate UniqueNames(vs: seq<NodeView>)
  {
    forall i, j :: 0 <= i < j < |vs| ==> vs[i].hostname != vs[j].hostname
  }

  lemma NamesAppend(p: seq<NodeView>, x: NodeView)
    ensures HostnamesOf(p + [x]) == HostnamesOf(p) + {x.hostname}
  {
    assert forall i :: 0 <= i < |p| ==> (p + [x])[i] == p[i];
    assert (p + [x])[|p|] == x;
  }

  /** The index of the first snapshot named `h`, or -1. */
  function FindView(vs: seq<NodeView>, h: string): (k: int)
    ensures -1 <= k < |vs|
    ensures k == -1 <==> h !in HostnamesOf(vs)
    ensures k >= 0 ==> vs[k].hostname == h && forall j :: 0 <= j < k ==> vs[j].hostname != h
  {
    if vs == [] then -1
    else if vs[0].hostname == h then 0
    else
      var k := FindView(vs[1..], h);
      assert forall j :: 0 < j < |vs| ==> vs[j] == vs[1..][j - 1];
      if k == -1 then -1 else k + 1
  }

  /** The snapshots of `vs` whose name `ws` lacks, tagged `c`, in order. */
  function OnlyIn(vs: seq<NodeView>, ws: seq<NodeView>, c: Comp): (r: seq<NodeView>)
    ensures HostnamesOf(r) == HostnamesOf(vs) - HostnamesOf(ws)
    ensures forall i :: 0 <= i < |r| ==> r[i].comp == c
    ensures UniqueNames(vs) ==> UniqueNames(r)
    ensures UniqueNames(vs) ==>
              forall i, k :: 0 <= i < |r| && 0 <= k < |vs| && r[i].hostname == vs[k].hostname ==>
                r[i] == Tagged(vs[k], c)
  {
    if vs == [] then []
    else
      var p := OnlyIn(vs[..|vs| - 1], ws, c);
      var v := vs[|vs| - 1];
      assert forall k :: 0 <= k < |vs| - 1 ==> vs[..|vs| - 1][k] == vs[k];
      assert HostnamesOf(vs) == HostnamesOf(vs[..|vs| - 1]) + {v.hostname};
      if v.hostname in HostnamesOf(ws) then p
      else
        NamesAppend(p, Tagged(v, c));
        p + [Tagged(v, c)]
  }

  /** One more snapshot of `vs` adds its tagged copy exactly when `ws` lacks
      its hostname. */
  lemma OnlyInStep(vs: seq<NodeView>, ws: seq<NodeView>, c: Comp, i: int)
    requires 0 <= i < |vs|
    ensures OnlyIn(vs[..i + 1], ws, c) ==
              OnlyIn(vs[..i], ws, c) + if vs[i].hostname in HostnamesOf(ws) then [] else [Tagged(vs[i], c)]
  {
    assert vs[..i + 1][..i] == vs[..i];
  }

  /** In a hostname-unique list no earlier snapshot shares a snapshot's
      name. */
  lemma UniquePrefixName(vs: seq<NodeView>, i: int)
    requires UniqueNames(vs) && 0 <= i < |vs|
    ensures vs[i].hostname !in HostnamesOf(vs[..i])
  {
  }

  /** One pass of the tagging loop over `vs` at position `i`, on snapshots:
      the snapshot is still untagged; when `ws` holds its name nothing
      changes, otherwise it is tagged in place and its tagged copy, whose
      name the result so far lacks, is appended. */
  lemma TagPass(vs: seq<NodeView>, ws: seq<NodeView>, rs: seq<NodeView>, c: Comp, i: int)
    requires UniqueNames(vs) && 0 <= i < |vs| && HostnamesOf(rs) <= HostnamesOf(ws)
    ensures var hs, acc := HostnamesOf(ws), OnlyIn(vs[..i], ws, c);
      TagWhere(vs, hs, c, i)[i] == vs[i] &&
      (vs[i].hostname in hs ==>
        TagWhere(vs, hs, c, i + 1) == TagWhere(vs, hs, c, i) && OnlyIn(vs[..i + 1], ws, c) == acc) &&
      (vs[i].hostname !in hs ==>
        TagWhere(vs, hs, c, i + 1) == TagWhere(vs, hs, c, i)[i := Tagged(vs[i], c)] &&
        rs + OnlyIn(vs[..i + 1], ws, c) == (rs + acc) + [Tagged(vs[i], c)] &&
        vs[i].hostname !in HostnamesOf(rs + acc))
  {
    var hs, acc := HostnamesOf(ws), OnlyIn(vs[..i], ws, c);
    TagWhereStep(vs, hs, c, i);
    OnlyInStep(vs, ws, c, i);
    NamesConcat(rs, acc);
    UniquePrefixName(vs, i);
    assert (rs + acc) + [Tagged(vs[i], c)] == rs + (acc + [Tagged(vs[i], c)]);
  }

  /** Common over one more snapshot. */
  lemma CommonStep(vs: seq<NodeView>, ws: seq<NodeView>, i: int)
    requires 0 <= i < |vs|
    ensures Common(vs[..i + 1], ws) ==
              Common(vs[..i], ws) +
              if vs[i].hostname in HostnamesOf(ws) then [CompareView(vs[i], ws[FindView(ws, vs[i].hostname)])] else []
  {
    assert vs[..i + 1][..i] == vs[..i];
  }

  /** One pass of the comparison loop over `vs` at position `i`: a
      snapshot whose name `ws` holds adds its comparison with the first
      snapshot of that name. */
  lemma CommonPass(vs: seq<NodeView>, ws: seq<NodeView>, rs: seq<NodeView>, i: int)
    requires 0 <= i < |vs|
    ensures var acc := Common(vs[..i], ws);
      (vs[i].hostname !in HostnamesOf(ws) ==> Common(vs[..i + 1], ws) == acc) &&
      (vs[i].hostname in HostnamesOf(ws) ==>
        rs + Common(vs[..i + 1], ws) == (rs + acc) + [CompareView(vs[i], ws[FindView(ws, vs[i].hostname)])])
  {
    CommonStep(vs, ws, i);
    var acc := Common(vs[..i], ws);
    if vs[i].hostname in HostnamesOf(ws) {
      var x := CompareView(vs[i], ws[FindView(ws, vs[i].hostname)]);
      assert (rs + acc) + [x] == rs + (acc + [x]);
    }
  }

  /** OnlyIn looks at `ws` only for its hostnames. */
  lemma {:induction false} OnlyInByNames(vs: seq<NodeView>, ws: seq<NodeView>, ws2: seq<NodeView>, c: Comp)
    requires HostnamesOf(ws) == HostnamesOf(ws2)
    ensures OnlyIn(vs, ws, c) == OnlyIn(vs, ws2, c)
  {
    if vs != [] {
      OnlyInByNames(vs[..|vs| - 1], ws, ws2, c);
    }
  }

  /** For every snapshot of `vs` whose name `ws` also holds, the comparison
      with its namesake, in order. */
  function Common(vs: seq<NodeView>, ws: seq<NodeView>): (r: seq<NodeView>)
    ensures HostnamesOf(r) == HostnamesOf(vs) * HostnamesOf(ws)
    ensures forall i :: 0 <= i < |r| ==> r[i].comp == Unchanged
    ensures UniqueNames(vs) ==> UniqueNames(r)
    ensures UniqueNames(vs) && UniqueNames(ws) ==>
              forall i, k, m :: 0 <= i < |r| && 0 <= k < |vs| && 0 <= m < |ws| &&
                                r[i].hostname == vs[k].hostname && r[i].hostname == ws[m].hostname ==>
                r[i] == CompareView(vs[k], ws[m])
  {
    if vs == [] then []
    else
      var p := Common(vs[..|vs| - 1], ws);
      var v := vs[|vs| - 1];
      assert forall k :: 0 <= k < |vs| - 1 ==> vs[..|vs| - 1][k] == vs[k];
      assert HostnamesOf(vs) == HostnamesOf(vs[..|vs| - 1]) + {v.hostname};
      if v.hostname in HostnamesOf(ws) then
        var x := CompareView(v, ws[FindView(ws, v.hostname)]);
        NamesAppend(p, x);
        p + [x]
      else p
  }

  lemma {:induction false} OnlyInValid(vs: seq<NodeView>, ws: seq<NodeView>, c: Comp)
    requires AllValid(vs)
    ensures AllValid(OnlyIn(vs, ws, c))
    decreases |vs|
  {
    if vs != [] {
      var front := vs[..|vs| - 1];
      assert forall k :: 0 <= k < |front| ==> front[k] == vs[k];
      OnlyInValid(front, ws, c);
      TaggedValid(vs[|vs| - 1], c);
    }
  }

  lemma {:induction false} CommonValid(vs: seq<NodeView>, ws: seq<NodeView>)
    requires AllValid(vs) && AllValid(ws)
    ensures AllValid(Common(vs, ws))
    decreases |vs|
  {
    if vs != [] {
      var front, v := vs[..|vs| - 1], vs[|vs| - 1];
      assert forall k :: 0 <= k < |front| ==> front[k] == vs[k];
      CommonValid(front, ws);
      if v.hostname in HostnamesOf(ws) {
        CompareViewValid(v, ws[FindView(ws, v.hostname)]);
      }
    }
  }

  /** The result of new.compare(old): the added nodes, the removed nodes,
      then the compared common nodes. */
  function DiffViews(vs: seq<NodeView>, ws: seq<NodeView>): seq<NodeView>
  {
    OnlyIn(vs, ws, Added) + OnlyIn(ws, vs, Removed) + Common(vs, ws)
  }

  /** The diff holds the union of the hostnames. */
  lemma DiffNames(vs: seq<NodeView>, ws: seq<NodeView>)
    ensures HostnamesOf(DiffViews(vs, ws)) == HostnamesOf(vs) + HostnamesOf(ws)
  {
    var a, b, c := OnlyIn(vs, ws, Added), OnlyIn(ws, vs, Removed), Common(vs, ws);
    NamesConcat(a, b);
    NamesConcat(a + b, c);
  }

  lemma NamesConcat(p: seq<NodeView>, q: seq<NodeView>)
    ensures HostnamesOf(p + q) == HostnamesOf(p) + HostnamesOf(q)
  {
    forall h | h in HostnamesOf(p + q) ensures h in HostnamesOf(p) + HostnamesOf(q) {
      var i :| 0 <= i < |p + q| && (p + q)[i].hostname == h;
      if i < |p| { assert (p + q)[i] == p[i]; } else { assert (p + q)[i] == q[i - |p|]; }
    }
    forall h | h in HostnamesOf(p) + HostnamesOf(q) ensures h in HostnamesOf(p + q) {
      if h in HostnamesOf(p) {
        var i :| 0 <= i < |p| && p[i].hostname == h;
        assert (p + q)[i] == p[i];
      } else {
        var i :| 0 <= i < |q| && q[i].hostname == h;
        assert (p + q)[|p| + i] == q[i];
      }
    }
  }

  lemma UniqueConcat(p: seq<NodeView>, q: seq<NodeView>)
    requires UniqueNames(p) && UniqueNames(q) && HostnamesOf(p) !! HostnamesOf(q)
    ensures UniqueNames(p + q)
  {
    var r := p + q;
    forall i, j | 0 <= i < j < |r| ensures r[i].hostname != r[j].hostname {
      if j < |p| {
        assert r[i] == p[i] && r[j] == p[j];
      } else if i >= |p| {
        assert r[i] == q[i - |p|] && r[j] == q[j - |p|];
      } else {
        assert r[i] == p[i] && r[j] == q[j - |p|];
        assert r[i].hostname in HostnamesOf(p) && r[j].hostname in HostnamesOf(q);
      }
    }
  }

  /** The diff of two graphs with unique hostnames again has unique
      hostnames. */
  lemma DiffUnique(vs: seq<NodeView>, ws: seq<NodeView>)
    requires UniqueNames(vs) && UniqueNames(ws)
    ensures UniqueNames(DiffViews(vs, ws))
  {
    var a, b, c := OnlyIn(vs, ws, Added), OnlyIn(ws, vs, Removed), Common(vs, ws);
    UniqueConcat(a, b);
    NamesConcat(a, b);
    UniqueConcat(a + b, c);
  }

  /** The diff of two graphs whose nodes keep GNode's invariant keeps it
      too. */
  lemma DiffValid(vs: seq<NodeView>, ws: seq<NodeView>)
    requires AllValid(vs) && AllValid(ws)
    ensures AllValid(DiffViews(vs, ws))
  {
    OnlyInValid(vs, ws, Added);
    OnlyInValid(ws, vs, Removed);
    CommonValid(vs, ws);
  }

  /** What each node of the diff is, by where its hostname occurs: a node of
      the newer graph only is that node tagged "added" with all its links, a
      node of the older graph only is that node tagged "removed", and a node
      of both is the link comparison of the two namesakes. */
  lemma DiffSpec(vs: seq<NodeView>, ws: seq<NodeView>)
    requires UniqueNames(vs) && UniqueNames(ws)
    ensures var r := DiffViews(vs, ws);
            forall i, k :: 0 <= i < |r| && 0 <= k < |vs| && r[i].hostname == vs[k].hostname &&
                           r[i].hostname !in HostnamesOf(ws)
                           ==> r[i] == Tagged(vs[k], Added)
    ensures var r := DiffViews(vs, ws);
            forall i, m :: 0 <= i < |r| && 0 <= m < |ws| && r[i].hostname == ws[m].hostname &&
                           r[i].hostname !in HostnamesOf(vs)
                           ==> r[i] == Tagged(ws[m], Removed)
    ensures var r := DiffViews(vs, ws);
            forall i, k, m :: 0 <= i < |r| && 0 <= k < |vs| && 0 <= m < |ws| &&
                              r[i].hostname == vs[k].hostname && r[i].hostname == ws[m].hostname ==>
                                r[i] == CompareView(vs[k], ws[m])
  {
    var a, b, c := OnlyIn(vs, ws, Added), OnlyIn(ws, vs, Removed), Common(vs, ws);
    var r := a + b + c;
    forall i | 0 <= i < |r|
      ensures i < |a| ==> r[i] == a[i] && r[i].hostname in HostnamesOf(a)
      ensures |a| <= i < |a| + |b| ==> r[i] == b[i - |a|] && r[i].hostname in HostnamesOf(b)
      ensures |a| + |b| <= i ==> r[i] == c[i - |a| - |b|] && r[i].hostname in HostnamesOf(c)
    {
      if i < |a| { assert r[i] == a[i]; }
      else if i < |a| + |b| { assert r[i] == b[i - |a|]; }
      else { assert r[i] == c[i - |a| - |b|]; }
    }
  }

  /** A node of the diff is tagged "added" exactly when only the newer graph
      has it, "removed" exactly when only the older one has it, and is
      untagged exactly when both have it; a tagged node's links all carry
      its tag. */
  lemma DiffTags(vs: seq<NodeView>, ws: seq<NodeView>)
    requires UniqueNames(vs) && UniqueNames(ws)
    ensures var r := DiffViews(vs, ws);
            forall i :: 0 <= i < |r| ==>
              (r[i].comp == Added <==> r[i].hostname in HostnamesOf(vs) - HostnamesOf(ws)) &&
              (r[i].comp == Removed <==> r[i].hostname in HostnamesOf(ws) - HostnamesOf(vs)) &&
              (r[i].comp == Unchanged <==> r[i].hostname in HostnamesOf(vs) * HostnamesOf(ws))
    ensures var r := DiffViews(vs, ws);
            forall i, j :: 0 <= i < |r| && r[i].comp != Unchanged && 0 <= j < |r[i].links| ==>
              r[i].links[j].comp == r[i].comp
  {
    var r := DiffViews(vs, ws);
    DiffSpec(vs, ws);
    DiffNames(vs, ws);
    forall i | 0 <= i < |r|
      ensures r[i].comp == Added <==> r[i].hostname in HostnamesOf(vs) - HostnamesOf(ws)
      ensures r[i].comp == Removed <==> r[i].hostname in HostnamesOf(ws) - HostnamesOf(vs)
      ensures r[i].comp == Unchanged <==> r[i].hostname in HostnamesOf(vs) * HostnamesOf(ws)
      ensures r[i].comp != Unchanged ==> forall j :: 0 <= j < |r[i].links| ==> r[i].links[j].comp == r[i].comp
    {
      var h := r[i].hostname;
      assert h in HostnamesOf(r);
      if h in HostnamesOf(vs) {
        var k :| 0 <= k < |vs| && vs[k].hostname == h;
        if h in HostnamesOf(ws) {
          var m :| 0 <= m < |ws| && ws[m].hostname == h;
        }
      } else {
        var m :| 0 <= m < |ws| && ws[m].hostname == h;
      }
    }
  }

  /** The hostnames of the nodes a diff tags `c`. */
  function TaggedNames(r: seq<NodeView>, c: Comp): set<string>
  {
    set i | 0 <= i < |r| && r[i].comp == c :: r[i].hostname
  }

  /** Comparing in the other direction swaps "added" and "removed". */
  lemma DiffSwap(vs: seq<NodeView>, ws: seq<NodeView>)
    requires UniqueNames(vs) && UniqueNames(ws)
    ensures TaggedNames(DiffViews(vs, ws), Added) == TaggedNames(DiffViews(ws, vs), Removed) == HostnamesOf(vs) - HostnamesOf(ws)
    ensures TaggedNames(DiffViews(vs, ws), Removed) == TaggedNames(DiffViews(ws, vs), Added) == HostnamesOf(ws) - HostnamesOf(vs)
  {
    TaggedNamesOfDiff(vs, ws);
    TaggedNamesOfDiff(ws, vs);
  }

  lemma TaggedNamesOfDiff(vs: seq<NodeView>, ws: seq<NodeView>)
    requires UniqueNames(vs) && UniqueNames(ws)
    ensures TaggedNames(DiffViews(vs, ws), Added) == HostnamesOf(vs) - HostnamesOf(ws)
    ensures TaggedNames(DiffViews(vs, ws), Removed) == HostnamesOf(ws) - HostnamesOf(vs)
  {
    var r := DiffViews(vs, ws);
    DiffTags(vs, ws);
    DiffNames(vs, ws);
    forall h | h in HostnamesOf(vs) - HostnamesOf(ws) ensures h in TaggedNames(r, Added) {
      assert h in HostnamesOf(r);
      var i :| 0 <= i < |r| && r[i].hostname == h;
    }
    forall h | h in HostnamesOf(ws) - HostnamesOf(vs) ensures h in TaggedNames(r, Removed) {
      assert h in HostnamesOf(r);
      var i :| 0 <= i < |r| && r[i].hostname == h;
    }
  }

  /** Comparing a graph with itself tags nothing: every node comes back
      untagged, in order, with all its links untagged. */
  lemma DiffSelf(vs: seq<NodeView>)
    requires UniqueNames(vs) && AllValid(vs)
    ensures |DiffViews(vs, vs)| == |vs|
    ensures forall i :: 0 <= i < |vs| ==> DiffViews(vs, vs)[i] == Tagged(vs[i], Unchanged)
  {
    OnlyInAllPresent(vs, vs, Added);
    OnlyInAllPresent(vs, vs, Removed);
    SelfCommon(vs, vs);
    assert DiffViews(vs, vs) == Common(vs, vs);
  }

  lemma {:induction false} OnlyInAllPresent(us: seq<NodeView>, ws: seq<NodeView>, c: Comp)
    requires HostnamesOf(us) <= HostnamesOf(ws)
    ensures OnlyIn(us, ws, c) == []
  {
    if us != [] {
      var p := us[..|us| - 1];
      assert forall k :: 0 <= k < |p| ==> p[k] == us[k];
      assert HostnamesOf(p) <= HostnamesOf(us);
      assert us[|us| - 1].hostname in HostnamesOf(us);
      OnlyInAllPresent(p, ws, c);
    }
  }

  /** Comparing a valid node with itself tags it and its links "". */
  lemma CompareViewSelf(v: NodeView)
    requires ValidView(v)
    ensures CompareView(v, v) == Tagged(v, Unchanged)
  {
    CompareLinksIdentity(v.links);
  }

  /** Common over a prefix of a hostname-unique list pairs every node with
      itself. */
  lemma {:induction false} SelfCommon(us: seq<NodeView>, vs: seq<NodeView>)
    requires UniqueNames(vs) && AllValid(vs) && us <= vs
    ensures |Common(us, vs)| == |us|
    ensures forall i :: 0 <= i < |us| ==> Common(us, vs)[i] == Tagged(us[i], Unchanged)
  {
    if us != [] {
      var p := us[..|us| - 1];
      var v := us[|us| - 1];
      SelfCommon(p, vs);
      assert v == vs[|us| - 1];
      assert v.hostname in HostnamesOf(vs);
      assert FindView(vs, v.hostname) == |us| - 1;
      assert ValidView(vs[|us| - 1]);
      CompareViewSelf(v);
      var x := CompareView(v, vs[FindView(vs, v.hostname)]);
      var r, q := Common(us, vs), Common(p, vs);
      assert r == q + [x];
      forall i | 0 <= i < |us| ensures r[i] == Tagged(us[i], Unchanged) {
        if i < |p| {
          assert r[i] == q[i];
          assert q[i] == Tagged(p[i], Unchanged);
          assert us[i] == p[i];
        } else {
          assert r[i] == x;
        }
      }
    }
  }

  /** The snapshots after a tagging pass over the first `i` nodes: those
      whose hostname is not in `hs` are tagged `c`, the rest are kept. */
  function TagWhere(vs: seq<NodeView>, hs: set<string>, c: Comp, i: int): seq<NodeView>
  {
    seq(|vs|, m requires 0 <= m < |vs| => if m < i && vs[m].hostname !in hs then Tagged(vs[m], c) else vs[m])
  }

  /** One more position of TagWhere: the position itself is still the
      original snapshot and is tagged unless its hostname is in `hs`. */
  lemma TagWhereStep(vs: seq<NodeView>, hs: set<string>, c: Comp, i: int)
    requires 0 <= i < |vs|
    ensures TagWhere(vs, hs, c, i)[i] == vs[i]
    ensures TagWhere(vs, hs, c, i + 1) ==
              TagWhere(vs, hs, c, i)[i := if vs[i].hostname in hs then vs[i] else Tagged(vs[i], c)]
  {
  }

  lemma TagWhereValid(vs: seq<NodeView>, hs: set<string>, c: Comp, i: int)
    requires AllValid(vs)
    ensures AllValid(TagWhere(vs, hs, c, i))
  {
    forall m | 0 <= m < |vs| {
      TaggedValid(vs[m], c);
    }
  }

  /** Two snapshot lists with the same hostname at every position that agree
      on every node whose hostname is in `hs`. */
  predicate AgreeOn(xs: seq<NodeView>, ys: seq<NodeView>, hs: set<string>)
  {
    |xs| == |ys| &&
    forall m :: 0 <= m < |xs| ==> xs[m].hostname == ys[m].hostname && (xs[m].hostname in hs ==> xs[m] == ys[m])
  }

  lemma TagWhereAgrees(vs: seq<NodeView>, hs: set<string>, c: Comp)
    ensures AgreeOn(vs, TagWhere(vs, hs, c, |vs|), hs)
    ensures HostnamesOf(TagWhere(vs, hs, c, |vs|)) == HostnamesOf(vs)
  {
    AgreeNames(vs, TagWhere(vs, hs, c, |vs|), hs);
  }

  lemma AgreeNames(xs: seq<NodeView>, ys: seq<NodeView>, hs: set<string>)
    requires AgreeOn(xs, ys, hs)
    ensures HostnamesOf(xs) == HostnamesOf(ys)
    ensures forall h :: FindView(xs, h) == FindView(ys, h)
  {
    forall h ensures FindView(xs, h) == FindView(ys, h) {
      var k, m := FindView(xs, h), FindView(ys, h);
      if k != -1 && m != -1 {
        assert !(k < m) && !(m < k);
      }
    }
  }

  /** The node comparison looks only at nodes of both lists, so snapshots
      that agree on those give the same comparisons. */
  lemma {:induction false} CommonAgree(us: seq<NodeView>, us2: seq<NodeView>, ws: seq<NodeView>, ws2: seq<NodeView>)
    requires AgreeOn(us, us2, HostnamesOf(ws)) && AgreeOn(ws, ws2, HostnamesOf(us))
    ensures Common(us, ws) == Common(us2, ws2)
  {
    AgreeNames(ws, ws2, HostnamesOf(us));
    if us != [] {
      var n := |us| - 1;
      assert forall m :: 0 <= m < n ==> us[..n][m] == us[m] && us2[..n][m] == us2[m];
      assert HostnamesOf(us[..n]) <= HostnamesOf(us);
      CommonAgree(us[..n], us2[..n], ws, ws2);
      var h := us[n].hostname;
      assert h == us2[n].hostname;
      if h in HostnamesOf(ws) {
        assert us[n] == us2[n];
        assert h in HostnamesOf(us);
        assert ws[FindView(ws, h)] == ws2[FindView(ws2, h)];
        assert Common(us, ws) == Common(us[..n], ws) + [CompareView(us[n], ws[FindView(ws, h)])];
        assert Common(us2, ws2) == Common(us2[..n], ws2) + [CompareView(us2[n], ws2[FindView(ws2, h)])];
      } else {
        assert Common(us, ws) == Common(us[..n], ws);
        assert Common(us2, ws2) == Common(us2[..n], ws2);
      }
    }
  }

  /** The three passes of compare, run on the snapshots as they stand after
      the passes before them, give the diff of the original snapshots. */
  lemma CompareAssembly(vs: seq<NodeView>, ws: seq<NodeView>, vs1: seq<NodeView>, ws1: seq<NodeView>)
    requires vs1 == TagWhere(vs, HostnamesOf(ws), Added, |vs|)
    requires ws1 == TagWhere(ws, HostnamesOf(vs1), Removed, |ws|)
    ensures OnlyIn(vs, ws, Added) + OnlyIn(ws, vs1, Removed) + Common(vs1, ws1) == DiffViews(vs, ws)
  {
    TagWhereAgrees(vs, HostnamesOf(ws), Added);
    assert HostnamesOf(vs1) == HostnamesOf(vs);
    TagWhereAgrees(ws, HostnamesOf(vs), Removed);
    OnlyInByNames(ws, vs1, vs, Removed);
    CommonAgree(vs, vs1, ws, ws1);
  }
  /** What the three loops of GGraph.compare need and give, on snapshots:
      `vs1` and `ws1` are the two graphs after the two tagging loops. */
  lemma ComparePhases(vs: seq<NodeView>, ws: seq<NodeView>)
    requires UniqueNames(vs) && UniqueNames(ws) && AllValid(vs) && AllValid(ws)
    ensures var vs1 := TagWhere(vs, HostnamesOf(ws), Added, |vs|);
      var ws1 := TagWhere(ws, HostnamesOf(vs1), Removed, |ws|);
      var r := OnlyIn(vs, ws, Added) + OnlyIn(ws, vs1, Removed) + Common(vs1, ws1);
      HostnamesOf(OnlyIn(vs, ws, Added)) <= HostnamesOf(vs1) && AllValid(vs1) && AllValid(ws1) &&
      r == DiffViews(vs, ws) && UniqueNames(r) && AllValid(r)
  {
    var vs1 := TagWhere(vs, HostnamesOf(ws), Added, |vs|);
    var ws1 := TagWhere(ws, HostnamesOf(vs1), Removed, |ws|);
    TagWhereAgrees(vs, HostnamesOf(ws), Added);
    TagWhereValid(vs, HostnamesOf(ws), Added, |vs|);
    TagWhereValid(ws, HostnamesOf(vs1), Removed, |ws|);
    CompareAssembly(vs, ws, vs1, ws1);
    DiffUnique(vs, ws);
    DiffValid(vs, ws);
  }

}
