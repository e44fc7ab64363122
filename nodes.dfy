/** GNode: one device of the topology with the links it reports. */
module Nodes {
  import opened Wrappers
  import opened Names
  import opened DeviceTypes
  import opened Links

  /** DIRECT_NODE (probed itself) or INDIRECT_NODE (only named as a
      neighbour). */
  datatype Origin = Direct | Indirect

  /** What every node keeps: the counter follows the links, every name is
      stripped, and the device type is one that classification maps to
      itself. */
  predicate WellFormed(hostname: string, numNeighbors: nat, links: seq<Link>, deviceType: string)
  {
    numNeighbors == |links| && '.' !in hostname && Stable(deviceType) &&
    forall l :: l in links ==> '.' !in l.remoteHostname
  }

  class GNode {
    /** The hostname and the origin are fixed when the node is built. */
    const hostname: string
    const direct: Origin
    var numNeighbors: nat
    var links: seq<Link>
    var comp: Comp
    var deviceType: string

    /** What the constructor and the methods below keep. */
    ghost predicate Valid()
      reads this
    {
      WellFormed(hostname, numNeighbors, links, deviceType)
    }

    /** No link of the node points back at the node itself. */
    ghost predicate SelfLoopFree()
      reads this
    {
      forall l :: l in links ==> l.remoteHostname != hostname
    }

    constructor (hostname: string, direct: Origin := Indirect)
      ensures Valid()
      ensures this.hostname == HostPart(hostname) && this.direct == direct
      ensures links == [] && comp == Unchanged && deviceType == ""
    {
      this.direct := direct;
      numNeighbors := 0;
      links := [];
      this.hostname := HostPart(hostname);
      comp := Unchanged;
      deviceType := "";
    }

    /** Tag the node and every one of its links. */
    method SetComp(c: Comp)
      modifies this
      ensures old(Valid()) ==> Valid()
      ensures comp == c && links == TagAll(old(links), c)
      ensures numNeighbors == old(numNeighbors) && deviceType == old(deviceType)
    {
      ghost var before := links;
      comp := c;
      links := TagAll(links, c);
      forall l | l in links && old(Valid()) ensures '.' !in l.remoteHostname {
        var j :| 0 <= j < |links| && links[j] == l;
        assert before[j] in before;
      }
    }

    /** Set the device type from a capability string; an empty one is
        ignored. */
    method SetDeviceType(capabilities: string)
      requires Valid()
      modifies this
      ensures Valid()
      ensures deviceType == NextType(old(deviceType), capabilities)
      ensures links == old(links) && comp == old(comp)
    {
      if capabilities == "" {
        return;
      }
      deviceType := Classify(capabilities);
      ClassifyIdempotent(capabilities);
    }

    /** Append one link and count it. A GLink's remote hostname is always
        stripped by its constructor. */
    method AddLink(l: Link)
      requires Valid() && '.' !in l.remoteHostname
      modifies this
      ensures Valid()
      ensures links == old(links) + [l] && numNeighbors == old(numNeighbors) + 1
      ensures comp == old(comp) && deviceType == old(deviceType)
    {
      links := links + [l];
      numNeighbors := numNeighbors + 1;
    }

    /** Append a link built from raw fields; interface names keep only the
        text after their last ':'. */
    method AddLinkStr(localIfname: string, remoteIfname: string, remoteHostname: string,
                      capabilities: string)
      requires Valid()
      modifies this
      ensures Valid()
      ensures links == old(links) + [NewLink(IfPart(localIfname), IfPart(remoteIfname), remoteHostname, capabilities)]
      ensures comp == old(comp) && deviceType == old(deviceType)
    {
      AddLink(NewLink(IfPart(localIfname), IfPart(remoteIfname), remoteHostname, capabilities));
    }

    /** Whether the node already holds a link with the key of `l`. */
    method CheckLink(l: Link) returns (found: bool)
      ensures found <==> HasKey(links, l)
    {
      found := FindKey(links, l);
    }

    /** Mark as drawn the first link that is the reciprocal of `link` seen
        from `hostname`, and return it. */
    method SetLinkDrawn(link: Link, hostname: string) returns (r: Option<Link>)
      modifies this
      ensures old(Valid()) ==> Valid()
      ensures numNeighbors == old(numNeighbors)
      ensures var k := ReciprocalIndex(old(links), link, hostname);
        if k == -1 then r == None && links == old(links)
        else r == Some(old(links)[k].SetDrawn(true)) && links == old(links)[k := old(links)[k].SetDrawn(true)]
      ensures comp == old(comp) && deviceType == old(deviceType)
    {
      var i := 0;
      while i < |links|
        invariant 0 <= i <= |links|
        invariant forall j :: 0 <= j < i ==> !IsReciprocal(links[j], link, hostname)
      {
        var l := links[i];
        if l.localIfname == link.remoteIfname && l.remoteIfname == link.localIfname
           && l.remoteHostname == hostname
        {
          assert links[i] in links;
          links := links[i := l.SetDrawn(true)];
          return Some(l.SetDrawn(true));
        }
        i := i + 1;
      }
      return None;
    }

    /** Append the links of `node` whose key this node does not hold yet. */
    method Append(node: GNode)
      requires Valid() && node.Valid()
      modifies this
      ensures Valid()
      ensures links == MergeLinks(old(links), old(node.links))
      ensures comp == old(comp) && deviceType == old(deviceType)
    {
      var incoming := node.links;
      var i := 0;
      while i < |incoming|
        invariant 0 <= i <= |incoming|
        invariant Valid()
        invariant links == MergeLinks(old(links), incoming[..i])
        invariant comp == old(comp) && deviceType == old(deviceType)
      {
        assert incoming[..i + 1][..i] == incoming[..i];
        assert incoming[i] in old(node.links);
        var present := CheckLink(incoming[i]);
        if !present {
          AddLink(incoming[i]);
        }
        i := i + 1;
      }
      assert incoming[..i] == incoming;
    }

    /** The node of the comparison result for a hostname present in both
        graphs: the own links tagged, then the other node's unmatched links
        tagged "removed". The node itself stays untagged. */
    method Compare(n: GNode) returns (res: GNode)
      requires Valid() && n.Valid()
      ensures fresh(res) && res.Valid()
      ensures res.hostname == hostname && res.direct == direct
      ensures res.deviceType == deviceType && res.comp == Unchanged
      ensures res.links == CompareLinks(links, n.links)
    {
      HostPartOfPlain(hostname);
      res := new GNode(hostname, direct);
      res.deviceType := deviceType;
      var tagged := TagOwn(links, n.links);
      var i := 0;
      while i < |links|
        invariant 0 <= i <= |links|
        invariant res.Valid() && res.comp == Unchanged && res.deviceType == deviceType
        invariant res.links == tagged[..i]
      {
        assert links[i] in links;
        var found := FindKey(n.links, links[i]);
        res.AddLink(links[i].SetComp(if found then Unchanged else Added));
        assert tagged[..i + 1] == tagged[..i] + [tagged[i]];
        i := i + 1;
      }
      i := 0;
      while i < |n.links|
        invariant 0 <= i <= |n.links|
        invariant res.Valid() && res.comp == Unchanged && res.deviceType == deviceType
        invariant res.links == tagged + Unmatched(n.links[..i], links)
      {
        assert n.links[..i + 1][..i] == n.links[..i];
        assert n.links[i] in n.links;
        var found := FindKey(links, n.links[i]);
        if !found {
          res.AddLink(n.links[i].SetComp(Removed));
        }
        i := i + 1;
      }
      assert n.links[..i] == n.links;
    }
  }
}
