/** The usual optional value, for lookups that may find nothing. */
module Wrappers {
  datatype Option<T> = None | Some(value: T)
}

/** GLink as a value, and the operations on lists of links that GNode uses:
    the identity key, the duplicate-free merge of GNode.append, and the
    link-level three-state diff of GNode.compare. */
module Links {
  import opened Names

  /** The `comp` attribute: "" (unchanged), "added" or "removed". */
  datatype Comp = Unchanged | Added | Removed

  /** One observed adjacency, seen from the node that holds it. */
  datatype Link = Link(localIfname: string, remoteIfname: string, remoteHostname: string,
                       capabilities: string, comp: Comp, drawn: bool)
  {
    /** Two links with the same key are the same observation. */
    function Key(): (string, string, string)
    {
      (localIfname, remoteIfname, remoteHostname)
    }

    /** GLink.set_comp: only the tag changes. */
    function SetComp(c: Comp): (r: Link)
      ensures r.Key() == Key() && r.comp == c
      ensures r.capabilities == capabilities && r.drawn == drawn
    {
      this.(comp := c)
    }

    /** GLink.set_drawn: only the drawn flag changes. */
    function SetDrawn(d: bool): (r: Link)
      ensures r.Key() == Key() && r.drawn == d
      ensures r.capabilities == capabilities && r.comp == comp
    {
      this.(drawn := d)
    }
  }

  /** The GLink constructor: the remote hostname loses its domain suffix and
      the new link is untagged and not yet drawn. */
  function NewLink(localIfname: string, remoteIfname: string, remoteHostname: string,
                   capabilities: string): (l: Link)
    ensures '.' !in l.remoteHostname && l.remoteHostname <= remoteHostname
    ensures l.Key() == (localIfname, remoteIfname, HostPart(remoteHostname))
    ensures l.capabilities == capabilities && l.comp == Unchanged && !l.drawn
  {
    Link(localIfname, remoteIfname, HostPart(remoteHostname), capabilities, Unchanged, false)
  }

  /** Some link of `ls` has the key of `l`. */
  predicate HasKey(ls: seq<Link>, l: Link)
  {
    exists k :: 0 <= k < |ls| && ls[k].Key() == l.Key()
  }

  /** No two links of `ls` share a key. */
  predicate NoDupKeys(ls: seq<Link>)
  {
    forall i, j :: 0 <= i < j < |ls| ==> ls[i].Key() != ls[j].Key()
  }

  /** The search loop of GNode.check_link and of the inner loops of
      GNode.compare. */
  method FindKey(ls: seq<Link>, l: Link) returns (found: bool)
    ensures found <==> HasKey(ls, l)
  {
    var i := 0;
    while i < |ls|
      invariant 0 <= i <= |ls|
      invariant forall k :: 0 <= k < i ==> ls[k].Key() != l.Key()
    {
      if ls[i].localIfname == l.localIfname && ls[i].remoteIfname == l.remoteIfname
         && ls[i].remoteHostname == l.remoteHostname
      {
        return true;
      }
      i := i + 1;
    }
    return false;
  }

  /** GNode.append on link lists: each incoming link, in order, is added
      unless a link with its key is already there. */
  function MergeLinks(existing: seq<Link>, incoming: seq<Link>): (r: seq<Link>)
    ensures existing <= r
    ensures forall l :: l in r ==> l in existing || l in incoming
    ensures forall j :: 0 <= j < |incoming| ==> HasKey(r, incoming[j])
    ensures forall k :: |existing| <= k < |r| ==> !HasKey(existing, r[k])
    decreases |incoming|
  {
    if incoming == [] then existing
    else
      var m := MergeLinks(existing, incoming[..|incoming| - 1]);
      var l := incoming[|incoming| - 1];
      assert forall j :: 0 <= j < |incoming| - 1 ==> incoming[..|incoming| - 1][j] == incoming[j];
      assert forall k :: 0 <= k < |m| ==> (m + [l])[k] == m[k];
      assert (m + [l])[|m|] == l;
      if HasKey(m, l) then m else m + [l]
  }

  /** A duplicate-free link list stays duplicate-free. */
  lemma {:induction false} MergeLinksNoDup(existing: seq<Link>, incoming: seq<Link>)
    requires NoDupKeys(existing)
    ensures NoDupKeys(MergeLinks(existing, incoming))
    decreases |incoming|
  {
    if incoming != [] {
      MergeLinksNoDup(existing, incoming[..|incoming| - 1]);
    }
  }

  /** The merge keeps every key it had: a key is in the result exactly when
      it is in one of the two lists. */
  lemma {:induction false} MergeLinksKeys(existing: seq<Link>, incoming: seq<Link>, l: Link)
    ensures HasKey(MergeLinks(existing, incoming), l) <==> HasKey(existing, l) || HasKey(incoming, l)
    decreases |incoming|
  {
    if incoming != [] {
      var front := incoming[..|incoming| - 1];
      MergeLinksKeys(existing, front, l);
      if HasKey(front, l) {
        var k :| 0 <= k < |front| && front[k].Key() == l.Key();
        assert incoming[k] == front[k];
      }
      if HasKey(incoming, l) && !HasKey(front, l) {
        var k :| 0 <= k < |incoming| && incoming[k].Key() == l.Key();
        assert k == |incoming| - 1;
      }
    }
  }

  /** When every incoming key is already present, nothing is added. */
  lemma {:induction false} MergeLinksAllPresent(existing: seq<Link>, incoming: seq<Link>)
    requires forall j :: 0 <= j < |incoming| ==> HasKey(existing, incoming[j])
    ensures MergeLinks(existing, incoming) == existing
    decreases |incoming|
  {
    if incoming != [] {
      MergeLinksAllPresent(existing, incoming[..|incoming| - 1]);
    }
  }

  /** Appending the links of a node to itself changes nothing. */
  lemma MergeLinksSelf(ls: seq<Link>)
    ensures MergeLinks(ls, ls) == ls
  {
    forall j | 0 <= j < |ls| ensures HasKey(ls, ls[j]) {
      assert ls[j].Key() == ls[j].Key();
    }
    MergeLinksAllPresent(ls, ls);
  }

  /** Appending the same links twice is appending them once. */
  lemma MergeLinksIdempotent(existing: seq<Link>, incoming: seq<Link>)
    ensures MergeLinks(MergeLinks(existing, incoming), incoming) == MergeLinks(existing, incoming)
  {
    MergeLinksAllPresent(MergeLinks(existing, incoming), incoming);
  }

  /** Every link of `ls` with its tag set to `c` (GNode.set_comp on links). */
  function TagAll(ls: seq<Link>, c: Comp): (r: seq<Link>)
    ensures |r| == |ls|
    ensures forall i :: 0 <= i < |ls| ==> r[i].Key() == ls[i].Key() && r[i].comp == c
  {
    seq(|ls|, i requires 0 <= i < |ls| => ls[i].SetComp(c))
  }

  /** The first pass of GNode.compare: each own link tagged "added" unless
      the other node has its key. */
  function TagOwn(own: seq<Link>, other: seq<Link>): (r: seq<Link>)
    ensures |r| == |own|
    ensures forall i :: 0 <= i < |own| ==>
      r[i] == own[i].SetComp(r[i].comp) && (r[i].comp == Unchanged <==> HasKey(other, own[i])) &&
      (r[i].comp == Added <==> !HasKey(other, own[i]))
  {
    seq(|own|, i requires 0 <= i < |own| => own[i].SetComp(if HasKey(other, own[i]) then Unchanged else Added))
  }

  /** The second pass of GNode.compare: the other node's links whose key the
      own node lacks, tagged "removed", in order. */
  function Unmatched(other: seq<Link>, own: seq<Link>): (r: seq<Link>)
    ensures |r| <= |other|
    ensures forall k :: 0 <= k < |r| ==> r[k].comp == Removed && !HasKey(own, r[k])
    ensures forall k :: 0 <= k < |r| ==> exists j :: 0 <= j < |other| && r[k] == other[j].SetComp(Removed)
    decreases |other|
  {
    if other == [] then []
    else
      var front := Unmatched(other[..|other| - 1], own);
      var l := other[|other| - 1];
      if HasKey(own, l) then front else front + [l.SetComp(Removed)]
  }

  /** The links of the node GNode.compare returns. */
  function CompareLinks(own: seq<Link>, other: seq<Link>): (r: seq<Link>)
    ensures |own| <= |r| <= |own| + |other|
    ensures forall i :: 0 <= i < |own| ==> r[i].Key() == own[i].Key() && r[i].comp != Removed
    ensures forall k :: |own| <= k < |r| ==> r[k].comp == Removed && !HasKey(own, r[k])
  {
    TagOwn(own, other) + Unmatched(other, own)
  }

  /** Every unmatched link of the other side appears, tagged "removed". */
  lemma {:induction false} UnmatchedComplete(other: seq<Link>, own: seq<Link>, j: int)
    requires 0 <= j < |other| && !HasKey(own, other[j])
    ensures other[j].SetComp(Removed) in Unmatched(other, own)
    decreases |other|
  {
    if j < |other| - 1 {
      assert other[..|other| - 1][j] == other[j];
      UnmatchedComplete(other[..|other| - 1], own, j);
    }
  }

  /** GNode.compare on links: the own links come first, in order, tagged
      "added" exactly when unmatched; after them come only unmatched links of
      the other side, tagged "removed", and every such link appears. */
  lemma CompareLinksSpec(own: seq<Link>, other: seq<Link>)
    ensures var r := CompareLinks(own, other);
      |own| <= |r| <= |own| + |other| &&
      (forall i :: 0 <= i < |own| ==> r[i].Key() == own[i].Key() && r[i].capabilities == own[i].capabilities &&
                                      (r[i].comp == Added <==> !HasKey(other, own[i])) &&
                                      (r[i].comp == Unchanged <==> HasKey(other, own[i]))) &&
      (forall k :: |own| <= k < |r| ==> r[k].comp == Removed && !HasKey(own, r[k]) &&
                                        exists j :: 0 <= j < |other| && r[k] == other[j].SetComp(Removed)) &&
      (forall j :: 0 <= j < |other| && !HasKey(own, other[j]) ==> other[j].SetComp(Removed) in r[|own|..])
  {
    var r := CompareLinks(own, other);
    assert r[|own|..] == Unmatched(other, own);
    forall k | |own| <= k < |r|
      ensures r[k].comp == Removed && !HasKey(own, r[k])
      ensures exists j :: 0 <= j < |other| && r[k] == other[j].SetComp(Removed)
    {
      assert r[k] == Unmatched(other, own)[k - |own|];
    }
    forall j | 0 <= j < |other| && !HasKey(own, other[j])
      ensures other[j].SetComp(Removed) in r[|own|..]
    {
      UnmatchedComplete(other, own, j);
    }
  }

  /** Nothing of the other side is left unmatched when both sides hold the
      same keys. */
  lemma {:induction false} UnmatchedCovered(other: seq<Link>, own: seq<Link>)
    requires forall j :: 0 <= j < |other| ==> HasKey(own, other[j])
    ensures Unmatched(other, own) == []
    decreases |other|
  {
    if other != [] {
      UnmatchedCovered(other[..|other| - 1], own);
    }
  }

  /** Comparing a link list with itself tags every link "" and adds none. */
  lemma CompareLinksIdentity(ls: seq<Link>)
    ensures CompareLinks(ls, ls) == TagAll(ls, Unchanged)
  {
    forall j | 0 <= j < |ls| ensures HasKey(ls, ls[j]) {
      assert ls[j].Key() == ls[j].Key();
    }
    UnmatchedCovered(ls, ls);
  }

  /** Against an empty list every own link is "added". */
  lemma CompareLinksAgainstEmpty(ls: seq<Link>)
    ensures CompareLinks(ls, []) == TagAll(ls, Added)
  {
  }

  /** From an empty list every link of the other side is "removed". */
  lemma {:induction false} CompareLinksFromEmpty(ls: seq<Link>)
    ensures CompareLinks([], ls) == TagAll(ls, Removed)
    decreases |ls|
  {
    if ls != [] {
      CompareLinksFromEmpty(ls[..|ls| - 1]);
      assert TagAll(ls, Removed) == TagAll(ls[..|ls| - 1], Removed) + [ls[|ls| - 1].SetComp(Removed)];
    }
  }

  /** `l2` is the reciprocal of `l` held by the node at the far end: its
      interface names are swapped and it points back at `hostname`. */
  predicate IsReciprocal(l2: Link, l: Link, hostname: string)
  {
    l2.localIfname == l.remoteIfname && l2.remoteIfname == l.localIfname && l2.remoteHostname == hostname
  }

  /** The link that add_indirect_nodes gives the neighbour at the far end of
      `l`, held by a node named `hostname`: interfaces swapped, pointing back,
      without capabilities. When the names are already stripped it is the
      reciprocal of `l`, the link draw looks for. */
  function Reversed(l: Link, hostname: string): (r: Link)
    ensures r.Key() == (IfPart(l.remoteIfname), IfPart(l.localIfname), HostPart(hostname))
    ensures r.capabilities == "" && r.comp == Unchanged && !r.drawn
    ensures '.' !in hostname && ':' !in l.localIfname && ':' !in l.remoteIfname ==> IsReciprocal(r, l, hostname)
  {
    ReversedOfPlain(l, hostname);
    NewLink(IfPart(l.remoteIfname), IfPart(l.localIfname), hostname, "")
  }

  lemma ReversedOfPlain(l: Link, hostname: string)
    ensures '.' !in hostname && ':' !in l.localIfname && ':' !in l.remoteIfname ==>
              IsReciprocal(NewLink(IfPart(l.remoteIfname), IfPart(l.localIfname), hostname, ""), l, hostname)
  {
    if '.' !in hostname && ':' !in l.localIfname && ':' !in l.remoteIfname {
      IfPartOfPlain(l.localIfname);
      IfPartOfPlain(l.remoteIfname);
      HostPartOfPlain(hostname);
    }
  }

  /** The index of the first reciprocal of `l` in `ls`, or -1. */
  function ReciprocalIndex(ls: seq<Link>, l: Link, hostname: string): (k: int)
    ensures -1 <= k < |ls|
    ensures k == -1 <==> forall j :: 0 <= j < |ls| ==> !IsReciprocal(ls[j], l, hostname)
    ensures k >= 0 ==> IsReciprocal(ls[k], l, hostname) &&
                       forall j :: 0 <= j < k ==> !IsReciprocal(ls[j], l, hostname)
    decreases |ls|
  {
    if ls == [] then -1
    else if IsReciprocal(ls[0], l, hostname) then 0
    else
      var k := ReciprocalIndex(ls[1..], l, hostname);
      if k == -1 then -1 else k + 1
  }
}
