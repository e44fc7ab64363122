/** Device-type classification of GNode.set_device_type: an LLDP capability
    code string is mapped to a device type by a fixed precedence of rules. */
module DeviceTypes {

  /** The capability codes the classification looks at. */
  predicate HasCode(s: string)
  {
    'R' in s || 'T' in s || 'S' in s || 'B' in s || 'W' in s
  }

  /** The if-chain of set_device_type for a non-empty capability string; the
      raw string is the fallback when no rule matches. */
  function Classify(capabilities: string): (t: string)
    ensures !HasCode(t)
    ensures t == "" <==> capabilities == ""
    ensures !HasCode(capabilities) ==> t == capabilities
  {
    if 'R' in capabilities then
      if 'B' in capabilities then "l3switch" else "router"
    else if 'T' in capabilities then
      if 'B' in capabilities then "phonewithswitch" else "phone"
    else if 'S' in capabilities then "station"
    else if 'B' in capabilities then "l2switch"
    else if 'W' in capabilities then "ap"
    else capabilities
  }

  /** The device type a node holds after set_device_type(capabilities):
      an empty capability string leaves the current type alone. */
  function NextType(current: string, capabilities: string): (t: string)
    ensures capabilities == "" ==> t == current
    ensures capabilities != "" ==> t != "" && !HasCode(t)
    ensures Stable(current) ==> Stable(t)
  {
    if capabilities == "" then current else Classify(capabilities)
  }

  /** A device type that classification maps to itself. Every type a node
      can hold (the initial "" and every result of Classify) is stable. */
  predicate Stable(t: string)
  {
    Classify(t) == t
  }

  /** Classification is a fixed point on its own outputs. */
  lemma ClassifyIdempotent(capabilities: string)
    ensures Stable(Classify(capabilities))
  {
  }

  /** A type is stable exactly when it carries none of the codes. */
  lemma StableIffNoCode(t: string)
    ensures Stable(t) <==> !HasCode(t)
  {
  }

  /** Passing a stable type back into set_device_type (as add_node does with
      the existing node's type) gives that type, unless it is empty. */
  lemma NextTypeOfStable(current: string, t: string)
    requires Stable(t)
    ensures NextType(current, t) == if t == "" then current else t
    ensures Stable(current) ==> Stable(NextType(current, t))
  {
  }

  /** Applying the same capability string twice is applying it once. */
  lemma NextTypeIdempotent(current: string, capabilities: string)
    ensures NextType(NextType(current, capabilities), capabilities) == NextType(current, capabilities)
  {
  }

  /** The precedence table, as data: each rule lists the codes that must all
      be present and the type it yields. */
  const Rules: seq<(string, string)> :=
    [ ("RB", "l3switch"), ("R", "router"), ("TB", "phonewithswitch"), ("T", "phone"),
      ("S", "station"), ("B", "l2switch"), ("W", "ap") ]

  /** Every code of `codes` occurs in `capabilities`. */
  predicate AllIn(codes: string, capabilities: string)
  {
    forall i :: 0 <= i < |codes| ==> codes[i] in capabilities
  }

  /** The first rule whose codes are all present wins; the raw string is the
      fallback. */
  function FirstMatch(rules: seq<(string, string)>, capabilities: string): string
  {
    if rules == [] then capabilities
    else if AllIn(rules[0].0, capabilities) then rules[0].1
    else FirstMatch(rules[1..], capabilities)
  }

  /** The rule codes of the table, letter by letter. */
  lemma AllInCodes(c: string)
    ensures AllIn("RB", c) <==> 'R' in c && 'B' in c
    ensures AllIn("TB", c) <==> 'T' in c && 'B' in c
    ensures AllIn("R", c) <==> 'R' in c
    ensures AllIn("T", c) <==> 'T' in c
    ensures AllIn("S", c) <==> 'S' in c
    ensures AllIn("B", c) <==> 'B' in c
    ensures AllIn("W", c) <==> 'W' in c
  {
    assert "RB"[0] == 'R' && "RB"[1] == 'B';
    assert "TB"[0] == 'T' && "TB"[1] == 'B';
    assert "R"[0] == 'R' && "T"[0] == 'T' && "S"[0] == 'S' && "B"[0] == 'B' && "W"[0] == 'W';
  }

  /** The if-chain agrees with the first-match reading of the table. */
  lemma ClassifyIsFirstMatch(capabilities: string)
    ensures Classify(capabilities) == FirstMatch(Rules, capabilities)
  {
    var c := capabilities;
    AllInCodes(c);
    var r6 := [("W", "ap")];
    var r5 := [("B", "l2switch")] + r6;
    var r4 := [("S", "station")] + r5;
    var r3 := [("T", "phone")] + r4;
    var r2 := [("TB", "phonewithswitch")] + r3;
    var r1 := [("R", "router")] + r2;
    assert Rules == [("RB", "l3switch")] + r1;
    assert r6[1..] == [];
    assert FirstMatch(r6, c) == if 'W' in c then "ap" else c;
    assert r5[1..] == r6;
    assert FirstMatch(r5, c) == if 'B' in c then "l2switch" else FirstMatch(r6, c);
    assert r4[1..] == r5;
    assert FirstMatch(r4, c) == if 'S' in c then "station" else FirstMatch(r5, c);
    assert r3[1..] == r4;
    assert FirstMatch(r3, c) == if 'T' in c then "phone" else FirstMatch(r4, c);
    assert r2[1..] == r3;
    assert FirstMatch(r2, c) == if 'T' in c && 'B' in c then "phonewithswitch" else FirstMatch(r3, c);
    assert r1[1..] == r2;
    assert FirstMatch(r1, c) == if 'R' in c then "router" else FirstMatch(r2, c);
    assert Rules[1..] == r1;
  }

  /** A type name can come out of two ways: by its rule, or as a raw string
      that already equals it. For the router, say, "R" without "B" or the
      literal string "router". */
  lemma RouterExactly(capabilities: string)
    ensures Classify(capabilities) == "router" <==>
            ('R' in capabilities && 'B' !in capabilities) || capabilities == "router"
  {
  }
}
