/** Name normalisation used by the GLink and GNode constructors and by
    GNode.add_link_str: a hostname keeps only its first label (the text
    before the first '.'), an interface name keeps only the text after its
    last ':' (a module or port-role prefix is dropped). */
module Names {

  /** `s.split('.')[0]`: the text before the first '.', or all of `s`. */
  function HostPart(s: string): (r: string)
    ensures '.' !in r
    ensures r <= s
    ensures |r| < |s| ==> s[|r|] == '.'
  {
    if s == [] then []
    else if s[0] == '.' then []
    else [s[0]] + HostPart(s[1..])
  }

  /** `s.split(':')[-1]`: the text after the last ':', or all of `s`. */
  function IfPart(s: string): (r: string)
    ensures ':' !in r
    ensures |r| <= |s|
    ensures |r| < |s| ==> s[|s| - |r| - 1] == ':'
  {
    if s == [] then []
    else if s[|s| - 1] == ':' then []
    else IfPart(s[..|s| - 1]) + [s[|s| - 1]]
  }

  /** A name without a '.' is its own host part. */
  lemma {:induction false} HostPartOfPlain(s: string)
    requires '.' !in s
    ensures HostPart(s) == s
  {
    if s != [] {
      HostPartOfPlain(s[1..]);
    }
  }

  /** Stripping the domain twice is stripping it once. */
  lemma HostPartIdempotent(s: string)
    ensures HostPart(HostPart(s)) == HostPart(s)
  {
    HostPartOfPlain(HostPart(s));
  }

  /** The three properties of HostPart determine it: whatever is a '.'-free
      prefix of `s` that stops at a '.' or at the end is the host part. */
  lemma {:induction false} HostPartUnique(s: string, r: string)
    requires '.' !in r && r <= s
    requires |r| < |s| ==> s[|r|] == '.'
    ensures r == HostPart(s)
  {
    if s != [] && s[0] != '.' {
      assert r != [] && r[0] == s[0];
      HostPartUnique(s[1..], r[1..]);
    }
  }

  /** The interface part is what follows the dropped prefix: `s` is that
      prefix followed by IfPart(s). */
  lemma {:induction false} IfPartIsSuffix(s: string)
    ensures s[..|s| - |IfPart(s)|] + IfPart(s) == s
  {
    if s != [] && s[|s| - 1] != ':' {
      var t := s[..|s| - 1];
      IfPartIsSuffix(t);
      assert t[..|t| - |IfPart(t)|] == s[..|s| - |IfPart(s)|];
      calc {
        s[..|s| - |IfPart(s)|] + IfPart(s);
        t[..|t| - |IfPart(t)|] + (IfPart(t) + [s[|s| - 1]]);
        (t[..|t| - |IfPart(t)|] + IfPart(t)) + [s[|s| - 1]];
        t + [s[|s| - 1]];
        s;
      }
    }
  }

  /** An interface name without a ':' is kept as it is. */
  lemma {:induction false} IfPartOfPlain(s: string)
    requires ':' !in s
    ensures IfPart(s) == s
  {
    if s != [] {
      IfPartOfPlain(s[..|s| - 1]);
    }
  }

  /** Dropping the prefix twice is dropping it once. */
  lemma IfPartIdempotent(s: string)
    ensures IfPart(IfPart(s)) == IfPart(s)
  {
    IfPartOfPlain(IfPart(s));
  }
}
