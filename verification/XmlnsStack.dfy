/** The namespace stack as talk/xmllite keeps it: one flat vector in which
    prefixes and namespaces alternate, and one vector of earlier sizes. */
module XmlnsStack {
  import opened Options
  import opened XmlTree
  import B = XmlnsBindings

  /** The bindings held by a flat vector. */
  function Pairs(flat: seq<string>): (r: B.Bindings)
    requires |flat| % 2 == 0
    ensures |r| == |flat| / 2
  {
    seq(|flat| / 2, i requires 0 <= i < |flat| / 2 => B.Binding(flat[2 * i], flat[2 * i + 1]))
  }

  function Halves(sizes: seq<nat>): seq<nat> {
    seq(|sizes|, i requires 0 <= i < |sizes| => sizes[i] / 2)
  }

  /** The length of a namespace without its extension. */
  method ChopExtension(ns: string) returns (len: nat)
    ensures len == B.Stem(ns)
  {
    len := |ns|;
    var i: nat := |ns|;
    while i > 0 && ns[i - 1] != '.'
      invariant i <= |ns|
      invariant B.AfterLast(ns, |ns|, '.') == B.AfterLast(ns, i, '.')
    {
      i := i - 1;
    }
    if i > 0 && len - (i - 1) <= 4 + 1 {
      len := i - 1;
    }
  }

  /** The last run of letters within the first len characters, if any. */
  method LastWord(ns: string, len: nat) returns (first: nat, last: nat)
    requires len <= |ns|
    ensures last == B.AfterLastLetter(ns, len)
    ensures last > 0 ==> first == B.RunStart(ns, last - 1)
  {
    first, last := 0, len;
    while last > 0 && !B.IsLetter(ns[last - 1])
      invariant 0 <= last <= len
      invariant B.AfterLastLetter(ns, len) == B.AfterLastLetter(ns, last)
    {
      last := last - 1;
    }
    if last > 0 {
      first := last - 1;
      while first > 0 && B.IsLetter(ns[first - 1])
        invariant 0 <= first <= last - 1
        invariant B.RunStart(ns, last - 1) == B.RunStart(ns, first)
      {
        first := first - 1;
      }
    }
  }

  /** The lower-case word proposed as a prefix for a namespace. */
  method SuggestPrefix(ns: string) returns (r: string)
    ensures r == B.SuggestPrefix(ns)
  {
    var len := ChopExtension(ns);
    var first, last := LastWord(ns, len);
    if last == 0 {
      return "ns";
    }
    if last - first > 4 {
      last := first + 3;
    }
    var candidate := B.LowerAll(ns[first..last]);
    return if "xml" <= candidate then "ns" else candidate;
  }

  class XmlnsStack {
    var stack: seq<string>
    var depths: seq<nat>

    ghost predicate Valid()
      reads this
    {
      |stack| % 2 == 0 && forall i :: 0 <= i < |depths| ==> depths[i] % 2 == 0
    }

    ghost function Contents(): B.Bindings
      requires Valid()
      reads this
    {
      Pairs(stack)
    }

    ghost function Frames(): seq<nat>
      reads this
    {
      Halves(depths)
    }

    constructor ()
      ensures Valid() && Contents() == [] && Frames() == []
    {
      stack, depths := [], [];
    }

    method PushFrame()
      requires Valid()
      modifies this
      ensures Valid() && Contents() == old(Contents()) && Frames() == old(Frames()) + [|old(Contents())|]
    {
      depths := depths + [|stack|];
    }

    /** Forgets every binding made since the matching PushFrame. */
    method PopFrame()
      requires Valid() && depths != []
      modifies this
      ensures Valid() && Frames() == old(Frames())[..|old(Frames())| - 1]
      ensures var size := old(Frames())[|old(Frames())| - 1];
        Contents() == if size < |old(Contents())| then old(Contents())[..size] else old(Contents())
    {
      var size := depths[|depths| - 1];
      depths := depths[..|depths| - 1];
      if size < |stack| {
        stack := stack[..size];
      }
    }

    method AddXmlns(prefix: string, ns: string)
      requires Valid()
      modifies this
      ensures Valid() && Contents() == old(Contents()) + [B.Binding(prefix, ns)] && Frames() == old(Frames())
    {
      stack := stack + [prefix, ns];
    }

    method RemoveXmlns()
      requires Valid() && Contents() != []
      modifies this
      ensures Valid() && Contents() == old(Contents())[..|old(Contents())| - 1] && Frames() == old(Frames())
    {
      stack := stack[..|stack| - 2];
    }

    method Reset()
      modifies this
      ensures Valid() && Contents() == [] && Frames() == []
    {
      stack, depths := [], [];
    }

    method NsForPrefix(prefix: string) returns (r: Option<string>)
      requires Valid()
      ensures r == B.NsForPrefix(Contents(), prefix)
    {
      if B.XmlPrefixed(prefix) {
        if prefix == "xml" {
          return Some(NS_XML);
        }
        if prefix == "xmlns" {
          return Some(NS_XMLNS);
        }
        return None;
      }
      ghost var b := Contents();
      var pos := |stack|;
      assert b[..pos / 2] == b;
      while pos > 0
        invariant 0 <= pos <= |stack| && pos % 2 == 0
        invariant B.Lookup(b, prefix) == B.Lookup(b[..pos / 2], prefix)
      {
        assert b[..pos / 2][..pos / 2 - 1] == b[..(pos - 2) / 2];
        pos := pos - 2;
        if stack[pos] == prefix {
          return Some(stack[pos + 1]);
        }
      }
      return if prefix == "" then Some("") else None;
    }

    method PrefixMatchesNs(prefix: string, ns: string) returns (r: bool)
      requires Valid()
      ensures r <==> B.NsForPrefix(Contents(), prefix) == Some(ns)
    {
      var found := NsForPrefix(prefix);
      return found == Some(ns);
    }

    method PrefixForNs(ns: string, isAttr: bool) returns (r: Option<string>)
      requires Valid()
      ensures r == B.PrefixForNs(Contents(), ns, isAttr)
    {
      if ns == NS_XML {
        return Some("xml");
      }
      if ns == NS_XMLNS {
        return Some("xmlns");
      }
      var implicit;
      if isAttr {
        implicit := ns == "";
      } else {
        implicit := PrefixMatchesNs("", ns);
      }
      if implicit {
        return Some("");
      }
      ghost var b := Contents();
      var pos := |stack|;
      while pos > 0
        invariant 0 <= pos <= |stack| && pos % 2 == 0
        invariant B.Scan(b, |b|, ns, isAttr) == B.Scan(b, pos / 2, ns, isAttr)
      {
        pos := pos - 2;
        assert b[pos / 2] == B.Binding(stack[pos], stack[pos + 1]);
        var matches := PrefixMatchesNs(stack[pos], ns);
        if stack[pos + 1] == ns && (!isAttr || stack[pos] != "") && matches {
          return Some(stack[pos]);
        }
      }
      return None;
    }

    method FormatQName(name: QName, isAttr: bool) returns (r: string)
      requires Valid()
      ensures r == B.FormatQName(Contents(), name, isAttr)
    {
      var prefix := PrefixForNs(name.ns, isAttr);
      if prefix.None? || prefix.value == "" {
        return name.local;
      }
      return prefix.value + ":" + name.local;
    }

    /** Binds a fresh prefix to ns unless one serves it already. The loop ends
        as every rejected name uses up one more prefix of the stack. */
    method AddNewPrefix(ns: string, isAttr: bool) returns (r: Option<string>)
      requires Valid()
      modifies this
      ensures Valid() && Frames() == old(Frames())
      ensures r == B.NewPrefix(old(Contents()), ns, isAttr)
      ensures Contents() == old(Contents()) + (if r.Some? then [B.Binding(r.value, ns)] else [])
    {
      var served := PrefixForNs(ns, isAttr);
      if served.Some? {
        return None;
      }
      var base := SuggestPrefix(ns);
      var result := base;
      var i := 2;
      ghost var b := Contents();
      var bound := NsForPrefix(result);
      while bound.Some?
        invariant Valid() && Contents() == b && Frames() == old(Frames())
        invariant i >= 2 && result == B.Candidate(base, i - 1) && bound == B.NsForPrefix(b, result)
        invariant B.FirstFree(b, base, 1) == B.FirstFree(b, base, i - 1)
        decreases |B.Prefixes(b) - B.Tried(base, i - 1)|
      {
        B.SearchShrinks(b, base, i - 1);
        result := base + B.Decimal(i);
        i := i + 1;
        bound := NsForPrefix(result);
      }
      AddXmlns(result, ns);
      return Some(result);
    }
  }
}
