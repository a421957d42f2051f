/** The copy constructor of an element (talk/xmllite/xmlelement.cc): it copies
    everything below, too, and shares nothing with the original. */
module XmlCopies {
  import opened XmlTree
  import opened XmlElements
  import opened XmlBuilder

  lemma {:induction false} MirrorsUnion(cs: seq<XmlChild>, ts: seq<Child>, a: Closed, b: Closed)
    requires a.Keys !! b.Keys && (Mirrors(cs, ts, a) || Mirrors(cs, ts, b))
    ensures Mirrors(cs, ts, a + b)
    decreases |cs|
  {
    if cs != [] {
      MirrorsUnion(cs[..|cs| - 1], ts[..|ts| - 1], a, b);
    }
  }

  /** Two sets of finished elements that have none in common. */
  lemma UnionShows(a: Closed, b: Closed)
    requires a.Keys !! b.Keys && XmlBuilder.FinishedShow(a) && XmlBuilder.FinishedShow(b)
    ensures XmlBuilder.FinishedShow(a + b)
  {
    forall e | e in a + b
      ensures XmlBuilder.Shows(e, (a + b)[e], null, a + b)
    {
      MirrorsUnion(e.children, (a + b)[e].children, a, b);
    }
  }

  lemma MirrorsSnoc(cs: seq<XmlChild>, ts: seq<Child>, closed: Closed, c: XmlChild, t: Child)
    requires Mirrors(cs, ts, closed) && MirrorsAt(c, t, closed)
    ensures Mirrors(cs + [c], ts + [t], closed)
  {
    assert (cs + [c])[..|cs|] == cs && (ts + [t])[..|ts|] == ts;
  }

  lemma CopyShows(c: XmlElement, t: Element, copies: Closed)
    requires XmlBuilder.FinishedShow(copies) && c !in copies
    requires c.name == t.name && c.attrs == t.attrs && Mirrors(c.children, t.children, copies)
    ensures XmlBuilder.FinishedShow(copies[c := t])
  {
    XmlBuilder.EndFinishes(copies, c, t);
  }

  lemma ShowsMeans(e: XmlElement, closed: Closed)
    requires e in closed && XmlBuilder.FinishedShow(closed)
    ensures e.name == closed[e].name && e.attrs == closed[e].attrs && |e.children| == |closed[e].children|
  {
    assert XmlBuilder.Shows(e, closed[e], null, closed);
  }

  lemma ChildShows(e: XmlElement, closed: Closed, i: nat)
    requires e in closed && XmlBuilder.FinishedShow(closed) && i < |e.children|
    ensures |e.children| == |closed[e].children|
    ensures var c, t := e.children[i], closed[e].children[i];
            if c.TextNode? then t == Text(c.text) else c.element in closed && t == Elem(closed[c.element])
  {
    assert XmlBuilder.Shows(e, closed[e], null, closed);
    MirrorsEach(e.children, closed[e].children, closed, i);
  }

  lemma NothingShows()
    ensures XmlBuilder.FinishedShow(map[]) && Mirrors([], [], map[])
  {
  }

  lemma TextMirrors(text: string, closed: Closed)
    ensures MirrorsAt(TextNode(text), Text(text), closed)
  {
  }

  lemma ElementMirrors(e: XmlElement, closed: Closed)
    requires e in closed
    ensures MirrorsAt(ElementNode(e), Elem(closed[e]), closed)
  {
  }

  /** The copy shows the same value as the original, with elements of its own all
      the way down. */
  method Copy(e: XmlElement, ghost closed: Closed) returns (c: XmlElement, ghost copies: Closed)
    requires e in closed && XmlBuilder.FinishedShow(closed)
    ensures c in copies && copies[c] == closed[e] && XmlBuilder.FinishedShow(copies)
    ensures forall x :: x in copies ==> fresh(x)
    decreases closed[e]
  {
    hide *;
    ghost var value := closed[e];
    ShowsMeans(e, closed);
    c := new XmlElement(e.name);
    c.attrs := e.attrs;
    copies := map[];
    NothingShows();
    var i := 0;
    while i < |e.children|
      invariant i <= |e.children| == |value.children|
      invariant c.name == value.name && c.attrs == value.attrs && c !in copies
      invariant XmlBuilder.FinishedShow(copies) && forall x :: x in copies ==> fresh(x)
      invariant Mirrors(c.children, value.children[..i], copies)
    {
      hide *;
      ChildShows(e, closed, i);
      ghost var before := c.children;
      match e.children[i] {
        case TextNode(text) =>
          c.children := c.children + [TextNode(text)];
          TextMirrors(text, copies);
          MirrorsSnoc(before, value.children[..i], copies, TextNode(text), Text(text));
        case ElementNode(k) =>
          ghost var had := copies;
          var sub;
          ghost var more;
          sub, more := Copy(k, closed);
          UnionShows(had, more);
          MirrorsUnion(before, value.children[..i], had, more);
          copies := had + more;
          ElementMirrors(sub, copies);
          MirrorsSnoc(before, value.children[..i], copies, ElementNode(sub), Elem(closed[k]));
          c.children := c.children + [ElementNode(sub)];
      }
      assert value.children[..i + 1] == value.children[..i] + [value.children[i]];
      i := i + 1;
    }
    assert value.children[..i] == value.children;
    CopyShows(c, value, copies);
    copies := copies[c := value];
  }
}
