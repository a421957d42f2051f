/** The builder of talk/xmllite: it grows a tree of mutable elements, knowing
    the element that is open and the parents around it. */
module XmlBuilder {
  import opened Options
  import opened XmlTree
  import B = XmlnsBindings
  import P = XmlPrint
  import Q = XmlParse
  import opened XmlnsStack
  import opened XmlElements

  /** Finished elements and what they hold. */
  type Closed = map<XmlElement, Element>

  ghost predicate MirrorsAt(c: XmlChild, t: Child, closed: Closed) {
    match c
    case TextNode(text) => t == Text(text)
    case ElementNode(e) => e in closed && t == Elem(closed[e])
  }

  /** One list of children shows the other, all its elements being finished. */
  ghost predicate Mirrors(cs: seq<XmlChild>, ts: seq<Child>, closed: Closed)
    decreases |cs|
  {
    var n := |cs|;
    n == |ts| && (n > 0 ==> MirrorsAt(cs[n - 1], ts[n - 1], closed) && Mirrors(cs[..n - 1], ts[..n - 1], closed))
  }

  /** Adding text keeps a list and its value alike. */
  lemma MirrorsText(cs: seq<XmlChild>, ts: seq<Child>, closed: Closed, text: string)
    requires Mirrors(cs, ts, closed)
    ensures Mirrors(AddTextNode(cs, text), Q.AddText(ts, text), closed)
  {
    var n := |cs|;
    if text != "" {
      if n > 0 && cs[n - 1].TextNode? {
        assert AddTextNode(cs, text)[..n - 1] == cs[..n - 1] && Q.AddText(ts, text)[..n - 1] == ts[..n - 1];
      } else {
        assert AddTextNode(cs, text)[..n] == cs && Q.AddText(ts, text)[..n] == ts;
      }
    }
  }

  lemma {:induction false} MirrorsMore(cs: seq<XmlChild>, ts: seq<Child>, closed: Closed, e: XmlElement, t: Element)
    requires Mirrors(cs, ts, closed) && e !in closed
    ensures Mirrors(cs, ts, closed[e := t])
    decreases |cs|
  {
    if cs != [] {
      MirrorsMore(cs[..|cs| - 1], ts[..|ts| - 1], closed, e, t);
    }
  }

  lemma {:induction false} MirrorsEach(cs: seq<XmlChild>, ts: seq<Child>, closed: Closed, i: nat)
    requires Mirrors(cs, ts, closed) && i < |cs|
    ensures i < |ts| && MirrorsAt(cs[i], ts[i], closed)
    decreases |cs|
  {
    if i < |cs| - 1 {
      MirrorsEach(cs[..|cs| - 1], ts[..|ts| - 1], closed, i);
    }
  }

  class XmlBuilder {
    var current: XmlElement?
    var root: XmlElement?
    var parents: seq<XmlElement?>
    /** The open elements, outermost first, and what each holds besides the
        open child; and the finished elements. */
    ghost var spine: seq<XmlElement>
    ghost var held: seq<Element>
    ghost var closed: Closed

    /** An element shows its value and then its open child, if it has one. */
    static ghost predicate Shows(e: XmlElement, t: Element, child: XmlElement?, closed: Closed)
      reads e
    {
      && e.name == t.name && e.attrs == t.attrs
      && (child == null ==> Mirrors(e.children, t.children, closed))
      && (child != null ==>
        && e.children != [] && e.children[|e.children| - 1] == ElementNode(child)
        && Mirrors(e.children[..|e.children| - 1], t.children, closed))
    }

    static ghost function Innermost(spine: seq<XmlElement>): XmlElement? {
      if spine == [] then null else spine[|spine| - 1]
    }

    /** The parent of each open element. */
    static ghost function ParentsOf(spine: seq<XmlElement>): (r: seq<XmlElement?>)
      ensures |r| == |spine|
    {
      if spine == [] then [] else ParentsOf(spine[..|spine| - 1]) + [Innermost(spine[..|spine| - 1])]
    }

    /** The stack of parents is the spine of open elements; the document element
        is the outermost one, unless it was handed over. */
    static ghost predicate Shape(current: XmlElement?, root: XmlElement?, parents: seq<XmlElement?>,
                                 spine: seq<XmlElement>, closed: Closed)
    {
      && parents == ParentsOf(spine)
      && current == Innermost(spine)
      && (spine != [] ==> root == spine[0] || root == null)
      && (spine == [] && root != null ==> root in closed)
    }

    static ghost predicate FinishedShow(closed: Closed)
      reads closed.Keys
    {
      forall e :: e in closed ==> Shows(e, closed[e], null, closed)
    }

    /** Each open element shows what it holds and then the next one; the last
        shows child. */
    static ghost predicate SpineShows(spine: seq<XmlElement>, held: seq<Element>, child: XmlElement?, closed: Closed)
      reads spine
      decreases |spine|
    {
      var n := |spine|;
      && n == |held|
      && (n > 0 ==>
        && spine[n - 1] !in closed && spine[n - 1] !in spine[..n - 1]
        && Shows(spine[n - 1], held[n - 1], child, closed)
        && SpineShows(spine[..n - 1], held[..n - 1], spine[n - 1], closed))
    }

    ghost predicate Valid()
      reads this, closed.Keys, spine
    {
      && Shape(current, root, parents, spine, closed)
      && FinishedShow(closed)
      && SpineShows(spine, held, null, closed)
    }

    /** The finished document element. */
    ghost function Finished(): Option<Element>
      reads this
    {
      if spine == [] && root != null && root in closed then Some(closed[root]) else None
    }

    constructor ()
      ensures Valid() && held == [] && closed == map[] && Finished() == None
    {
      current, root, parents := null, null, [];
      spine, held, closed := [], [], map[];
    }

    /** The element of a start tag, or null when a prefix is unbound or a
        namespaced attribute comes twice. */
    static method BuildElement(ctx: XmlnsStack, raw: string, atts: seq<RawAttr>) returns (el: XmlElement?)
      requires ctx.Valid()
      ensures el != null <==> Q.BuildElement(ctx.Contents(), raw, atts).Some?
      ensures el != null ==> fresh(el) && el.children == []
      ensures el != null ==> Q.BuildElement(ctx.Contents(), raw, atts) == Some(Element(el.name, el.attrs, []))
    {
      ghost var b := ctx.Contents();
      var name := ResolveQName(ctx, raw, false);
      if name.IsEmpty() {
        return null;
      }
      var built := new XmlElement(name);
      var seen: set<QName> := {};
      var i := 0;
      assert atts[0..] == atts;
      assert forall xs: seq<Attr> :: [] + xs == xs;
      while i < |atts|
        invariant 0 <= i <= |atts| && fresh(built) && ctx.Valid() && ctx.Contents() == b
        invariant built.name == name && built.children == []
        invariant var rest := Q.BuildAttrs(b, atts[i..], seen);
          Q.BuildAttrs(b, atts, {}) == if rest.None? then None else Some(built.attrs + rest.value)
      {
        assert atts[i..][1..] == atts[i + 1..];
        var attName := ResolveQName(ctx, atts[i].name, true);
        if attName.IsEmpty() {
          return null;
        }
        if attName.ns != "" {
          if attName in seen {
            return null;
          }
          seen := seen + {attName};
        }
        ghost var rest := Q.BuildAttrs(b, atts[i + 1..], seen);
        if rest.Some? {
          P.Assoc(built.attrs, [Attr(attName, atts[i].value)], rest.value);
        }
        built.AddAttr(attName, atts[i].value);
        i := i + 1;
      }
      assert built.attrs + [] == built.attrs;
      return built;
    }

    /** Splits a raw name at its first colon and looks its prefix up. */
    static method ResolveQName(ctx: XmlnsStack, raw: string, isAttr: bool) returns (r: QName)
      requires ctx.Valid()
      ensures r == B.ResolveQName(ctx.Contents(), raw, isAttr)
    {
      var c := 0;
      while c < |raw|
        invariant 0 <= c <= |raw| && NoColon(raw[..c])
      {
        if raw[c] == ':' {
          assert raw == raw[..c] + ":" + raw[c + 1..];
          B.FirstColonAt(raw[..c], raw[c + 1..]);
          var found := ctx.NsForPrefix(raw[..c]);
          return if found.None? then QName("", "") else QName(found.value, raw[c + 1..]);
        }
        c := c + 1;
      }
      assert raw[..|raw|] == raw;
      if isAttr {
        return QName("", raw);
      }
      var found := ctx.NsForPrefix("");
      return if found.None? then QName("", "") else QName(found.value, raw);
    }

    /** Opens an element under the current one, or as the document element. */
    method StartElement(ctx: XmlnsStack, raw: string, atts: seq<RawAttr>) returns (ok: bool)
      requires Valid() && ctx.Valid()
      modifies this, spine
      ensures ok <==> Q.BuildElement(ctx.Contents(), raw, atts).Some?
      ensures Valid() && closed == old(closed) && forall e :: e in spine && e !in old(spine) ==> fresh(e)
      ensures ctx.Valid() && ctx.Contents() == old(ctx.Contents()) && ctx.Frames() == old(ctx.Frames())
      ensures held == old(held) + (if ok then [Q.BuildElement(ctx.Contents(), raw, atts).value] else [])
      ensures Finished() == if ok then None else old(Finished())
      ensures if ok && old(spine) == [] then root != null else root == old(root)
      ensures ok ==> spine != []
    {
      var built := BuildElement(ctx, raw, atts);
      if built == null {
        return false;
      }
      Attach(built);
      return true;
    }

    static lemma AttachShape(current: XmlElement?, root: XmlElement?, parents: seq<XmlElement?>,
                             spine: seq<XmlElement>, closed: Closed, built: XmlElement)
      requires Shape(current, root, parents, spine, closed)
      ensures Shape(built, if current == null then built else root, parents + [current], spine + [built], closed)
    {
      assert (spine + [built])[..|spine|] == spine;
    }

    static lemma SpineSnoc(spine: seq<XmlElement>, held: seq<Element>, x: XmlElement, u: Element,
                           child: XmlElement?, closed: Closed)
      requires SpineShows(spine, held, x, closed) && Shows(x, u, child, closed)
      requires x !in closed && x !in spine
      ensures SpineShows(spine + [x], held + [u], child, closed)
    {
      assert (spine + [x])[..|spine|] == spine && (held + [u])[..|held|] == held;
    }

    /** The new element is current, with the old one as its parent. */
    method Push(built: XmlElement)
      requires Shape(current, root, parents, spine, closed)
      modifies this`current, this`parents, this`root
      ensures Shape(current, root, parents, spine + [built], closed)
      ensures if spine == [] then root != null else root == old(root)
    {
      AttachShape(current, root, parents, spine, closed, built);
      if current == null {
        root := built;
      }
      parents := parents + [current];
      current := built;
    }

    method Attach(built: XmlElement)
      requires Valid() && built !in closed && built !in spine && built.children == []
      modifies this, spine
      ensures Valid() && closed == old(closed) && spine == old(spine) + [built]
      ensures held == old(held) + [Element(built.name, built.attrs, [])] && Finished() == None
      ensures if old(spine) == [] then root != null else root == old(root)
    {
      hide *;
      ghost var value := Element(built.name, built.attrs, []);
      BeforeAttach(built);
      if current != null {
        GrowCurrent(built);
      }
      Push(built);
      BuiltShows(built, closed);
      SpineSnoc(spine, held, built, value, null, closed);
      spine, held := spine + [built], held + [value];
      Ended();
    }

    lemma BeforeAttach(built: XmlElement)
      requires Valid()
      ensures Shape(current, root, parents, spine, closed) && FinishedShow(closed)
      ensures if current == null then SpineShows(spine, held, built, closed) else current in spine
    {
    }

    static lemma BuiltShows(built: XmlElement, closed: Closed)
      requires built.children == []
      ensures Shows(built, Element(built.name, built.attrs, []), null, closed)
    {
    }

    /** The new element goes last among the children of the current one. */
    method GrowCurrent(built: XmlElement)
      requires Valid() && current != null
      modifies current
      ensures Shape(current, root, parents, spine, closed) && FinishedShow(closed)
      ensures SpineShows(spine, held, built, closed)
    {
      ghost var n := |spine| - 1;
      assert SpineShows(spine[..n], held[..n], current, closed);
      current.AddElement(built);
      assert current.children[..|current.children| - 1] == old(current.children);
    }

    method CharacterData(text: string)
      requires Valid()
      modifies this`held, spine
      ensures Valid() && closed == old(closed) && spine == old(spine)
      ensures held == Q.AfterText(old(held), text)
      ensures Finished() == old(Finished())
    {
      if current != null {
        GrowText(text);
        held := Q.AfterText(held, text);
      }
    }

    method GrowText(text: string)
      requires Valid() && current != null
      modifies current
      ensures Shape(current, root, parents, spine, closed) && FinishedShow(closed)
      ensures SpineShows(spine, Q.AfterText(held, text), null, closed)
    {
      ghost var n := |spine| - 1;
      MirrorsText(current.children, held[n].children, closed, text);
      assert SpineShows(spine[..n], held[..n], current, closed);
      current.AddParsedText(text);
      assert Q.AfterText(held, text)[..n] == held[..n];
    }

    /** An element that shows its value still does when another is finished. */
    static lemma ShowsMore(e: XmlElement, t: Element, child: XmlElement?, closed: Closed, x: XmlElement, u: Element)
      requires Shows(e, t, child, closed) && x !in closed
      ensures Shows(e, t, child, closed[x := u])
    {
      MirrorsMore(if child == null then e.children else e.children[..|e.children| - 1], t.children, closed, x, u);
    }

    static lemma EndFinishes(closed: Closed, x: XmlElement, u: Element)
      requires FinishedShow(closed) && x !in closed && Shows(x, u, null, closed)
      ensures FinishedShow(closed[x := u])
    {
      ShowsMore(x, u, null, closed, x, u);
      forall e | e in closed ensures Shows(e, closed[e], null, closed[x := u]) {
        ShowsMore(e, closed[e], null, closed, x, u);
      }
    }

    static lemma {:induction false} SpineShowsMore(spine: seq<XmlElement>, held: seq<Element>, child: XmlElement?,
                                                  closed: Closed, x: XmlElement, u: Element)
      requires SpineShows(spine, held, child, closed) && x !in closed && x !in spine
      ensures SpineShows(spine, held, child, closed[x := u])
      decreases |spine|
    {
      var n := |spine|;
      if n > 0 {
        ShowsMore(spine[n - 1], held[n - 1], child, closed, x, u);
        SpineShowsMore(spine[..n - 1], held[..n - 1], spine[n - 1], closed, x, u);
      }
    }

    /** A parent whose open child is finished shows it among its children. */
    static lemma ParentShows(e: XmlElement, t: Element, x: XmlElement, u: Element, closed: Closed)
      requires Shows(e, t, x, closed) && x in closed && closed[x] == u
      ensures Shows(e, t.(children := t.children + [Elem(u)]), null, closed)
    {
      assert (t.children + [Elem(u)])[..|t.children|] == t.children;
    }

    static lemma EndShortens(spine: seq<XmlElement>, held: seq<Element>, closed: Closed, n: nat)
      requires |spine| == n + 1 && SpineShows(spine, held, null, closed)
      ensures SpineShows(spine[..n], Q.AfterEnd(held), null, closed[spine[n] := held[n]])
    {
      var x, u := spine[n], held[n];
      SpineShowsMore(spine[..n], held[..n], x, closed, x, u);
      if n > 0 {
        ParentShows(spine[n - 1], held[n - 1], x, u, closed[x := u]);
        assert Q.AfterEnd(held)[..n - 1] == held[..n][..n - 1];
        assert spine[..n][..n - 1] == spine[..n - 1];
      }
    }

    static lemma EndShape(current: XmlElement?, root: XmlElement?, parents: seq<XmlElement?>,
                          spine: seq<XmlElement>, closed: Closed, n: nat, u: Element)
      requires Shape(current, root, parents, spine, closed) && |spine| == n + 1
      ensures Shape(parents[n], root, parents[..n], spine[..n], closed[spine[n] := u])
      ensures n == 0 ==> root == spine[0] || root == null
    {
    }

    /** The stacks without their innermost element. */
    method Pop()
      requires Valid() && spine != []
      modifies this`current, this`parents
      ensures Shape(current, root, parents, spine[..|spine| - 1], closed[spine[|spine| - 1] := held[|spine| - 1]])
      ensures |spine| == 1 ==> root == spine[0] || root == null
    {
      EndShape(current, root, parents, spine, closed, |parents| - 1, held[|spine| - 1]);
      current, parents := parents[|parents| - 1], parents[..|parents| - 1];
    }

    /** Everything that shows still does when the innermost element is finished. */
    lemma EndShows(n: nat)
      requires Valid() && |spine| == n + 1
      ensures |held| == n + 1
      ensures FinishedShow(closed[spine[n] := held[n]])
      ensures SpineShows(spine[..n], Q.AfterEnd(held), null, closed[spine[n] := held[n]])
    {
      EndFinishes(closed, spine[n], held[n]);
      EndShortens(spine, held, closed, n);
    }

    /** Closes the current element: it is a child of its parent for good. */
    method EndElement()
      requires Valid() && spine != []
      modifies this
      ensures Valid() && spine == old(spine)[..|old(spine)| - 1] && root == old(root)
      ensures closed.Keys == old(closed).Keys + {old(spine)[|old(spine)| - 1]}
      ensures held == Q.AfterEnd(old(held))
      ensures Finished() == if |old(held)| == 1 && root != null then Some(old(held)[0]) else None
    {
      hide *;
      ghost var n := |spine| - 1;
      EndShows(n);
      ghost var more, rest := closed[spine[n] := held[n]], Q.AfterEnd(held);
      Pop();
      closed, held, spine := more, rest, spine[..n];
      Ended();
    }

    lemma Ended()
      requires Shape(current, root, parents, spine, closed) && FinishedShow(closed) && SpineShows(spine, held, null, closed)
      ensures Valid()
      ensures Finished() == if spine == [] && root != null && root in closed then Some(closed[root]) else None
    {
    }

    /** Drops what was built. */
    method Error()
      modifies this
      ensures Valid() && held == [] && spine == [] && closed == map[] && Finished() == None
    {
      root, current, parents := null, null, [];
      spine, held, closed := [], [], map[];
    }

    /** Hands the document element over, finished or not. */
    method CreateElement() returns (r: XmlElement?)
      requires Valid()
      modifies this`root
      ensures Valid() && Finished() == None && closed == old(closed) && root == null && r == old(root)
      ensures spine == [] && r != null ==> r in closed && old(Finished()) == Some(closed[r])
      ensures spine == [] && r == null ==> old(Finished()) == None
      ensures spine != [] && r != null ==> r == spine[0]
    {
      r := root;
      root := null;
    }

    /** The real lists below a finished element hold what its value says. */
    method Snapshot(e: XmlElement) returns (t: Element)
      requires Valid() && e in closed
      ensures t == closed[e]
      decreases closed[e]
    {
      var cs: seq<Child> := [];
      var i := 0;
      assert Shows(e, closed[e], null, closed);
      while i < |e.children|
        invariant 0 <= i <= |e.children| && cs == closed[e].children[..i]
      {
        MirrorsEach(e.children, closed[e].children, closed, i);
        match e.children[i] {
          case TextNode(text) =>
            cs := cs + [Text(text)];
          case ElementNode(c) =>
            assert closed[e].children[i] == Elem(closed[c]);
            var sub := Snapshot(c);
            cs := cs + [Elem(sub)];
        }
        i := i + 1;
      }
      return Element(e.name, e.attrs, cs);
    }
  }
}
