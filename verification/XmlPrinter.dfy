/** The printer of talk/xmllite, writing tokens instead of text. */
module XmlPrinter {
  import opened Options
  import opened XmlTree
  import B = XmlnsBindings
  import P = XmlPrint
  import opened XmlnsStack

  class XmlPrinter {
    var out: seq<Token>
    const nsStack: XmlnsStack

    constructor (nsStack: XmlnsStack)
      ensures out == [] && this.nsStack == nsStack
    {
      this.out, this.nsStack := [], nsStack;
    }

    /** Prints one element. The namespace stack is as before when it is done. */
    method PrintElement(element: Element)
      requires nsStack.Valid()
      modifies this`out, nsStack
      ensures nsStack.Valid() && nsStack.Contents() == old(nsStack.Contents()) && nsStack.Frames() == old(nsStack.Frames())
      ensures out == old(out) + P.Print(old(nsStack.Contents()), element)
      decreases element, 1
    {
      ghost var b := nsStack.Contents();
      ghost var frames := nsStack.Frames();
      nsStack.PushFrame();
      AddDeclared(element.attrs);
      var newNs := AddNeeded(element);
      PrintStart(b, element, newNs);
      PrintChildren(element.children);
      var name := nsStack.FormatQName(element.name, false);
      PrintSplits(old(out), b, element);
      out := out + [End(name)];
      assert nsStack.Contents()[..|b|] == b;
      assert (frames + [|b|])[..|frames|] == frames;
      nsStack.PopFrame();
    }

    static lemma PrintSplits(o: seq<Token>, b: B.Bindings, element: Element)
      ensures var scope := P.Scope(b, element.name, element.attrs);
        o + P.Print(b, element) == o + [P.StartToken(b, element.name, element.attrs)]
          + P.PrintChildren(scope, element.children) + [End(B.FormatQName(scope, element.name, false))]
    {
    }

    /** The children in order; an empty text writes nothing. */
    method PrintChildren(children: seq<Child>)
      requires nsStack.Valid()
      modifies this`out, nsStack
      ensures nsStack.Valid() && nsStack.Contents() == old(nsStack.Contents()) && nsStack.Frames() == old(nsStack.Frames())
      ensures out == old(out) + P.PrintChildren(old(nsStack.Contents()), children)
      decreases children, 0
    {
      ghost var scope := nsStack.Contents();
      var i := 0;
      while i < |children|
        invariant 0 <= i <= |children|
        invariant nsStack.Valid() && nsStack.Contents() == scope && nsStack.Frames() == old(nsStack.Frames())
        invariant out + P.PrintChildren(scope, children[i..]) == old(out) + P.PrintChildren(scope, children)
      {
        assert children[i..][1..] == children[i + 1..];
        P.Assoc(out, P.PrintChild(scope, children[i]), P.PrintChildren(scope, children[i + 1..]));
        PrintChild(children[i]);
        i := i + 1;
      }
      assert out + [] == out;
    }

    method PrintChild(child: Child)
      requires nsStack.Valid()
      modifies this`out, nsStack
      ensures nsStack.Valid() && nsStack.Contents() == old(nsStack.Contents()) && nsStack.Frames() == old(nsStack.Frames())
      ensures out == old(out) + P.PrintChild(old(nsStack.Contents()), child)
      decreases child, 2
    {
      match child {
        case Text(text) =>
          if text != "" {
            out := out + [Chars(text)];
          }
        case Elem(el) =>
          PrintElement(el);
      }
    }

    /** First pass: the declarations that the element carries itself. */
    method AddDeclared(attrs: seq<Attr>)
      requires nsStack.Valid()
      modifies nsStack
      ensures nsStack.Valid() && nsStack.Frames() == old(nsStack.Frames())
      ensures nsStack.Contents() == old(nsStack.Contents()) + P.Declared(attrs)
    {
      ghost var b := nsStack.Contents();
      var i := 0;
      while i < |attrs|
        invariant 0 <= i <= |attrs|
        invariant nsStack.Valid() && nsStack.Frames() == old(nsStack.Frames())
        invariant nsStack.Contents() + P.Declared(attrs[i..]) == b + P.Declared(attrs)
      {
        assert attrs[i..][1..] == attrs[i + 1..];
        P.Assoc(nsStack.Contents(), P.DeclaredBy(attrs[i]), P.Declared(attrs[i + 1..]));
        if attrs[i].name == QN_XMLNS {
          nsStack.AddXmlns("", attrs[i].value);
        } else if attrs[i].name.ns == NS_XMLNS {
          nsStack.AddXmlns(attrs[i].name.local, attrs[i].value);
        } else {
          assert nsStack.Contents() + [] == nsStack.Contents();
        }
        i := i + 1;
      }
      assert nsStack.Contents() + [] == nsStack.Contents();
    }

    /** Second pass: a binding for every name that has none yet. */
    method AddNeeded(element: Element) returns (newNs: seq<B.Binding>)
      requires nsStack.Valid()
      modifies nsStack
      ensures nsStack.Valid() && nsStack.Frames() == old(nsStack.Frames())
      ensures newNs == P.Invent(old(nsStack.Contents()), P.Needs(element.name, element.attrs))
      ensures nsStack.Contents() == old(nsStack.Contents()) + newNs
    {
      ghost var b := nsStack.Contents();
      ghost var needs := P.Needs(element.name, element.attrs);
      newNs := [];
      var prefix := nsStack.AddNewPrefix(element.name.ns, false);
      if prefix.Some? {
        newNs := newNs + [B.Binding(prefix.value, element.name.ns)];
      } else {
        assert b + [] == b;
      }
      var i := 0;
      while i < |element.attrs|
        invariant 0 <= i <= |element.attrs|
        invariant nsStack.Valid() && nsStack.Frames() == old(nsStack.Frames())
        invariant nsStack.Contents() == b + newNs
        invariant newNs + P.Invent(nsStack.Contents(), needs[i + 1..]) == P.Invent(b, needs)
      {
        var ns := element.attrs[i].name.ns;
        assert needs[i + 1..][0] == P.Need(ns, true) && needs[i + 1..][1..] == needs[i + 2..];
        prefix := nsStack.AddNewPrefix(ns, true);
        if prefix.Some? {
          P.Assoc(newNs, [B.Binding(prefix.value, ns)], P.Invent(nsStack.Contents(), needs[i + 2..]));
          P.Assoc(b, newNs, [B.Binding(prefix.value, ns)]);
          newNs := newNs + [B.Binding(prefix.value, ns)];
        }
        i := i + 1;
      }
      assert newNs + [] == newNs;
    }

    /** The attributes of the element under their printed names. */
    method FormatAttrs(attrs: seq<Attr>) returns (atts: seq<RawAttr>)
      requires nsStack.Valid()
      ensures atts == P.RawAttrs(nsStack.Contents(), attrs)
    {
      ghost var all := P.RawAttrs(nsStack.Contents(), attrs);
      atts := [];
      var i := 0;
      while i < |attrs|
        invariant 0 <= i <= |attrs| && atts == all[..i]
      {
        var name := nsStack.FormatQName(attrs[i].name, true);
        atts := atts + [RawAttr(name, attrs[i].value)];
        i := i + 1;
      }
    }

    /** The new declarations as attributes. */
    static method FormatDeclarations(newNs: seq<B.Binding>) returns (atts: seq<RawAttr>)
      ensures atts == P.Declarations(newNs)
    {
      atts := [];
      var i := 0;
      while i < |newNs|
        invariant 0 <= i <= |newNs| && atts == P.Declarations(newNs)[..i]
      {
        if newNs[i].prefix == "" {
          atts := atts + [RawAttr("xmlns", newNs[i].ns)];
        } else {
          atts := atts + [RawAttr("xmlns:" + newNs[i].prefix, newNs[i].ns)];
        }
        i := i + 1;
      }
    }

    /** The start tag: the name, the attributes, then the new declarations. */
    method PrintStart(ghost b: B.Bindings, element: Element, newNs: seq<B.Binding>)
      requires nsStack.Valid() && nsStack.Contents() == P.Scope(b, element.name, element.attrs)
      requires newNs == P.Invented(b, element.name, element.attrs)
      modifies this`out
      ensures out == old(out) + [P.StartToken(b, element.name, element.attrs)]
    {
      var raw := nsStack.FormatQName(element.name, false);
      var atts := FormatAttrs(element.attrs);
      var decls := FormatDeclarations(newNs);
      out := out + [Start(raw, atts + decls)];
    }
  }
}
