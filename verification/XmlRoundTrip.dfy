/** Printing an element tree and parsing what was printed. */
module XmlRoundTrip {
  import opened Options
  import opened XmlTree
  import opened XmlnsBindings
  import opened XmlPrint
  import opened XmlParse

  // -------------------------------------------------------- what comes back

  /** The attribute that an invented declaration reads back as. */
  function DeclAttrs(xs: Bindings): (r: seq<Attr>)
    ensures |r| == |xs|
  {
    seq(|xs|, i requires 0 <= i < |xs| => Attr(QName(NS_XMLNS, xs[i].prefix), xs[i].ns))
  }

  /** The attributes read back: the original ones, then the invented xmlns. */
  function AllAttrs(b: Bindings, name: QName, attrs: seq<Attr>): seq<Attr> {
    attrs + DeclAttrs(Invented(b, name, attrs))
  }

  /** The tree that parsing gives back: every element with its invented
      declarations appended, empty texts gone and adjacent texts joined. */
  function Annotate(b: Bindings, el: Element): Element
    decreases el, 1
  {
    Element(el.name, AllAttrs(b, el.name, el.attrs), Rebuilt(Scope(b, el.name, el.attrs), [], el.children))
  }

  function AddChild(b: Bindings, acc: seq<Child>, c: Child): seq<Child>
    decreases c, 2
  {
    match c
    case Text(text) => AddText(acc, text)
    case Elem(el) => acc + [Elem(Annotate(b, el))]
  }

  function Rebuilt(b: Bindings, acc: seq<Child>, cs: seq<Child>): seq<Child>
    decreases cs, 0
  {
    if cs == [] then acc else Rebuilt(b, AddChild(b, acc, cs[0]), cs[1..])
  }

  /** No declaration of the element binds a prefix to the empty namespace, and
      if the element is in the empty namespace no default namespace hides it. */
  predicate PrintableTag(b: Bindings, name: QName, attrs: seq<Attr>) {
    && (forall a :: a in attrs ==> !(a.name.ns == NS_XMLNS && a.value == ""))
    && (name.ns == "" ==> Served(b + Declared(attrs), "", false))
  }

  predicate Printable(b: Bindings, el: Element)
    decreases el, 1
  {
    && PrintableTag(b, el.name, el.attrs)
    && AllPrintable(Scope(b, el.name, el.attrs), el.children)
  }

  predicate PrintableChild(b: Bindings, c: Child)
    decreases c, 2
  {
    c.Elem? ==> Printable(b, c.element)
  }

  predicate AllPrintable(b: Bindings, cs: seq<Child>)
    decreases cs, 0
  {
    cs != [] ==> PrintableChild(b, cs[0]) && AllPrintable(b, cs[1..])
  }

  // --------------------------------------------------------------- start tag

  /** A printed name with any other prefix does not look like a declaration. */
  lemma OtherPrefixDeclaresNothing(p: string, local: string)
    requires NoColon(p) && p != "xmlns"
    ensures var raw := p + ":" + local; "xmlns" <= raw ==> |raw| > 5 && raw[5] != ':'
  {
    var raw := p + ":" + local;
    assert raw[|p|] == ':';
    assert forall i :: 0 <= i < |p| ==> raw[i] == p[i] && p[i] in p;
    assert |p| >= 5 ==> raw[..5] == p[..5];
    assert forall i :: 0 <= i < 5 ==> "xmlns"[i] != ':';
    assert |p| == 5 ==> p == p[..5];
    assert "xmlns" <= raw ==> raw[..5] == "xmlns";
  }

  /** An attribute is printed as a declaration exactly when it is one. */
  lemma RawDeclares(b: Bindings, a: Attr)
    requires ColonFree(b) && LocalOk(a.name.local) && Served(b, a.name.ns, true)
    ensures var raw := RawAttr(FormatQName(b, a.name, true), a.value);
      DeclaredByRaw(raw) == DeclaredBy(a) && (EmptyPrefixDecl(raw) <==> a.name.ns == NS_XMLNS && a.value == "")
  {
    PrefixResolvesBack(b, a.name.ns, true);
    var p := PrefixForNs(b, a.name.ns, true).value;
    var raw := FormatQName(b, a.name, true);
    if p == "" {
      assert forall i :: 0 <= i < |raw| ==> raw[i] in raw;
      assert "xmlns" <= raw && |raw| == 5 ==> raw == "xmlns";
    } else if p == "xmlns" {
      assert raw[6..] == a.name.local;
    } else {
      OtherPrefixDeclaresNothing(p, a.name.local);
    }
  }

  lemma {:induction false} RawAttrsDeclare(b: Bindings, attrs: seq<Attr>)
    requires ColonFree(b) && forall a :: a in attrs ==> LocalOk(a.name.local) && Served(b, a.name.ns, true)
    ensures DeclaredRaw(RawAttrs(b, attrs)) ==
      if exists a :: a in attrs && a.name.ns == NS_XMLNS && a.value == "" then None else Some(Declared(attrs))
  {
    if attrs != [] {
      assert attrs == [attrs[0]] + attrs[1..];
      RawDeclares(b, attrs[0]);
      RawAttrsDeclare(b, attrs[1..]);
      assert RawAttrs(b, attrs)[1..] == RawAttrs(b, attrs[1..]);
    }
  }

  lemma DeclarationDeclares(x: Binding)
    requires Proper(x)
    ensures DeclaredByRaw(Declaration(x)) == [x] && (EmptyPrefixDecl(Declaration(x)) <==> x.ns == "")
  {
    assert Declaration(x).name[6..] == x.prefix;
  }

  lemma {:induction false} DeclarationsDeclare(xs: Bindings)
    requires forall x :: x in xs ==> Proper(x)
    ensures DeclaredRaw(Declarations(xs)) == if exists x :: x in xs && x.ns == "" then None else Some(xs)
  {
    hide Proper, DeclaredByRaw, EmptyPrefixDecl, StartsWithXmlns, Declaration;
    if xs != [] {
      assert xs == [xs[0]] + xs[1..] && xs[0] in xs;
      DeclarationDeclares(xs[0]);
      DeclarationsDeclare(xs[1..]);
      assert Declarations(xs)[1..] == Declarations(xs[1..]);
    }
  }

  /** The bindings read from a printed start tag are the printer's own. */
  lemma StartDeclares(b: Bindings, name: QName, attrs: seq<Attr>)
    requires ColonFree(b) && forall a :: a in attrs ==> LocalOk(a.name.local)
    ensures DeclaredRaw(StartToken(b, name, attrs).atts) ==
      if PrintableTag(b, name, attrs) then Some(Declared(attrs) + Invented(b, name, attrs)) else None
  {
    var scope := Scope(b, name, attrs);
    var xs := Invented(b, name, attrs);
    ScopeColonFree(b, name, attrs);
    ScopeServes(b, name, attrs);
    RawAttrsDeclare(scope, attrs);
    InventFresh(b + Declared(attrs), Needs(name, attrs));
    DeclarationsDeclare(xs);
    DeclaredRawAppend(RawAttrs(scope, attrs), Declarations(xs));
    InventsEmptyExactlyWhen(b, name, attrs);
  }

  lemma ScopeServes(b: Bindings, name: QName, attrs: seq<Attr>)
    ensures Served(Scope(b, name, attrs), name.ns, false)
    ensures forall a :: a in attrs ==> Served(Scope(b, name, attrs), a.name.ns, true)
  {
    var e := b + Declared(attrs);
    InventServes(e, Needs(name, attrs), Need(name.ns, false));
    forall a | a in attrs ensures Served(Scope(b, name, attrs), a.name.ns, true) {
      var i :| 0 <= i < |attrs| && attrs[i] == a;
      assert Needs(name, attrs)[i + 1] == Need(a.name.ns, true);
      InventServes(e, Needs(name, attrs), Need(a.name.ns, true));
    }
  }

  lemma {:induction false} DeclaredIsBound(attrs: seq<Attr>, a: Attr)
    requires a in attrs && a.name.ns == NS_XMLNS
    ensures a.name.local in Prefixes(Declared(attrs))
  {
    if a == attrs[0] {
      assert Binding(a.name.local, a.value) in Declared(attrs);
    } else {
      DeclaredIsBound(attrs[1..], a);
      var x :| x in Declared(attrs[1..]) && x.prefix == a.name.local;
      assert x in Declared(attrs);
    }
  }

  /** An invented declaration never repeats a name the element already has. */
  lemma AllAttrsDistinct(b: Bindings, name: QName, attrs: seq<Attr>)
    requires DistinctNames(attrs)
    ensures DistinctNames(AllAttrs(b, name, attrs))
  {
    var e := b + Declared(attrs);
    var xs := Invented(b, name, attrs);
    InventFresh(e, Needs(name, attrs));
    forall i, j | 0 <= i < |attrs| && 0 <= j < |xs| ensures attrs[i].name != QName(NS_XMLNS, xs[j].prefix) {
      assert xs[j] in xs;
      if attrs[i].name.ns == NS_XMLNS {
        DeclaredIsBound(attrs, attrs[i]);
        var x :| x in Declared(attrs) && x.prefix == attrs[i].name.local;
        assert x in e;
        LookupIsBound(e, x.prefix);
      }
    }
  }

  /** The name of a declaration resolves to the namespace of declarations. */
  lemma DeclarationResolves(b: Bindings, x: Binding)
    requires x.prefix != ""
    ensures ResolveQName(b, Declaration(x).name, true) == QName(NS_XMLNS, x.prefix)
  {
    FirstColonAt("xmlns", x.prefix);
    var raw := "xmlns" + ":" + x.prefix;
    assert Declaration(x).name == raw && raw[..5] == "xmlns" && raw[6..] == x.prefix;
  }

  /** A printed name reads back, and so does an invented declaration. */
  lemma AttrResolves(b: Bindings, name: QName, attrs: seq<Attr>, i: nat)
    requires ColonFree(b) && forall a :: a in attrs ==> LocalOk(a.name.local)
    requires i < |AllAttrs(b, name, attrs)|
    ensures var raw := StartToken(b, name, attrs).atts;
      && |raw| == |AllAttrs(b, name, attrs)|
      && ResolveQName(Scope(b, name, attrs), raw[i].name, true) == AllAttrs(b, name, attrs)[i].name
      && raw[i].value == AllAttrs(b, name, attrs)[i].value
      && AllAttrs(b, name, attrs)[i].name.local != ""
  {
    var scope := Scope(b, name, attrs);
    var xs := Invented(b, name, attrs);
    if i < |attrs| {
      assert attrs[i] in attrs;
      ScopeColonFree(b, name, attrs);
      ScopeServes(b, name, attrs);
      ResolveInvertsFormat(scope, attrs[i].name, true);
    } else {
      var x := xs[i - |attrs|];
      InventFresh(b + Declared(attrs), Needs(name, attrs));
      assert x in xs;
      DeclarationResolves(scope, x);
    }
  }

  /** The builder makes of a printed start tag the element that was printed. */
  lemma StartBuilds(b: Bindings, name: QName, attrs: seq<Attr>)
    requires ColonFree(b) && LocalOk(name.local) && DistinctNames(attrs)
    requires forall a :: a in attrs ==> LocalOk(a.name.local)
    ensures var t := StartToken(b, name, attrs);
      && BuildElement(Scope(b, name, attrs), t.raw, t.atts) == Some(Element(name, AllAttrs(b, name, attrs), []))
      && forall i, j :: 0 <= i < j < |t.atts| ==> t.atts[i].name != t.atts[j].name
  {
    var t := StartToken(b, name, attrs);
    var all := AllAttrs(b, name, attrs);
    ScopeColonFree(b, name, attrs);
    ScopeServes(b, name, attrs);
    ResolveInvertsFormat(Scope(b, name, attrs), name, false);
    AllAttrsDistinct(b, name, attrs);
    forall i | 0 <= i < |all|
      ensures ResolveQName(Scope(b, name, attrs), t.atts[i].name, true) == all[i].name
      ensures t.atts[i].value == all[i].value && !all[i].name.IsEmpty()
    {
      AttrResolves(b, name, attrs, i);
    }
    BuildAttrsResolves(Scope(b, name, attrs), t.atts, all, {});
    forall i, j | 0 <= i < j < |t.atts| ensures t.atts[i].name != t.atts[j].name {
      assert all[i].name != all[j].name;
    }
  }

  // -------------------------------------------------------------- the element

  /** A run that can take an element: its stacks agree in depth. */
  predicate Ready(st: Parse) {
    && st.Running? && ColonFree(st.bindings)
    && |st.frames| == |st.open| == |st.tags|
    && (st.open == [] ==> st.root.None?)
  }

  function Added(st: Parse, el: Element): Parse
    requires st.Running?
  {
    if st.open == [] then st.(root := Some(el))
    else st.(open := WithTop(st.open, Top(st).children + [Elem(el)]))
  }

  function WithChildren(st: Parse, cs: seq<Child>): Parse
    requires st.Running? && st.open != []
  {
    st.(open := WithTop(st.open, cs))
  }

  /** The state inside a printed element, before its children. */
  function Opened(st: Parse, name: QName, attrs: seq<Attr>): Parse
    requires st.Running?
  {
    st.(bindings := Scope(st.bindings, name, attrs),
        frames := st.frames + [|st.bindings|],
        tags := st.tags + [StartToken(st.bindings, name, attrs).raw],
        open := st.open + [Element(name, AllAttrs(st.bindings, name, attrs), [])])
  }

  lemma StartSteps(st: Parse, name: QName, attrs: seq<Attr>)
    requires Ready(st) && LocalOk(name.local) && DistinctNames(attrs)
    requires forall a :: a in attrs ==> LocalOk(a.name.local)
    ensures Step(st, StartToken(st.bindings, name, attrs)) ==
      if PrintableTag(st.bindings, name, attrs) then Opened(st, name, attrs) else Failed
    ensures Ready(Opened(st, name, attrs))
  {
    var b := st.bindings;
    StartBuilds(b, name, attrs);
    StartDeclares(b, name, attrs);
    ScopeColonFree(b, name, attrs);
    Assoc(b, Declared(attrs), Invented(b, name, attrs));
  }

  lemma Shrinks<T>(s: seq<T>, x: T)
    ensures (s + [x])[..|s + [x]| - 1] == s && (s + [x])[|s|] == x
  {
  }

  lemma Closes(st: Parse, scope: Bindings, raw: string, el: Element)
    requires Ready(st) && |st.bindings| <= |scope| && scope[..|st.bindings|] == st.bindings
    ensures var inner := st.(bindings := scope, frames := st.frames + [|st.bindings|], tags := st.tags + [raw], open := st.open + [el]);
      Step(inner, End(raw)) == Added(st, el)
  {
    hide ColonFree;
    Shrinks(st.open, el);
    Shrinks(st.frames, |st.bindings|);
    Shrinks(st.tags, raw);
    assert |scope| == |st.bindings| ==> scope == st.bindings;
  }

  /** The end tag closes what the start tag opened, and the namespace stack is
      what it was before. */
  lemma EndSteps(st: Parse, name: QName, attrs: seq<Attr>, cs: seq<Child>)
    requires Ready(st)
    ensures var inner := WithChildren(Opened(st, name, attrs), cs);
      Step(inner, End(StartToken(st.bindings, name, attrs).raw))
      == Added(st, Element(name, AllAttrs(st.bindings, name, attrs), cs))
  {
    hide AllAttrs, Declared, Invented, Added, Step, ColonFree;
    Assoc(st.bindings, Declared(attrs), Invented(st.bindings, name, attrs));
    Shrinks(st.open, Element(name, AllAttrs(st.bindings, name, attrs), []));
    Closes(st, Scope(st.bindings, name, attrs), StartToken(st.bindings, name, attrs).raw,
           Element(name, AllAttrs(st.bindings, name, attrs), cs));
  }

  /** Printing an element and running the parser over the tokens appends the
      annotated element where the parser stands, or fails, and fails exactly
      when the element is not printable there. */
  lemma {:induction false} ElementRoundTrip(st: Parse, el: Element)
    requires Ready(st) && WellFormed(el)
    ensures Run(st, Print(st.bindings, el)) ==
      if Printable(st.bindings, el) then Added(st, Annotate(st.bindings, el)) else Failed
    decreases el, 1
  {
    var b := st.bindings;
    var start := StartToken(b, el.name, el.attrs);
    var scope := Scope(b, el.name, el.attrs);
    var body := PrintChildren(scope, el.children);
    var end := End(FormatQName(scope, el.name, false));
    StartSteps(st, el.name, el.attrs);
    assert Print(b, el) == [start] + (body + [end]);
    RunCons(st, start, body + [end]);
    if !PrintableTag(b, el.name, el.attrs) {
      RunFailed(body + [end]);
    } else {
      var inner := Opened(st, el.name, el.attrs);
      RunAppend(inner, body, [end]);
      ChildrenRoundTrip(inner, el.children);
      if AllPrintable(scope, el.children) {
        var cs := Rebuilt(scope, [], el.children);
        EndSteps(st, el.name, el.attrs, cs);
        RunCons(WithChildren(inner, cs), end, []);
      } else {
        RunFailed([end]);
      }
    }
  }

  lemma RunCons(st: Parse, t: Token, ts: seq<Token>)
    ensures Run(st, [t] + ts) == Run(Step(st, t), ts)
  {
    assert ([t] + ts)[1..] == ts;
  }

  lemma {:induction false} ChildrenRoundTrip(st: Parse, cs: seq<Child>)
    requires Ready(st) && st.open != [] && forall c :: c in cs ==> c.Elem? ==> WellFormed(c.element)
    ensures Run(st, PrintChildren(st.bindings, cs)) ==
      if AllPrintable(st.bindings, cs) then WithChildren(st, Rebuilt(st.bindings, Top(st).children, cs)) else Failed
    decreases cs, 0
  {
    var b := st.bindings;
    if cs == [] {
      assert WithTop(st.open, Top(st).children) == st.open;
    } else {
      var c := cs[0];
      ChildRoundTrip(st, c);
      RunAppend(st, PrintChild(b, c), PrintChildren(b, cs[1..]));
      if PrintableChild(b, c) {
        var st' := WithChildren(st, AddChild(b, Top(st).children, c));
        ChildrenRoundTrip(st', cs[1..]);
        var r := Rebuilt(b, AddChild(b, Top(st).children, c), cs[1..]);
        assert WithTop(st'.open, r) == WithTop(st.open, r);
      } else {
        RunFailed(PrintChildren(b, cs[1..]));
      }
    }
  }

  lemma {:induction false} ChildRoundTrip(st: Parse, c: Child)
    requires Ready(st) && st.open != [] && (c.Elem? ==> WellFormed(c.element))
    ensures Run(st, PrintChild(st.bindings, c)) ==
      if PrintableChild(st.bindings, c) then WithChildren(st, AddChild(st.bindings, Top(st).children, c)) else Failed
    decreases c, 2
  {
    match c
    case Text(text) =>
      if text == "" {
        assert WithTop(st.open, Top(st).children) == st.open;
      } else {
        RunCons(st, Chars(text), []);
      }
    case Elem(el) =>
      ElementRoundTrip(st, el);
  }

  // ------------------------------------------------------------ the document

  /** The default namespace inside an element whose surroundings have d. */
  function DefaultNs(attrs: seq<Attr>, d: string): string {
    if attrs == [] then d
    else DefaultNs(attrs[1..], if attrs[0].name == QN_XMLNS then attrs[0].value else d)
  }

  /** What a caller can check of a tree before printing it: no prefix is bound
      to the empty namespace, and no element of the empty namespace stands
      under a non-empty default namespace. */
  predicate Expressible(el: Element, d: string)
    decreases el, 1
  {
    && (forall a :: a in el.attrs ==> !(a.name.ns == NS_XMLNS && a.value == ""))
    && (el.name.ns == "" ==> DefaultNs(el.attrs, d) == "")
    && AllExpressible(el.children, DefaultNs(el.attrs, d))
  }

  predicate AllExpressible(cs: seq<Child>, d: string)
    decreases cs, 0
  {
    cs != [] ==> ExpressibleChild(cs[0], d) && AllExpressible(cs[1..], d)
  }

  predicate ExpressibleChild(c: Child, d: string)
    decreases c, 2
  {
    c.Elem? ==> Expressible(c.element, d)
  }

  /** Non-empty prefixes are bound to non-empty namespaces only. */
  predicate NoEmptyBinding(b: Bindings) { forall x :: x in b ==> x.prefix != "" ==> x.ns != "" }

  lemma {:induction false} DefaultOfDeclared(b: Bindings, attrs: seq<Attr>)
    requires forall a :: a in attrs ==> LocalOk(a.name.local)
    ensures NsForPrefix(b + Declared(attrs), "") == Some(DefaultNs(attrs, NsForPrefix(b, "").value))
    decreases |attrs|
  {
    if attrs == [] {
      assert b + [] == b;
    } else {
      assert attrs[0] in attrs;
      Assoc(b, DeclaredBy(attrs[0]), Declared(attrs[1..]));
      DefaultOfDeclared(b + DeclaredBy(attrs[0]), attrs[1..]);
      if DeclaredBy(attrs[0]) == [] {
        assert b + [] == b;
      } else {
        assert (b + DeclaredBy(attrs[0]))[..|b|] == b;
      }
    }
  }

  lemma {:induction false} DeclaredNoEmpty(attrs: seq<Attr>)
    requires forall a :: a in attrs ==> !(a.name.ns == NS_XMLNS && a.value == "")
    ensures NoEmptyBinding(Declared(attrs))
  {
    if attrs != [] {
      assert attrs[0] in attrs;
      DeclaredNoEmpty(attrs[1..]);
    }
  }

  /** Under such a stack the empty namespace is served by the default only. */
  lemma ServesEmpty(b: Bindings)
    requires NoEmptyBinding(b)
    ensures Served(b, "", false) <==> NsForPrefix(b, "") == Some("")
  {
    forall i | 0 <= i < |b| && !Implicit(b, "", false) ensures !Serves(b, i, "", false) {
      assert b[i] in b;
    }
    if Served(b, "", false) && !Implicit(b, "", false) {
      var _ := ScanSound(b, |b|, "", false);
    }
  }

  lemma {:induction false} PrintableExactlyWhen(b: Bindings, el: Element)
    requires WellFormed(el) && NoEmptyBinding(b)
    ensures Printable(b, el) <==> Expressible(el, NsForPrefix(b, "").value)
    decreases el, 1
  {
    var d := NsForPrefix(b, "").value;
    var e := b + Declared(el.attrs);
    var scope := Scope(b, el.name, el.attrs);
    DefaultOfDeclared(b, el.attrs);
    if forall a :: a in el.attrs ==> !(a.name.ns == NS_XMLNS && a.value == "") {
      DeclaredNoEmpty(el.attrs);
      ServesEmpty(e);
      if PrintableTag(b, el.name, el.attrs) {
        InventsEmptyExactlyWhen(b, el.name, el.attrs);
        InventKeeps(e, Needs(el.name, el.attrs), "");
        AllPrintableExactlyWhen(scope, el.children);
      }
    }
  }

  lemma {:induction false} AllPrintableExactlyWhen(b: Bindings, cs: seq<Child>)
    requires NoEmptyBinding(b) && forall c :: c in cs ==> c.Elem? ==> WellFormed(c.element)
    ensures AllPrintable(b, cs) <==> AllExpressible(cs, NsForPrefix(b, "").value)
    decreases cs, 0
  {
    if cs != [] {
      assert cs[0] in cs;
      ChildPrintableExactlyWhen(b, cs[0]);
      AllPrintableExactlyWhen(b, cs[1..]);
    }
  }

  lemma {:induction false} ChildPrintableExactlyWhen(b: Bindings, c: Child)
    requires NoEmptyBinding(b) && (c.Elem? ==> WellFormed(c.element))
    ensures PrintableChild(b, c) <==> ExpressibleChild(c, NsForPrefix(b, "").value)
    decreases c, 2
  {
    if c.Elem? {
      PrintableExactlyWhen(b, c.element);
    }
  }

  /** Every well-formed tree, printed as a document and parsed again, gives
      itself with its invented declarations, and is refused exactly when it is
      not expressible. */
  lemma DocumentRoundTrip(el: Element)
    requires WellFormed(el)
    ensures ParseDocument(Print([], el)) == if Expressible(el, "") then Some(Annotate([], el)) else None
  {
    ElementRoundTrip(NEW_PARSE, el);
    PrintableExactlyWhen([], el);
  }

  /** A tree of the family that does not come back: an element without a
      namespace inside one that declares a default namespace. */
  lemma UnqualifiedChildIsLost()
    ensures var child := Element(QName("", "b"), [], []);
      var el := Element(QName("urn:a", "a"), [Attr(QN_XMLNS, "urn:a")], [Elem(child)]);
      WellFormed(el) && ParseDocument(Print([], el)) == None
  {
    var child := Element(QName("", "b"), [], []);
    var el := Element(QName("urn:a", "a"), [Attr(QN_XMLNS, "urn:a")], [Elem(child)]);
    assert DefaultNs(el.attrs, "") == DefaultNs([], "urn:a") == "urn:a";
    assert !Expressible(child, "urn:a");
    assert el.children[0] == Elem(child);
    assert !AllExpressible(el.children, "urn:a");
    DocumentRoundTrip(el);
  }
}
