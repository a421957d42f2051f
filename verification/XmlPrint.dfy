/** What PrintElement writes, as tokens, and which namespace bindings are in
    scope while it does. */
module XmlPrint {
  import opened Options
  import opened XmlTree
  import opened XmlnsBindings

  /** The declaration an attribute makes, if it is one. */
  function DeclaredBy(a: Attr): Bindings {
    if a.name == QN_XMLNS then [Binding("", a.value)]
    else if a.name.ns == NS_XMLNS then [Binding(a.name.local, a.value)]
    else []
  }

  function Declared(attrs: seq<Attr>): Bindings {
    if attrs == [] then [] else DeclaredBy(attrs[0]) + Declared(attrs[1..])
  }

  /** A namespace that has to be expressible, for an attribute or not. */
  datatype Need = Need(ns: string, isAttr: bool)

  function AttrNeeds(attrs: seq<Attr>): (r: seq<Need>)
    ensures |r| == |attrs| && forall i :: 0 <= i < |r| ==> r[i] == Need(attrs[i].name.ns, true)
  {
    seq(|attrs|, i requires 0 <= i < |attrs| => Need(attrs[i].name.ns, true))
  }

  function Needs(name: QName, attrs: seq<Attr>): seq<Need> { [Need(name.ns, false)] + AttrNeeds(attrs) }

  /** The bindings invented, in order, so that every need is served. */
  function Invent(b: Bindings, needs: seq<Need>): Bindings
    decreases |needs|
  {
    if needs == [] then []
    else
      var p := NewPrefix(b, needs[0].ns, needs[0].isAttr);
      if p.None? then Invent(b, needs[1..])
      else
        var x := Binding(p.value, needs[0].ns);
        [x] + Invent(b + [x], needs[1..])
  }

  function Invented(b: Bindings, name: QName, attrs: seq<Attr>): Bindings {
    Invent(b + Declared(attrs), Needs(name, attrs))
  }

  /** The bindings in scope inside an element printed under b. */
  function Scope(b: Bindings, name: QName, attrs: seq<Attr>): Bindings {
    b + Declared(attrs) + Invented(b, name, attrs)
  }

  function RawAttrs(b: Bindings, attrs: seq<Attr>): (r: seq<RawAttr>)
    ensures |r| == |attrs|
  {
    seq(|attrs|, i requires 0 <= i < |attrs| => RawAttr(FormatQName(b, attrs[i].name, true), attrs[i].value))
  }

  /** How an invented binding is spelled in the start tag. */
  function Declaration(x: Binding): RawAttr {
    RawAttr(if x.prefix == "" then "xmlns" else "xmlns:" + x.prefix, x.ns)
  }

  function Declarations(xs: Bindings): (r: seq<RawAttr>)
    ensures |r| == |xs|
  {
    seq(|xs|, i requires 0 <= i < |xs| => Declaration(xs[i]))
  }

  function StartToken(b: Bindings, name: QName, attrs: seq<Attr>): Token {
    var scope := Scope(b, name, attrs);
    Start(FormatQName(scope, name, false), RawAttrs(scope, attrs) + Declarations(Invented(b, name, attrs)))
  }

  function Print(b: Bindings, el: Element): seq<Token>
    decreases el, 1
  {
    var scope := Scope(b, el.name, el.attrs);
    [StartToken(b, el.name, el.attrs)] + PrintChildren(scope, el.children) + [End(FormatQName(scope, el.name, false))]
  }

  function PrintChild(b: Bindings, c: Child): seq<Token>
    decreases c, 2
  {
    match c
    case Text(text) => if text == "" then [] else [Chars(text)]
    case Elem(el) => Print(b, el)
  }

  function PrintChildren(b: Bindings, cs: seq<Child>): seq<Token>
    decreases cs, 0
  {
    if cs == [] then [] else PrintChild(b, cs[0]) + PrintChildren(b, cs[1..])
  }

  // ------------------------------------------------------ what invention does

  lemma Assoc<T>(a: seq<T>, c: seq<T>, d: seq<T>)
    ensures a + c + d == a + (c + d)
  {
  }

  lemma InventUnfolds(b: Bindings, needs: seq<Need>)
    requires needs != [] && NewPrefix(b, needs[0].ns, needs[0].isAttr).Some?
    ensures var x := Binding(NewPrefix(b, needs[0].ns, needs[0].isAttr).value, needs[0].ns);
      b + Invent(b, needs) == b + [x] + Invent(b + [x], needs[1..])
  {
    var x := Binding(NewPrefix(b, needs[0].ns, needs[0].isAttr).value, needs[0].ns);
    Assoc(b, [x], Invent(b + [x], needs[1..]));
  }

  /** Inventing keeps every resolution. */
  lemma {:induction false} InventKeeps(b: Bindings, needs: seq<Need>, q: string)
    requires NsForPrefix(b, q).Some?
    ensures NsForPrefix(b + Invent(b, needs), q) == NsForPrefix(b, q)
    decreases |needs|
  {
    if needs == [] {
      assert b + [] == b;
    } else {
      var p := NewPrefix(b, needs[0].ns, needs[0].isAttr);
      if p.None? {
        InventKeeps(b, needs[1..], q);
      } else {
        var x := Binding(p.value, needs[0].ns);
        AddKeepsResolutions(b, x, q);
        InventKeeps(b + [x], needs[1..], q);
        InventUnfolds(b, needs);
      }
    }
  }

  /** Inventing keeps every namespace served. */
  lemma {:induction false} InventKeepsServed(b: Bindings, needs: seq<Need>, n: Need)
    requires Served(b, n.ns, n.isAttr)
    ensures Served(b + Invent(b, needs), n.ns, n.isAttr)
    decreases |needs|
  {
    if needs == [] {
      assert b + [] == b;
    } else {
      var p := NewPrefix(b, needs[0].ns, needs[0].isAttr);
      if p.None? {
        InventKeepsServed(b, needs[1..], n);
      } else {
        var x := Binding(p.value, needs[0].ns);
        AddKeepsServed(b, x, n.ns, n.isAttr);
        InventKeepsServed(b + [x], needs[1..], n);
        InventUnfolds(b, needs);
      }
    }
  }

  /** Inventing serves every need. */
  lemma {:induction false} InventServes(b: Bindings, needs: seq<Need>, n: Need)
    requires n in needs
    ensures Served(b + Invent(b, needs), n.ns, n.isAttr)
    decreases |needs|
  {
    var m := needs[0];
    var p := NewPrefix(b, m.ns, m.isAttr);
    if p.None? {
      if n == m {
        InventKeepsServed(b, needs, n);
      } else {
        InventServes(b, needs[1..], n);
      }
    } else {
      var x := Binding(p.value, m.ns);
      InventUnfolds(b, needs);
      if n == m {
        NewPrefixServes(b, m.ns, m.isAttr);
        InventKeepsServed(b + [x], needs[1..], n);
      } else {
        InventServes(b + [x], needs[1..], n);
      }
    }
  }

  /** An invented prefix is a proper, unreserved name. */
  predicate Proper(x: Binding) {
    x.prefix != "" && !XmlPrefixed(x.prefix) && NoColon(x.prefix) && x.ns != NS_XMLNS
  }

  /** Invented prefixes are proper, were unbound before and differ. */
  lemma {:induction false} InventFresh(b: Bindings, needs: seq<Need>)
    ensures forall x :: x in Invent(b, needs) ==> Proper(x) && NsForPrefix(b, x.prefix).None?
    ensures forall i, j :: 0 <= i < j < |Invent(b, needs)| ==> Invent(b, needs)[i].prefix != Invent(b, needs)[j].prefix
    decreases |needs|
  {
    if needs != [] {
      var n := needs[0];
      var p := NewPrefix(b, n.ns, n.isAttr);
      assert p.Some? ==> n.ns != NS_XMLNS;
      hide NewPrefix, NsForPrefix;
      if p.None? {
        InventFresh(b, needs[1..]);
      } else {
        var x := Binding(p.value, n.ns);
        var rest := Invent(b + [x], needs[1..]);
        NewPrefixServes(b, n.ns, n.isAttr);
        InventFresh(b + [x], needs[1..]);
        forall y | y in rest ensures NsForPrefix(b, y.prefix).None? && y.prefix != p.value {
          AddKeepsResolutions(b, x, y.prefix);
        }
        assert forall j :: 0 <= j < |rest| ==> rest[j] in rest;
      }
    }
  }

  /** What the element itself needs is invented before what its attributes need. */
  lemma InventedInOrder(b: Bindings, name: QName, attrs: seq<Attr>)
    ensures var e, p := b + Declared(attrs), PrefixForNs(b + Declared(attrs), name.ns, false);
            var p' := NewPrefix(e, name.ns, false);
            Invented(b, name, attrs) ==
              (if p.Some? then [] else [Binding(p'.value, name.ns)])
              + Invent(if p.Some? then e else e + [Binding(p'.value, name.ns)], AttrNeeds(attrs))
  {
    assert Needs(name, attrs)[1..] == AttrNeeds(attrs);
  }

  /** The start tag: the attributes in their order, each under the prefix chosen for
      its namespace if it needs one, and then every invented declaration. */
  lemma StartSpelled(b: Bindings, name: QName, attrs: seq<Attr>)
    ensures var t, xs := StartToken(b, name, attrs), Invented(b, name, attrs);
            && |t.atts| == |attrs| + |xs|
            && (forall i :: 0 <= i < |attrs| ==>
                  && t.atts[i].value == attrs[i].value
                  && match PrefixForNs(b + Declared(attrs) + xs, attrs[i].name.ns, true)
                     case None => t.atts[i].name == attrs[i].name.local
                     case Some(p) => t.atts[i].name == if p == "" then attrs[i].name.local else p + ":" + attrs[i].name.local)
            && forall j :: 0 <= j < |xs| ==> t.atts[|attrs| + j] == RawAttr("xmlns:" + xs[j].prefix, xs[j].ns)
  {
    InventFresh(b + Declared(attrs), Needs(name, attrs));
    hide Invent, NewPrefix, PrefixForNs, NsForPrefix;
  }

  /** Nothing is invented where everything is served. */
  lemma {:induction false} InventNothing(b: Bindings, needs: seq<Need>)
    requires forall n :: n in needs ==> Served(b, n.ns, n.isAttr)
    ensures Invent(b, needs) == []
    decreases |needs|
  {
    if needs != [] {
      assert needs[0] in needs;
      InventNothing(b, needs[1..]);
    }
  }

  /** An attribute never forces a declaration of the empty namespace. */
  lemma {:induction false} AttrsInventNoEmpty(b: Bindings, needs: seq<Need>)
    requires forall n :: n in needs ==> n.isAttr
    ensures forall x :: x in Invent(b, needs) ==> x.ns != ""
    decreases |needs|
  {
    if needs != [] {
      assert needs[0] in needs;
      var p := NewPrefix(b, needs[0].ns, needs[0].isAttr);
      AttrsInventNoEmpty(b, needs[1..]);
      if p.Some? {
        AttrsInventNoEmpty(b + [Binding(p.value, needs[0].ns)], needs[1..]);
      }
    }
  }

  /** The empty namespace is declared under a prefix exactly when the element
      itself is in it and a default namespace is in the way. */
  lemma InventsEmptyExactlyWhen(b: Bindings, name: QName, attrs: seq<Attr>)
    ensures (exists x :: x in Invented(b, name, attrs) && x.ns == "")
      <==> name.ns == "" && !Served(b + Declared(attrs), "", false)
  {
    var e := b + Declared(attrs);
    var needs := Needs(name, attrs);
    assert needs[1..] == AttrNeeds(attrs);
    var p := NewPrefix(e, name.ns, false);
    AttrsInventNoEmpty(e, needs[1..]);
    if p.Some? {
      var x := Binding(p.value, name.ns);
      AttrsInventNoEmpty(e + [x], needs[1..]);
      assert x in Invented(b, name, attrs);
    }
  }

  lemma ScopeColonFree(b: Bindings, name: QName, attrs: seq<Attr>)
    requires ColonFree(b) && forall a :: a in attrs ==> LocalOk(a.name.local)
    ensures ColonFree(Scope(b, name, attrs))
  {
    DeclaredColonFree(attrs);
    InventFresh(b + Declared(attrs), Needs(name, attrs));
  }

  lemma {:induction false} DeclaredColonFree(attrs: seq<Attr>)
    requires forall a :: a in attrs ==> LocalOk(a.name.local)
    ensures ColonFree(Declared(attrs))
  {
    if attrs != [] {
      assert attrs[0] in attrs;
      DeclaredColonFree(attrs[1..]);
    }
  }
}
