/** What printing, parsing and printing again leaves unchanged. */
module XmlFixpoint {
  import opened XmlTree
  import opened XmlnsBindings
  import opened XmlPrint
  import opened XmlParse
  import opened XmlRoundTrip

  /** No empty text and no two texts in a row, at any depth. */
  predicate Normalised(el: Element)
    decreases el, 1
  {
    AllNormalised(el.children)
  }

  predicate AllNormalised(cs: seq<Child>)
    decreases cs, 0
  {
    cs != [] ==> NormalisedChild(cs[0]) && (|cs| > 1 ==> cs[0].Elem? || cs[1].Elem?) && AllNormalised(cs[1..])
  }

  predicate NormalisedChild(c: Child)
    decreases c, 2
  {
    match c
    case Text(text) => text != ""
    case Elem(el) => Normalised(el)
  }

  /** el2 is el with namespace declarations appended to its attributes. */
  predicate Restores(el: Element, el2: Element)
    decreases el, 1
  {
    && el2.name == el.name
    && el.attrs <= el2.attrs
    && (forall a :: a in el2.attrs[|el.attrs|..] ==> a.name.ns == NS_XMLNS)
    && AllRestored(el.children, el2.children)
  }

  predicate AllRestored(cs: seq<Child>, cs2: seq<Child>)
    decreases cs, 0
  {
    |cs| == |cs2| && (cs != [] ==> RestoredChild(cs[0], cs2[0]) && AllRestored(cs[1..], cs2[1..]))
  }

  predicate RestoredChild(c: Child, c2: Child)
    decreases c, 2
  {
    if c.Text? then c2 == c else c2.Elem? && Restores(c.element, c2.element)
  }

  // ------------------------------------------------- normalised children map

  function Mapped(b: Bindings, cs: seq<Child>): (r: seq<Child>)
    ensures |r| == |cs|
    decreases cs, 0
  {
    if cs == [] then [] else [MappedChild(b, cs[0])] + Mapped(b, cs[1..])
  }

  function MappedChild(b: Bindings, c: Child): Child
    decreases c, 2
  {
    if c.Text? then c else Elem(Annotate(b, c.element))
  }

  predicate Joins(acc: seq<Child>, cs: seq<Child>) {
    acc != [] && cs != [] && acc[|acc| - 1].Text? && cs[0].Text?
  }

  lemma {:induction false} RebuiltIsMapped(b: Bindings, acc: seq<Child>, cs: seq<Child>)
    requires AllNormalised(cs) && !Joins(acc, cs)
    ensures Rebuilt(b, acc, cs) == acc + Mapped(b, cs)
    decreases cs
  {
    if cs != [] {
      RebuiltIsMapped(b, acc + [MappedChild(b, cs[0])], cs[1..]);
      Assoc(acc, [MappedChild(b, cs[0])], Mapped(b, cs[1..]));
    }
  }

  /** A normalised tree comes back as itself, but for appended declarations. */
  lemma {:induction false} AnnotateRestores(b: Bindings, el: Element)
    requires Normalised(el)
    ensures Restores(el, Annotate(b, el))
    decreases el, 1
  {
    var scope := Scope(b, el.name, el.attrs);
    RebuiltIsMapped(scope, [], el.children);
    MappedRestores(scope, el.children);
    assert [] + Mapped(scope, el.children) == Mapped(scope, el.children);
    assert AllAttrs(b, el.name, el.attrs)[|el.attrs|..] == DeclAttrs(Invented(b, el.name, el.attrs));
  }

  lemma {:induction false} MappedRestores(b: Bindings, cs: seq<Child>)
    requires AllNormalised(cs)
    ensures AllRestored(cs, Mapped(b, cs))
    decreases cs, 0
  {
    if cs != [] {
      MappedChildRestores(b, cs[0]);
      MappedRestores(b, cs[1..]);
    }
  }

  lemma {:induction false} MappedChildRestores(b: Bindings, c: Child)
    requires NormalisedChild(c)
    ensures RestoredChild(c, MappedChild(b, c))
    decreases c, 2
  {
    if c.Elem? {
      AnnotateRestores(b, c.element);
    }
  }

  // ------------------------------------------------------ the tag is a fixpoint

  lemma {:induction false} DeclaredAppend(s: seq<Attr>, t: seq<Attr>)
    ensures Declared(s + t) == Declared(s) + Declared(t)
  {
    if s == [] {
      assert s + t == t;
    } else {
      assert (s + t)[1..] == s[1..] + t && (s + t)[0] == s[0];
      DeclaredAppend(s[1..], t);
      Assoc(DeclaredBy(s[0]), Declared(s[1..]), Declared(t));
    }
  }

  lemma {:induction false} DeclaredDeclAttrs(xs: Bindings)
    ensures Declared(DeclAttrs(xs)) == xs
  {
    if xs != [] {
      assert DeclAttrs(xs)[1..] == DeclAttrs(xs[1..]);
      DeclaredDeclAttrs(xs[1..]);
    }
  }

  /** With its invented declarations spelled out an element needs no others. */
  lemma InventedOnce(b: Bindings, name: QName, attrs: seq<Attr>)
    ensures b + Declared(AllAttrs(b, name, attrs)) == Scope(b, name, attrs)
    ensures Invented(b, name, AllAttrs(b, name, attrs)) == []
  {
    var all := AllAttrs(b, name, attrs);
    var xs := Invented(b, name, attrs);
    var scope := Scope(b, name, attrs);
    DeclaredAppend(attrs, DeclAttrs(xs));
    DeclaredDeclAttrs(xs);
    Assoc(b, Declared(attrs), xs);
    ScopeServes(b, name, attrs);
    forall n | n in Needs(name, all) ensures Served(scope, n.ns, n.isAttr) {
      if n != Need(name.ns, false) {
        var i :| 0 <= i < |all| && n == Need(all[i].name.ns, true);
        if i < |attrs| {
          assert attrs[i] in attrs;
        }
      }
    }
    InventNothing(scope, Needs(name, all));
  }

  /** A spelled-out declaration is printed as the invented one was. */
  lemma DeclarationsPrintAlike(b: Bindings, scope: Bindings, name: QName, attrs: seq<Attr>)
    ensures RawAttrs(scope, AllAttrs(b, name, attrs))
      == RawAttrs(scope, attrs) + Declarations(Invented(b, name, attrs))
  {
    var xs := Invented(b, name, attrs);
    InventFresh(b + Declared(attrs), Needs(name, attrs));
    hide Proper, RawAttrs;
    SpelledAlike(scope, xs);
    RawAttrsAppend(scope, attrs, DeclAttrs(xs));
  }

  lemma RawAttrsAppend(b: Bindings, s: seq<Attr>, t: seq<Attr>)
    ensures RawAttrs(b, s + t) == RawAttrs(b, s) + RawAttrs(b, t)
  {
    hide FormatQName;
  }

  lemma SpelledAlike(scope: Bindings, xs: Bindings)
    requires forall x :: x in xs ==> Proper(x)
    ensures RawAttrs(scope, DeclAttrs(xs)) == Declarations(xs)
  {
    hide Proper, Declaration, FormatQName;
    forall i | 0 <= i < |xs|
      ensures RawAttr(FormatQName(scope, QName(NS_XMLNS, xs[i].prefix), true), xs[i].ns) == Declaration(xs[i])
    {
      assert xs[i] in xs;
      DeclarationSpelled(scope, xs[i]);
    }
  }

  lemma DeclarationSpelled(scope: Bindings, x: Binding)
    requires Proper(x)
    ensures RawAttr(FormatQName(scope, QName(NS_XMLNS, x.prefix), true), x.ns) == Declaration(x)
  {
    assert "xmlns:" == "xmlns" + ":";
  }

  /** So it is printed under the same bindings, with the same start tag. */
  lemma TagIsFixpoint(b: Bindings, name: QName, attrs: seq<Attr>)
    ensures var all := AllAttrs(b, name, attrs);
      && Scope(b, name, all) == Scope(b, name, attrs)
      && AllAttrs(b, name, all) == all
      && StartToken(b, name, all) == StartToken(b, name, attrs)
  {
    var all := AllAttrs(b, name, attrs);
    InventedOnce(b, name, attrs);
    DeclarationsPrintAlike(b, Scope(b, name, attrs), name, attrs);
    assert Scope(b, name, all) == Scope(b, name, attrs) + [] == Scope(b, name, attrs);
    assert AllAttrs(b, name, all) == all + [] == all;
    assert Declarations([]) == [];
  }

  // --------------------------------------------------- the tree is a fixpoint

  /** Printing what was reparsed emits the first print again, token by token. */
  lemma {:induction false} PrintIsFixpoint(b: Bindings, el: Element)
    requires Normalised(el)
    ensures Print(b, Annotate(b, el)) == Print(b, el)
    decreases el, 1
  {
    var scope := Scope(b, el.name, el.attrs);
    TagIsFixpoint(b, el.name, el.attrs);
    RebuiltIsMapped(scope, [], el.children);
    assert [] + Mapped(scope, el.children) == Mapped(scope, el.children);
    PrintMapped(scope, el.children);
  }

  lemma {:induction false} PrintMapped(b: Bindings, cs: seq<Child>)
    requires AllNormalised(cs)
    ensures PrintChildren(b, Mapped(b, cs)) == PrintChildren(b, cs)
    decreases cs, 0
  {
    if cs != [] {
      PrintMappedChild(b, cs[0]);
      PrintMapped(b, cs[1..]);
    }
  }

  lemma {:induction false} PrintMappedChild(b: Bindings, c: Child)
    requires NormalisedChild(c)
    ensures PrintChild(b, MappedChild(b, c)) == PrintChild(b, c)
    decreases c, 2
  {
    if c.Elem? {
      PrintIsFixpoint(b, c.element);
    }
  }

  /** Settled children are normalised and annotated already. */
  predicate Settled(b: Bindings, cs: seq<Child>) {
    && AllNormalised(cs)
    && forall c :: c in cs ==> MappedChild(b, c) == c
  }

  /** Whatever is printed, what comes back is normalised, and printing and
      parsing it once more changes nothing. */
  lemma {:induction false} AnnotateSettles(b: Bindings, el: Element)
    ensures Normalised(Annotate(b, el))
    ensures Annotate(b, Annotate(b, el)) == Annotate(b, el)
    decreases el, 1
  {
    var scope := Scope(b, el.name, el.attrs);
    TagIsFixpoint(b, el.name, el.attrs);
    RebuiltSettles(scope, [], el.children);
    var cs := Rebuilt(scope, [], el.children);
    RebuiltIsMapped(scope, [], cs);
    MappedSettled(scope, cs);
    assert [] + cs == cs;
  }

  lemma {:induction false} MappedSettled(b: Bindings, cs: seq<Child>)
    requires forall c :: c in cs ==> MappedChild(b, c) == c
    ensures Mapped(b, cs) == cs
  {
    if cs != [] {
      assert cs[0] in cs;
      MappedSettled(b, cs[1..]);
    }
  }

  lemma {:induction false} RebuiltSettles(b: Bindings, acc: seq<Child>, cs: seq<Child>)
    requires Settled(b, acc)
    ensures Settled(b, Rebuilt(b, acc, cs))
    decreases cs, 0
  {
    if cs != [] {
      AddChildSettles(b, acc, cs[0]);
      RebuiltSettles(b, AddChild(b, acc, cs[0]), cs[1..]);
    }
  }

  lemma {:induction false} AddChildSettles(b: Bindings, acc: seq<Child>, c: Child)
    requires Settled(b, acc)
    ensures Settled(b, AddChild(b, acc, c))
    decreases c, 2
  {
    match c
    case Elem(el) =>
      AnnotateSettles(b, el);
      NormalisedSnoc(acc, Elem(Annotate(b, el)));
    case Text(text) =>
      if text != "" {
        if acc != [] && acc[|acc| - 1].Text? {
          var front := acc[..|acc| - 1];
          assert acc == front + [acc[|acc| - 1]];
          NormalisedFront(front, acc[|acc| - 1]);
          NormalisedSnoc(front, Text(acc[|acc| - 1].text + text));
        } else {
          NormalisedSnoc(acc, c);
        }
      }
  }

  /** A tree comes back as itself, but for appended declarations, exactly when it
      is normalised. */
  lemma RestoresExactlyWhen(b: Bindings, el: Element)
    ensures Restores(el, Annotate(b, el)) <==> Normalised(el)
  {
    if Restores(el, Annotate(b, el)) {
      AnnotateSettles(b, el);
      RestoredIsNormalised(el, Annotate(b, el));
    } else if Normalised(el) {
      AnnotateRestores(b, el);
    }
  }

  lemma {:induction false} RestoredIsNormalised(el: Element, el2: Element)
    requires Restores(el, el2) && Normalised(el2)
    ensures Normalised(el)
    decreases el, 1
  {
    AllRestoredAreNormalised(el.children, el2.children);
  }

  lemma {:induction false} AllRestoredAreNormalised(cs: seq<Child>, cs2: seq<Child>)
    requires AllRestored(cs, cs2) && AllNormalised(cs2)
    ensures AllNormalised(cs)
    decreases cs, 0
  {
    if cs != [] {
      RestoredChildIsNormalised(cs[0], cs2[0]);
      AllRestoredAreNormalised(cs[1..], cs2[1..]);
      if |cs| > 1 {
        assert cs[1..][0] == cs[1] && cs2[1..][0] == cs2[1];
        assert RestoredChild(cs[1], cs2[1]);
      }
    }
  }

  lemma {:induction false} RestoredChildIsNormalised(c: Child, c2: Child)
    requires RestoredChild(c, c2) && NormalisedChild(c2)
    ensures NormalisedChild(c)
    decreases c, 2
  {
    if c.Elem? { RestoredIsNormalised(c.element, c2.element); }
  }

  lemma {:induction false} NormalisedSnoc(cs: seq<Child>, c: Child)
    requires AllNormalised(cs) && NormalisedChild(c) && !Joins(cs, [c])
    ensures AllNormalised(cs + [c])
  {
    if cs == [] {
      assert cs + [c] == [c] && [c][1..] == [];
    } else {
      NormalisedSnoc(cs[1..], c);
      assert (cs + [c])[1..] == cs[1..] + [c];
    }
  }

  lemma {:induction false} NormalisedFront(cs: seq<Child>, c: Child)
    requires AllNormalised(cs + [c])
    ensures AllNormalised(cs) && !Joins(cs, [c])
  {
    if cs != [] {
      assert (cs + [c])[1..] == cs[1..] + [c];
      NormalisedFront(cs[1..], c);
    }
  }

  /** The law as a whole: an expressible, normalised document comes back with
      every name, value and child in place and only declarations appended, and
      prints exactly as before. */
  lemma NormalisedDocument(el: Element)
    requires WellFormed(el) && Normalised(el) && Expressible(el, "")
    ensures ParseDocument(Print([], el)).Some?
    ensures var el2 := ParseDocument(Print([], el)).value;
      Restores(el, el2) && Print([], el2) == Print([], el)
  {
    DocumentRoundTrip(el);
    AnnotateRestores([], el);
    PrintIsFixpoint([], el);
  }
}
