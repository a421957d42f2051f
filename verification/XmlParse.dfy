/** What the parser and the builder make of a token stream. A run either has
    failed, as every callback is ignored once an error was raised, or holds the
    namespace stack, the open elements (outermost first, each without its open
    child) and the finished document element. */
module XmlParse {
  import opened Options
  import opened XmlTree
  import opened XmlnsBindings

  datatype Parse =
    | Failed
    | Running(bindings: Bindings, frames: seq<nat>, tags: seq<string>, open: seq<Element>, root: Option<Element>)

  const NEW_PARSE: Parse := Running([], [], [], [], None)

  // ------------------------------------------------------------ start tags

  predicate StartsWithXmlns(name: string) { "xmlns" <= name }

  /** A prefix may not be bound to the empty namespace in XML 1.0. */
  predicate EmptyPrefixDecl(a: RawAttr) {
    StartsWithXmlns(a.name) && |a.name| > 5 && a.name[5] == ':' && a.value == ""
  }

  function DeclaredByRaw(a: RawAttr): Bindings {
    if !StartsWithXmlns(a.name) then []
    else if |a.name| == 5 then [Binding("", a.value)]
    else if a.name[5] == ':' then [Binding(a.name[6..], a.value)]
    else []
  }

  /** The declarations of a start tag in order; None when one is illegal. */
  function DeclaredRaw(atts: seq<RawAttr>): Option<Bindings> {
    if atts == [] then Some([])
    else if EmptyPrefixDecl(atts[0]) then None
    else
      var rest := DeclaredRaw(atts[1..]);
      if rest.None? then None else Some(DeclaredByRaw(atts[0]) + rest.value)
  }

  /** The attributes with their names resolved; None when a prefix is unbound
      or a namespaced name comes twice. */
  function BuildAttrs(b: Bindings, atts: seq<RawAttr>, seen: set<QName>): Option<seq<Attr>>
    decreases |atts|
  {
    if atts == [] then Some([])
    else
      var name := ResolveQName(b, atts[0].name, true);
      if name.IsEmpty() || (name.ns != "" && name in seen) then None
      else
        var rest := BuildAttrs(b, atts[1..], if name.ns != "" then seen + {name} else seen);
        if rest.None? then None else Some([Attr(name, atts[0].value)] + rest.value)
  }

  function BuildElement(b: Bindings, raw: string, atts: seq<RawAttr>): Option<Element> {
    var name := ResolveQName(b, raw, false);
    var attrs := BuildAttrs(b, atts, {});
    if name.IsEmpty() || attrs.None? then None else Some(Element(name, attrs.value, []))
  }

  // -------------------------------------------------------------- children

  /** Character data joins a text node that is already last. */
  function AddText(cs: seq<Child>, text: string): seq<Child> {
    if text == "" then cs
    else if cs != [] && cs[|cs| - 1].Text? then cs[..|cs| - 1] + [Text(cs[|cs| - 1].text + text)]
    else cs + [Text(text)]
  }

  function WithTop(open: seq<Element>, cs: seq<Child>): seq<Element>
    requires open != []
  {
    open[..|open| - 1] + [open[|open| - 1].(children := cs)]
  }

  /** The open elements once the innermost is closed into the one around it. */
  function AfterEnd(open: seq<Element>): (r: seq<Element>)
    requires open != []
    ensures |r| == |open| - 1
  {
    var outer := open[..|open| - 1];
    if outer == [] then [] else WithTop(outer, outer[|outer| - 1].children + [Elem(open[|open| - 1])])
  }

  /** The open elements once text has been added to the innermost. */
  function AfterText(open: seq<Element>, text: string): (r: seq<Element>)
    ensures |r| == |open|
  {
    if open == [] then [] else WithTop(open, AddText(open[|open| - 1].children, text))
  }

  function Top(st: Parse): Element
    requires st.Running? && st.open != []
  {
    st.open[|st.open| - 1]
  }

  // ----------------------------------------------------------------- events

  /** What the tokenizer itself rejects: a second document element, a name that
      is given twice in one tag, character data outside the document element
      and an end tag that does not match. */
  predicate Tokenizes(st: Parse, t: Token) {
    st.Running? &&
    match t
    case Start(raw, atts) =>
      && (st.open != [] || st.root.None?)
      && forall i, j :: 0 <= i < j < |atts| ==> atts[i].name != atts[j].name
    case Chars(text) => st.open != [] && text != ""
    case End(raw) => st.open != [] && st.frames != [] && st.tags != [] && st.tags[|st.tags| - 1] == raw
  }

  function StartTag(st: Parse, raw: string, atts: seq<RawAttr>): Parse
    requires st.Running?
  {
    var decls := DeclaredRaw(atts);
    if decls.None? then Failed
    else
      var b := st.bindings + decls.value;
      var el := BuildElement(b, raw, atts);
      if el.None? then Failed
      else st.(bindings := b, frames := st.frames + [|st.bindings|], tags := st.tags + [raw], open := st.open + [el.value])
  }

  /** The element that is closed becomes a child of the one around it, or the
      document element. */
  function EndTag(st: Parse): Parse
    requires st.Running? && st.open != [] && st.frames != [] && st.tags != []
  {
    var size := st.frames[|st.frames| - 1];
    st.(bindings := if size < |st.bindings| then st.bindings[..size] else st.bindings,
        frames := st.frames[..|st.frames| - 1],
        tags := st.tags[..|st.tags| - 1],
        open := AfterEnd(st.open),
        root := if |st.open| == 1 then Some(Top(st)) else st.root)
  }

  function CharData(st: Parse, text: string): Parse
    requires st.Running? && st.open != []
  {
    st.(open := AfterText(st.open, text))
  }

  function Step(st: Parse, t: Token): Parse {
    if !Tokenizes(st, t) then Failed
    else
      match t
      case Start(raw, atts) => StartTag(st, raw, atts)
      case Chars(text) => CharData(st, text)
      case End(_) => EndTag(st)
  }

  function Run(st: Parse, ts: seq<Token>): Parse
    decreases |ts|
  {
    if ts == [] then st else Run(Step(st, ts[0]), ts[1..])
  }

  /** The element built from a whole document, if it was one. */
  function ParseDocument(ts: seq<Token>): Option<Element> {
    var st := Run(NEW_PARSE, ts);
    if st.Running? && st.open == [] then st.root else None
  }

  // ----------------------------------------------------------------- facts

  lemma {:induction false} RunAppend(st: Parse, s: seq<Token>, t: seq<Token>)
    ensures Run(st, s + t) == Run(Run(st, s), t)
    decreases |s|
  {
    if s == [] {
      assert s + t == t;
    } else {
      RunAppend(Step(st, s[0]), s[1..], t);
      assert (s + t)[1..] == s[1..] + t;
    }
  }

  lemma {:induction false} RunFailed(ts: seq<Token>)
    ensures Run(Failed, ts) == Failed
  {
    if ts != [] {
      RunFailed(ts[1..]);
    }
  }

  lemma AddTextTwice(cs: seq<Child>, a: string, c: string)
    requires a != "" && c != ""
    ensures AddText(AddText(cs, a), c) == AddText(cs, a + c)
  {
    var n := |cs|;
    if n > 0 && cs[n - 1].Text? {
      assert (cs[..n - 1] + [Text(cs[n - 1].text + a)])[..n - 1] == cs[..n - 1];
      assert cs[n - 1].text + a + c == cs[n - 1].text + (a + c);
    } else {
      assert (cs + [Text(a)])[..n] == cs;
    }
  }

  lemma WithTopTwice(open: seq<Element>, cs: seq<Child>, ds: seq<Child>)
    requires open != []
    ensures WithTop(WithTop(open, cs), ds) == WithTop(open, ds)
  {
    assert WithTop(open, cs)[..|open| - 1] == open[..|open| - 1];
  }

  /** However the tokenizer cuts a run of text, the outcome is the same. */
  lemma ChunkingIsInvisible(st: Parse, a: string, c: string)
    requires a != "" && c != ""
    ensures Step(Step(st, Chars(a)), Chars(c)) == Step(st, Chars(a + c))
  {
    if st.Running? && st.open != [] {
      var cs := Top(st).children;
      AddTextTwice(cs, a, c);
      WithTopTwice(st.open, AddText(cs, a), AddText(cs, a + c));
    }
  }

  lemma {:induction false} DeclaredRawAppend(s: seq<RawAttr>, t: seq<RawAttr>)
    ensures DeclaredRaw(s + t) ==
      if DeclaredRaw(s).None? || DeclaredRaw(t).None? then None else Some(DeclaredRaw(s).value + DeclaredRaw(t).value)
  {
    if s == [] {
      assert s + t == t;
      if DeclaredRaw(t).Some? {
        assert [] + DeclaredRaw(t).value == DeclaredRaw(t).value;
      }
    } else {
      DeclaredRawAppend(s[1..], t);
      assert (s + t)[1..] == s[1..] + t;
      if DeclaredRaw(s).Some? && DeclaredRaw(t).Some? {
        assert DeclaredByRaw(s[0]) + (DeclaredRaw(s[1..]).value + DeclaredRaw(t).value)
            == DeclaredRaw(s).value + DeclaredRaw(t).value;
      }
    }
  }

  /** The attribute at i has an unbound prefix, or a namespaced name that was
      there before. */
  predicate Refused(b: Bindings, atts: seq<RawAttr>, seen: set<QName>, i: nat)
    requires i < |atts|
  {
    var name := ResolveQName(b, atts[i].name, true);
    || name.IsEmpty()
    || (name.ns != "" && (name in seen || exists j :: 0 <= j < i && ResolveQName(b, atts[j].name, true) == name))
  }

  /** The attributes of a tag are refused exactly when one of them is. */
  lemma {:induction false} AttrsRefusedExactlyWhen(b: Bindings, atts: seq<RawAttr>, seen: set<QName>)
    ensures BuildAttrs(b, atts, seen).None? <==> exists i :: 0 <= i < |atts| && Refused(b, atts, seen, i)
    decreases |atts|
  {
    if atts != [] {
      var name := ResolveQName(b, atts[0].name, true);
      if name.IsEmpty() || (name.ns != "" && name in seen) {
        assert Refused(b, atts, seen, 0);
      } else {
        var seen' := if name.ns != "" then seen + {name} else seen;
        AttrsRefusedExactlyWhen(b, atts[1..], seen');
        RefusedLater(b, atts, seen);
        assert !Refused(b, atts, seen, 0);
        if i :| 0 <= i < |atts[1..]| && Refused(b, atts[1..], seen', i) {
          assert Refused(b, atts, seen, i + 1);
        }
        if i :| 0 <= i < |atts| && Refused(b, atts, seen, i) {
          assert Refused(b, atts[1..], seen', i - 1);
        }
      }
    }
  }

  lemma RefusedLater(b: Bindings, atts: seq<RawAttr>, seen: set<QName>)
    requires atts != []
    ensures var name := ResolveQName(b, atts[0].name, true);
            var seen' := if name.ns != "" then seen + {name} else seen;
            forall i :: 0 <= i < |atts| - 1 ==> Refused(b, atts[1..], seen', i) == Refused(b, atts, seen, i + 1)
  {
    hide ResolveQName;
    var name := ResolveQName(b, atts[0].name, true);
    var seen' := if name.ns != "" then seen + {name} else seen;
    forall i | 0 <= i < |atts| - 1
      ensures Refused(b, atts[1..], seen', i) == Refused(b, atts, seen, i + 1)
    {
      var n := ResolveQName(b, atts[i + 1].name, true);
      assert atts[1..][i] == atts[i + 1];
      if j :| 0 <= j < i + 1 && ResolveQName(b, atts[j].name, true) == n {
        if j > 0 { assert atts[1..][j - 1] == atts[j]; }
      }
      if j :| 0 <= j < i && ResolveQName(b, atts[1..][j].name, true) == n {
        assert atts[j + 1] == atts[1..][j];
      }
    }
  }

  /** A start tag fails exactly when it binds a prefix to the empty namespace,
      when its name or that of an attribute has an unbound prefix, or when two
      attributes come to the same namespaced name. */
  lemma StartFailsExactlyWhen(st: Parse, raw: string, atts: seq<RawAttr>)
    requires st.Running?
    ensures StartTag(st, raw, atts).Failed? <==>
      || DeclaredRaw(atts).None?
      || var b := st.bindings + DeclaredRaw(atts).value;
         || ResolveQName(b, raw, false).IsEmpty()
         || exists i :: 0 <= i < |atts| && Refused(b, atts, {}, i)
  {
    if DeclaredRaw(atts).Some? {
      AttrsRefusedExactlyWhen(st.bindings + DeclaredRaw(atts).value, atts, {});
    }
  }

  lemma {:induction false} DeclaredRawExactlyWhen(atts: seq<RawAttr>)
    ensures DeclaredRaw(atts).None? <==> exists i :: 0 <= i < |atts| && EmptyPrefixDecl(atts[i])
  {
    if atts != [] {
      DeclaredRawExactlyWhen(atts[1..]);
      assert forall i :: 0 < i < |atts| ==> atts[i] == atts[1..][i - 1];
      assert forall i :: 0 <= i < |atts[1..]| ==> atts[1..][i] == atts[i + 1];
    }
  }

  /** A start tag whose names all resolve, differently where namespaced, is
      accepted with exactly the resolved names. */
  lemma {:induction false} BuildAttrsResolves(b: Bindings, atts: seq<RawAttr>, attrs: seq<Attr>, seen: set<QName>)
    requires |atts| == |attrs|
    requires forall i :: 0 <= i < |atts| ==> atts[i].value == attrs[i].value
    requires forall i :: 0 <= i < |atts| ==> ResolveQName(b, atts[i].name, true) == attrs[i].name && !attrs[i].name.IsEmpty()
    requires forall i :: 0 <= i < |atts| ==> attrs[i].name !in seen
    requires DistinctNames(attrs)
    ensures BuildAttrs(b, atts, seen) == Some(attrs)
    decreases |atts|
  {
    if atts != [] {
      var name := attrs[0].name;
      BuildAttrsResolves(b, atts[1..], attrs[1..], if name.ns != "" then seen + {name} else seen);
      assert attrs == [attrs[0]] + attrs[1..];
    }
  }
}
