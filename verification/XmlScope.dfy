/** What the names in a document mean: the namespace stack of the parser
    (talk/xmllite/xmlparser.cc, xmlnsstack.cc) against the rules of section 6 of
    Namespaces in XML 1.0, said of raw attributes, positions and runs. */
module XmlScopes {
  import opened Options
  import opened XmlTree
  import opened XmlnsBindings
  import opened XmlParse

  // ------------------------------------------------------------ declarations

  /** The raw attribute declares p. */
  predicate Declares(a: RawAttr, p: string) {
    a.name == "xmlns:" + p || (p == "" && a.name == "xmlns")
  }

  lemma DeclaredOne(a: RawAttr, p: string)
    ensures Declares(a, p) ==> DeclaredByRaw(a) == [Binding(p, a.value)]
    ensures !Declares(a, p) ==> forall x :: x in DeclaredByRaw(a) ==> x.prefix != p
    ensures EmptyPrefixDecl(a) <==> a.value == "" && |a.name| > 5 && a.name[..6] == "xmlns:"
  {
    if Declares(a, p) {
      assert a.name == "xmlns:" + p ==> a.name[6..] == p && a.name[5] == ':';
    } else if StartsWithXmlns(a.name) && |a.name| > 5 && a.name[5] == ':' {
      assert a.name == "xmlns:" + a.name[6..];
    }
  }

  /** A start tag is refused for its declarations exactly when one of them binds a
      prefix to the empty namespace. */
  lemma RefusedExactlyWhen(atts: seq<RawAttr>)
    ensures DeclaredRaw(atts).None? <==> exists i :: 0 <= i < |atts| && "xmlns:" <= atts[i].name && atts[i].value == ""
  {
    DeclaredRawExactlyWhen(atts);
    forall i | 0 <= i < |atts|
      ensures EmptyPrefixDecl(atts[i]) <==> "xmlns:" <= atts[i].name && atts[i].value == ""
    {
      DeclaredOne(atts[i], "");
    }
  }

  /** What is not declared again keeps its meaning. */
  lemma {:induction false} OthersKeep(b: Bindings, d: Bindings, p: string)
    requires forall x :: x in d ==> x.prefix != p
    ensures NsForPrefix(b + d, p) == NsForPrefix(b, p)
  {
    if d == [] {
      assert b + d == b;
    } else {
      var n := |d| - 1;
      OthersKeep(b, d[..n], p);
      assert d[n] in d && (b + d)[..|b + d| - 1] == b + d[..n];
    }
  }

  lemma {:induction false} NothingDeclared(atts: seq<RawAttr>, p: string)
    requires DeclaredRaw(atts).Some? && forall j :: 0 <= j < |atts| ==> !Declares(atts[j], p)
    ensures forall x :: x in DeclaredRaw(atts).value ==> x.prefix != p
  {
    if atts != [] {
      DeclaredOne(atts[0], p);
      NothingDeclared(atts[1..], p);
    }
  }

  /** After the declarations of a tag a prefix means what the last attribute that
      declares it says, and what it meant before when none does. */
  lemma {:induction false} LastDeclarationWins(b: Bindings, atts: seq<RawAttr>, k: nat, p: string)
    requires DeclaredRaw(atts).Some? && !XmlPrefixed(p) && k < |atts|
    requires Declares(atts[k], p) && forall j :: k < j < |atts| ==> !Declares(atts[j], p)
    ensures NsForPrefix(b + DeclaredRaw(atts).value, p) == Some(atts[k].value)
    decreases k
  {
    var first, rest := DeclaredByRaw(atts[0]), DeclaredRaw(atts[1..]).value;
    Assoc(b, first, rest);
    if k > 0 {
      LastDeclarationWins(b + first, atts[1..], k - 1, p);
    } else {
      DeclaredOne(atts[0], p);
      NothingDeclared(atts[1..], p);
      InnermostBinds(b + first, |b|, p);
      OthersKeep(b + first, rest, p);
    }
  }

  lemma Assoc(a: Bindings, b: Bindings, c: Bindings)
    ensures a + (b + c) == (a + b) + c
  {
  }

  lemma UndeclaredKeeps(b: Bindings, atts: seq<RawAttr>, p: string)
    requires DeclaredRaw(atts).Some? && forall j :: 0 <= j < |atts| ==> !Declares(atts[j], p)
    ensures NsForPrefix(b + DeclaredRaw(atts).value, p) == NsForPrefix(b, p)
  {
    NothingDeclared(atts, p);
    OthersKeep(b, DeclaredRaw(atts).value, p);
  }

  // -------------------------------------------------------------- start tags

  /** What a start tag that is accepted does to the stack, and to its own name. */
  lemma TagOpensScope(st: Parse, raw: string, atts: seq<RawAttr>)
    requires Step(st, Start(raw, atts)).Running?
    ensures st.Running? && DeclaredRaw(atts).Some?
    ensures var st' := Step(st, Start(raw, atts));
            && st'.bindings == st.bindings + DeclaredRaw(atts).value
            && st'.frames == st.frames + [|st.bindings|] && |st'.open| == |st.open| + 1 && st'.tags == st.tags + [raw]
            && Top(st').name == ResolveQName(st'.bindings, raw, false) && !Top(st').name.IsEmpty()
  {
  }

  /** A name under a start tag, and that of the tag itself, whose prefix the tag
      declares, is in the namespace of the last such declaration. */
  lemma PrefixedNameInTag(st: Parse, raw: string, atts: seq<RawAttr>, k: nat, p: string, local: string, isAttr: bool)
    requires Step(st, Start(raw, atts)).Running? && k < |atts|
    requires p != "" && NoColon(p) && !XmlPrefixed(p) && atts[k].name == "xmlns:" + p
    requires forall j :: k < j < |atts| ==> atts[j].name != "xmlns:" + p
    ensures var st' := Step(st, Start(raw, atts));
            && ResolveQName(st'.bindings, p + ":" + local, isAttr) == QName(atts[k].value, local)
            && (raw == p + ":" + local ==> Top(st').name == QName(atts[k].value, local))
  {
    TagOpensScope(st, raw, atts);
    LastDeclarationWins(st.bindings, atts, k, p);
    ResolvesTo(st.bindings + DeclaredRaw(atts).value, p, local, isAttr);
    ResolvesTo(st.bindings + DeclaredRaw(atts).value, p, local, false);
  }

  /** A bare name under a start tag that declares a default namespace is in it if
      it names an element, and in none if an attribute. */
  lemma BareNameInTag(st: Parse, raw: string, atts: seq<RawAttr>, k: nat, local: string)
    requires Step(st, Start(raw, atts)).Running? && k < |atts| && NoColon(local)
    requires atts[k].name == "xmlns" && forall j :: k < j < |atts| ==> atts[j].name != "xmlns" && atts[j].name != "xmlns:"
    ensures var st' := Step(st, Start(raw, atts));
            && ResolveQName(st'.bindings, local, false) == QName(atts[k].value, local)
            && ResolveQName(st'.bindings, local, true) == QName("", local)
            && (raw == local ==> Top(st').name == QName(atts[k].value, local))
  {
    TagOpensScope(st, raw, atts);
    LastDeclarationWins(st.bindings, atts, k, "");
    ResolvesTo(st.bindings + DeclaredRaw(atts).value, local, "", false);
    ResolvesTo(st.bindings + DeclaredRaw(atts).value, local, "", true);
  }

  // -------------------------------------------------------- inside an element

  /** The run stays inside the element that has the n-th frame. */
  predicate Inside(st: Parse, ts: seq<Token>, n: nat)
    decreases |ts|
  {
    st.Running? && |st.frames| >= n && (ts != [] ==> Inside(Step(st, ts[0]), ts[1..], n))
  }

  /** The stack goes on from b, and what was opened since left b alone. */
  predicate Above(st: Parse, b: Bindings, frames: seq<nat>, tags: seq<string>) {
    && st.Running? && b <= st.bindings && frames <= st.frames
    && (forall i :: |frames| <= i < |st.frames| ==> |b| <= st.frames[i])
    && tags <= st.tags && |st.tags| - |tags| == |st.frames| - |frames|
  }

  lemma StepStaysAbove(st: Parse, t: Token, b: Bindings, frames: seq<nat>, tags: seq<string>)
    requires Above(st, b, frames, tags) && Step(st, t).Running? && |Step(st, t).frames| >= |frames|
    ensures Above(Step(st, t), b, frames, tags)
  {
    if t.Start? { TagOpensScope(st, t.raw, t.atts); }
  }

  lemma {:induction false} RunStaysAbove(st: Parse, ts: seq<Token>, b: Bindings, frames: seq<nat>, tags: seq<string>)
    requires Above(st, b, frames, tags) && Inside(st, ts, |frames|)
    ensures Above(Run(st, ts), b, frames, tags)
    decreases |ts|
  {
    if ts != [] {
      StepStaysAbove(st, ts[0], b, frames, tags);
      RunStaysAbove(Step(st, ts[0]), ts[1..], b, frames, tags);
    }
  }

  /** However deep inside an element, a prefix means what its tag made of it until
      an inner tag, still open, declares it again; and the end of the element,
      under its own raw name and no other, gives every prefix its old meaning back. */
  lemma ScopeLasts(st: Parse, raw: string, atts: seq<RawAttr>, ts: seq<Token>, p: string, end: string)
    requires Step(st, Start(raw, atts)).Running?
    requires Inside(Step(st, Start(raw, atts)), ts, |st.frames| + 1)
    ensures var tag, deep := Step(st, Start(raw, atts)), Run(Step(st, Start(raw, atts)), ts);
            && deep.Running? && tag.bindings <= deep.bindings
            && ((forall j :: |tag.bindings| <= j < |deep.bindings| ==> deep.bindings[j].prefix != p) ==>
                  NsForPrefix(deep.bindings, p) == NsForPrefix(tag.bindings, p))
            && (|deep.frames| == |tag.frames| && Step(deep, End(end)).Running? ==>
                  end == raw && Step(deep, End(end)).bindings == st.bindings)
  {
    var tag := Step(st, Start(raw, atts));
    TagOpensScope(st, raw, atts);
    RunStaysAbove(tag, ts, tag.bindings, tag.frames, tag.tags);
    var deep := Run(tag, ts);
    assert deep.bindings == tag.bindings + deep.bindings[|tag.bindings|..];
    if forall j :: |tag.bindings| <= j < |deep.bindings| ==> deep.bindings[j].prefix != p {
      OthersKeep(tag.bindings, deep.bindings[|tag.bindings|..], p);
    }
    if |deep.frames| == |tag.frames| && Step(deep, End(end)).Running? {
      EndsScope(st.bindings, st.frames, deep, end);
    }
  }

  /** What no document can have: anything after its element, text before it, and a
      raw name twice in one tag. */
  lemma NeverAccepted(st: Parse, t: Token)
    ensures st.Running? && st.open == [] && st.root.Some? ==> Step(st, t).Failed?
    ensures st.Running? && st.open == [] && !t.Start? ==> Step(st, t).Failed?
    ensures t.Start? && (exists i, j :: 0 <= i < j < |t.atts| && t.atts[i].name == t.atts[j].name) ==> Step(st, t).Failed?
  {
  }

  lemma EndsScope(b: Bindings, frames: seq<nat>, deep: Parse, raw: string)
    requires deep.Running? && b <= deep.bindings && deep.frames == frames + [|b|] && Step(deep, End(raw)).Running?
    ensures Step(deep, End(raw)).bindings == b
  {
  }
}
