/** The parser of talk/xmllite: it answers the tokenizer's callbacks, keeps the
    namespace stack in step and hands the events to the builder. */
module XmlParser {
  import opened Options
  import opened XmlTree
  import B = XmlnsBindings
  import P = XmlPrint
  import Q = XmlParse
  import R = XmlRoundTrip
  import opened XmlnsStack
  import opened XmlPrinter
  import opened XmlBuilder

  datatype XmlError = NoError | SyntaxError | TokenizerError

  class XmlParser {
    const xmlnsstack: XmlnsStack
    const builder: XmlBuilder
    var raised: XmlError
    var sentError: bool
    /** What the tokenizer itself remembers: the open raw names, and whether
        there has been a document element. */
    var tags: seq<string>
    var rooted: bool

    ghost predicate Valid()
      reads this, xmlnsstack, builder, builder.closed.Keys, builder.spine
    {
      && xmlnsstack.Valid() && builder.Valid()
      && (raised == NoError ==>
        && |tags| == |builder.held| == |xmlnsstack.Frames()|
        && (rooted <==> tags != [] || builder.Finished().Some?)
        && (builder.spine != [] ==> builder.root != null))
    }

    /** The state of the run, as XmlParse describes it. */
    ghost function State(): Q.Parse
      requires xmlnsstack.Valid()
      reads this, xmlnsstack, builder
    {
      if raised != NoError then Q.Failed
      else Q.Running(xmlnsstack.Contents(), xmlnsstack.Frames(), tags, builder.held, builder.Finished())
    }

    constructor ()
      ensures Valid() && State() == Q.NEW_PARSE && !sentError
      ensures fresh(xmlnsstack) && fresh(builder) && builder.spine == []
    {
      var s := new XmlnsStack();
      var b := new XmlBuilder();
      xmlnsstack, builder := s, b;
      raised, sentError, tags, rooted := NoError, false, [], false;
    }

    /** The first error is the one that counts. */
    method RaiseError(err: XmlError)
      requires err != NoError
      modifies this`raised
      ensures raised == if old(raised) == NoError then err else old(raised)
    {
      if raised == NoError {
        raised := err;
      }
    }

    /** Declares the namespaces of a start tag; false when one is illegal. */
    method StartNamespaces(atts: seq<RawAttr>) returns (ok: bool)
      requires xmlnsstack.Valid()
      modifies xmlnsstack
      ensures xmlnsstack.Valid() && xmlnsstack.Frames() == old(xmlnsstack.Frames())
      ensures ok <==> Q.DeclaredRaw(atts).Some?
      ensures ok ==> xmlnsstack.Contents() == old(xmlnsstack.Contents()) + Q.DeclaredRaw(atts).value
    {
      ghost var b := xmlnsstack.Contents();
      assert atts[0..] == atts;
      var i := 0;
      while i < |atts|
        invariant 0 <= i <= |atts| && xmlnsstack.Valid() && xmlnsstack.Frames() == old(xmlnsstack.Frames())
        invariant Q.DeclaredRaw(atts).Some? <==> Q.DeclaredRaw(atts[i..]).Some?
        invariant Q.DeclaredRaw(atts).Some? ==>
          xmlnsstack.Contents() + Q.DeclaredRaw(atts[i..]).value == b + Q.DeclaredRaw(atts).value
      {
        var name, value := atts[i].name, atts[i].value;
        assert atts[i..][1..] == atts[i + 1..];
        if Q.DeclaredRaw(atts[i + 1..]).Some? {
          P.Assoc(xmlnsstack.Contents(), Q.DeclaredByRaw(atts[i]), Q.DeclaredRaw(atts[i + 1..]).value);
        }
        assert xmlnsstack.Contents() + [] == xmlnsstack.Contents();
        if Q.StartsWithXmlns(name) {
          if |name| == 5 {
            xmlnsstack.AddXmlns("", value);
          } else if name[5] == ':' {
            if value == "" {
              return false;
            }
            xmlnsstack.AddXmlns(name[6..], value);
          }
        }
        i := i + 1;
      }
      assert xmlnsstack.Contents() + [] == xmlnsstack.Contents();
      return true;
    }

    /** The namespace half of a start tag. */
    method OpenScope(name: string, atts: seq<RawAttr>)
      requires xmlnsstack.Valid() && raised == NoError
      modifies this, xmlnsstack
      ensures xmlnsstack.Valid() && sentError == old(sentError)
      ensures raised == if Q.DeclaredRaw(atts).Some? then NoError else SyntaxError
      ensures raised == NoError ==>
        && tags == old(tags) + [name] && rooted
        && xmlnsstack.Frames() == old(xmlnsstack.Frames()) + [|old(xmlnsstack.Contents())|]
        && xmlnsstack.Contents() == old(xmlnsstack.Contents()) + Q.DeclaredRaw(atts).value
    {
      tags, rooted := tags + [name], true;
      xmlnsstack.PushFrame();
      var ok := StartNamespaces(atts);
      if !ok {
        RaiseError(SyntaxError);
      }
    }

    method ExpatStartElement(name: string, atts: seq<RawAttr>)
      requires Valid() && Q.Tokenizes(State(), Start(name, atts))
      modifies this, xmlnsstack, builder, builder.spine
      ensures Valid() && State() == Q.StartTag(old(State()), name, atts)
      ensures builder.closed == old(builder.closed) && sentError == old(sentError)
      ensures forall e :: e in builder.spine && e !in old(builder.spine) ==> fresh(e)
    {
      OpenScope(name, atts);
      if raised != NoError {
        return;
      }
      var ok := builder.StartElement(xmlnsstack, name, atts);
      if !ok {
        RaiseError(SyntaxError);
      }
    }

    /** The end of an element closes its namespace scope. */
    method CloseScope()
      requires xmlnsstack.Valid() && xmlnsstack.Frames() != [] && tags != []
      modifies this`tags, xmlnsstack
      ensures xmlnsstack.Valid() && tags == old(tags)[..|old(tags)| - 1]
      ensures xmlnsstack.Frames() == old(xmlnsstack.Frames())[..|old(xmlnsstack.Frames())| - 1]
      ensures var size := old(xmlnsstack.Frames())[|old(xmlnsstack.Frames())| - 1];
        xmlnsstack.Contents() == if size < |old(xmlnsstack.Contents())| then old(xmlnsstack.Contents())[..size]
                                 else old(xmlnsstack.Contents())
    {
      tags := tags[..|tags| - 1];
      xmlnsstack.PopFrame();
    }

    method ExpatEndElement(name: string)
      requires Valid() && Q.Tokenizes(State(), End(name))
      modifies this, xmlnsstack, builder
      ensures Valid() && State() == Q.EndTag(old(State()))
      ensures sentError == old(sentError)
      ensures builder.spine == old(builder.spine)[..|old(builder.spine)| - 1]
      ensures builder.closed.Keys == old(builder.closed).Keys + {old(builder.spine)[|old(builder.spine)| - 1]}
    {
      CloseScope();
      builder.EndElement();
    }

    method ExpatCharacterData(text: string)
      requires Valid() && Q.Tokenizes(State(), Chars(text))
      modifies builder`held, builder.spine
      ensures Valid() && State() == Q.CharData(old(State()), text)
      ensures builder.closed == old(builder.closed) && builder.spine == old(builder.spine)
    {
      builder.CharacterData(text);
    }

    /** The tokenizer's own verdict on the next event. */
    method Accepts(t: Token) returns (ok: bool)
      requires Valid() && raised == NoError
      ensures ok <==> Q.Tokenizes(State(), t)
    {
      match t {
        case Start(_, atts) =>
          var distinct := DistinctRaw(atts);
          return (tags != [] || !rooted) && distinct;
        case Chars(text) =>
          return tags != [] && text != "";
        case End(raw) =>
          return tags != [] && tags[|tags| - 1] == raw;
      }
    }

    static method DistinctRaw(atts: seq<RawAttr>) returns (ok: bool)
      ensures ok <==> forall i, j :: 0 <= i < j < |atts| ==> atts[i].name != atts[j].name
    {
      var names: set<string> := {};
      var i := 0;
      while i < |atts|
        invariant 0 <= i <= |atts| && forall n :: n in names <==> exists k :: 0 <= k < i && atts[k].name == n
        invariant forall j, k :: 0 <= j < k < i ==> atts[j].name != atts[k].name
      {
        if atts[i].name in names {
          return false;
        }
        names := names + {atts[i].name};
        i := i + 1;
      }
      return true;
    }

    /** One event: the tokenizer rejects it, or calls back. After an error
        nothing is looked at any more. */
    method Feed(t: Token)
      requires Valid()
      modifies this, xmlnsstack, builder, builder.spine
      ensures Valid() && State() == Q.Step(old(State()), t) && sentError == old(sentError)
      ensures forall e :: e in builder.spine && e !in old(builder.spine) ==> fresh(e)
    {
      if raised != NoError {
        return;
      }
      var ok := Accepts(t);
      if !ok {
        RaiseError(TokenizerError);
        return;
      }
      match t {
        case Start(raw, atts) =>
          ExpatStartElement(raw, atts);
        case Chars(text) =>
          ExpatCharacterData(text);
        case End(raw) =>
          ExpatEndElement(raw);
      }
    }

    /** Takes a piece of the document, the last one if isFinal. An error is
        reported once: the builder drops what it has, and later calls fail. */
    method Parse(ts: seq<Token>, isFinal: bool) returns (ok: bool)
      requires Valid()
      modifies this, xmlnsstack, builder, builder.spine
      ensures Valid() && sentError == (old(sentError) || !ok)
      ensures old(sentError) ==> !ok
      ensures var st := Q.Run(old(State()), ts);
        !old(sentError) ==> (ok <==> st.Running? && (isFinal ==> st.open == [] && st.root.Some?))
      ensures ok ==> State() == Q.Run(old(State()), ts)
      ensures !ok && !old(sentError) ==> builder.held == [] && builder.Finished() == None
    {
      if sentError {
        return false;
      }
      ghost var st0 := State();
      assert ts[0..] == ts;
      var i := 0;
      while i < |ts|
        invariant 0 <= i <= |ts| && Valid() && !sentError
        invariant Q.Run(State(), ts[i..]) == Q.Run(st0, ts)
        invariant forall e :: e in builder.spine ==> e in old(builder.spine) || fresh(e)
      {
        assert ts[i..][1..] == ts[i + 1..];
        assert forall k :: 0 <= k < |builder.spine| ==> builder.spine[k] in builder.spine;
        Feed(ts[i]);
        i := i + 1;
      }
      if raised == NoError && isFinal && (tags != [] || !rooted) {
        RaiseError(TokenizerError);
      }
      if raised != NoError {
        sentError := true;
        builder.Error();
        return false;
      }
      return true;
    }

    /** Reads a whole document with a parser of its own. */
    static method ParseXml(ts: seq<Token>) returns (t: Option<Element>)
      ensures t == Q.ParseDocument(ts)
    {
      var parser := new XmlParser();
      var ok := parser.Parse(ts, true);
      if !ok {
        return None;
      }
      var el := parser.builder.CreateElement();
      var tree := parser.builder.Snapshot(el);
      return Some(tree);
    }
  }

  /** A printer and a parser, one after the other: the document comes back with
      its invented declarations, or is refused when it is not expressible. */
  method PrintAndParse(el: Element) returns (t: Option<Element>)
    requires WellFormed(el)
    ensures t == if R.Expressible(el, "") then Some(R.Annotate([], el)) else None
  {
    var stack := new XmlnsStack();
    var printer := new XmlPrinter(stack);
    printer.PrintElement(el);
    assert [] + P.Print([], el) == P.Print([], el);
    t := XmlParser.ParseXml(printer.out);
    R.DocumentRoundTrip(el);
  }
}
