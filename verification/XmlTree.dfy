/** Element trees, qualified names and the tokens exchanged between the printer,
    the tokenizer and the parser of talk/xmllite. */
module XmlTree {
  const NS_XML: string := "http://www.w3.org/XML/1998/namespace"
  const NS_XMLNS: string := "http://www.w3.org/2000/xmlns/"

  /** A qualified name: a namespace and a local part. */
  datatype QName = QName(ns: string, local: string) {
    predicate IsEmpty() { ns == "" && local == "" }
  }

  const QN_XMLNS: QName := QName("", "xmlns")

  datatype Attr = Attr(name: QName, value: string)

  datatype Child = Text(text: string) | Elem(element: Element)

  datatype Element = Element(name: QName, attrs: seq<Attr>, children: seq<Child>)

  /** What a start tag carries before any name is resolved. */
  datatype RawAttr = RawAttr(name: string, value: string)

  /** The event stream that stands for the document text: an empty-element tag
      is a start tag immediately followed by its end tag. */
  datatype Token = Start(raw: string, atts: seq<RawAttr>) | Chars(text: string) | End(raw: string)

  predicate NoColon(s: string) { ':' !in s }

  /** A local part that can be printed: non-empty and without a colon. */
  predicate LocalOk(s: string) { s != "" && NoColon(s) }

  predicate DistinctNames(attrs: seq<Attr>) {
    forall i, j :: 0 <= i < j < |attrs| ==> attrs[i].name != attrs[j].name
  }

  /** What the printer asks of its tree: usable local parts and, as the
      ASSERT in AddAttr demands, no two attributes of one name. */
  predicate WellFormed(el: Element) {
    && LocalOk(el.name.local)
    && (forall a :: a in el.attrs ==> LocalOk(a.name.local))
    && DistinctNames(el.attrs)
    && forall c :: c in el.children ==> c.Elem? ==> WellFormed(c.element)
  }
}
