/** Elements of talk/xmllite, whose lists are changed in place. */
module XmlElements {
  import opened XmlTree

  datatype XmlChild = TextNode(text: string) | ElementNode(element: XmlElement)

  function AddTextNode(cs: seq<XmlChild>, text: string): seq<XmlChild> {
    if text == "" then cs
    else if cs != [] && cs[|cs| - 1].TextNode? then cs[..|cs| - 1] + [TextNode(cs[|cs| - 1].text + text)]
    else cs + [TextNode(text)]
  }

  /** An element: its name, its attributes and its children. */
  class XmlElement {
    const name: QName
    var attrs: seq<Attr>
    var children: seq<XmlChild>

    constructor (name: QName)
      ensures this.name == name && attrs == [] && children == []
    {
      this.name, attrs, children := name, [], [];
    }

    method AddAttr(name: QName, value: string)
      modifies this`attrs
      ensures attrs == old(attrs) + [Attr(name, value)]
    {
      attrs := attrs + [Attr(name, value)];
    }

    method AddElement(child: XmlElement)
      modifies this`children
      ensures children == old(children) + [ElementNode(child)]
    {
      children := children + [ElementNode(child)];
    }

    /** Appends the text to a text node that is last, or as a new node. */
    method AddParsedText(text: string)
      modifies this`children
      ensures children == AddTextNode(old(children), text)
    {
      if text == "" {
        return;
      }
      var n := |children|;
      if n > 0 && children[n - 1].TextNode? {
        children := children[..n - 1] + [TextNode(children[n - 1].text + text)];
      } else {
        children := children + [TextNode(text)];
      }
    }
  }
}
