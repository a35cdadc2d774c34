/** The part of an ElementTree document that the OSIS readers look at: elements with a
    tag, attributes, the text before the first child, the children and the tail (the text
    after the element's end tag, up to its next sibling).  A missing text, tail or
    attribute is the empty string, which Python's truth tests treat the same way. */
module Xml {

  datatype Element = Element(tag: string, attrs: map<string, string>, text: string, children: seq<Element>, tail: string)

  /** `tag.split("}")[-1]`: the tag without its `{namespace}` prefix. */
  function LocalName(tag: string): (r: string)
    ensures '}' !in r
    ensures '}' !in tag ==> r == tag
    decreases |tag|
  {
    if '}' in tag then
      var i := FirstBrace(tag);
      LocalName(tag[i + 1..])
    else tag
  }

  function FirstBrace(tag: string): (i: nat)
    requires '}' in tag
    ensures i < |tag| && tag[i] == '}'
  {
    if tag[0] == '}' then 0 else 1 + FirstBrace(tag[1..])
  }

  /** `e.attrib.get(name)`, with a missing attribute read as the empty string. */
  function Attr(e: Element, name: string): (v: string)
    ensures name !in e.attrs ==> v == ""
  {
    if name in e.attrs then e.attrs[name] else ""
  }

  /** `e.iter()`: the element and all its descendants in document order (preorder). */
  function Preorder(e: Element): (r: seq<Element>)
    ensures |r| >= 1 && r[0] == e
    decreases e
  {
    [e] + PreorderAll(e.children)
  }

  function PreorderAll(cs: seq<Element>): seq<Element>
    decreases cs
  {
    if cs == [] then [] else Preorder(cs[0]) + PreorderAll(cs[1..])
  }

  /** `"".join(e.itertext())`: the element's text, then for each child its own text and
      its tail, in document order; the element's own tail is not included. */
  function Itertext(e: Element): string
    decreases e
  {
    e.text + ItertextAll(e.children)
  }

  function ItertextAll(cs: seq<Element>): string
    decreases cs
  {
    if cs == [] then [] else Itertext(cs[0]) + cs[0].tail + ItertextAll(cs[1..])
  }

  /** The element's own tail is not part of its text. */
  lemma ItertextIgnoresTail(e: Element, t: string)
    ensures Itertext(e.(tail := t)) == Itertext(e)
  {
  }
}
