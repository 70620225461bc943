/** The parsed markup tree as the converter reads it, and the warnings it
    writes to standard output.

    The XML reader is a collaborator outside this model: an element is an
    abstract record of its name, its string attributes, the attributes
    readable as integers, and its child elements in document order. */
module Documents {
  import opened Results

  datatype Element = Element(
    name: string,
    attrs: map<string, string>,
    ints: map<string, int>,
    children: seq<Element>)

  /** Attribute(name): the text of an attribute, or null when absent. */
  function Attribute(e: Element, key: string): Option<string> {
    if key in e.attrs then Some(e.attrs[key]) else None
  }

  /** IntAttribute(name): the integer value of an attribute, 0 when absent. */
  function IntAttribute(e: Element, key: string): int {
    if key in e.ints then e.ints[key] else 0
  }

  /** A line written to standard output. */
  datatype Warning =
    | UnrecognisedTransform(kind: string)
    | UnrecognisedShape(name: string)
}
