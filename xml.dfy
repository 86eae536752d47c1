/** The parsed XML tree the walkers receive (what `ET.fromstring` returns). */
module Xml {
  import opened Wrappers

  /** An element: its tag, its text (`None` when it has none) and its child elements in document order. */
  datatype Element = Element(tag: string, text: Option<string>, children: seq<Element>)

  /** The tags of `nodes`, in document order. */
  function Tags(nodes: seq<Element>): seq<string>
  {
    seq(|nodes|, i requires 0 <= i < |nodes| => nodes[i].tag)
  }
}
