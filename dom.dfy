/**
 * The already-parsed document tree the extraction engine walks. An element has a tag
 * name, an optional `class` attribute, an optional `id` attribute and an ordered list of
 * child nodes; the child nodes are elements, text or comments.
 */
module Dom {
  import opened Errors

  datatype Element = Element(tag: string, cls: Option<string>, id: Option<string>, children: seq<Node>)

  datatype Node =
    | Elem(element: Element)
    | TextNode(data: string)
    | CommentNode(data: string)

  /** The element children of a node list, in document order (`.children()`). */
  function ElementsOf(ns: seq<Node>): (r: seq<Element>)
    ensures |r| <= |ns|
    ensures forall c :: c in r ==> Elem(c) in ns
  {
    if ns == [] then []
    else if ns[0].Elem? then [ns[0].element] + ElementsOf(ns[1..])
    else ElementsOf(ns[1..])
  }

  function Children(e: Element): seq<Element>
  {
    ElementsOf(e.children)
  }

  /** All descendant text, concatenated in document order (`.text()`); comments add nothing. */
  function TextContent(e: Element): string
  {
    TextOfNodes(e.children)
  }

  function TextOfNodes(ns: seq<Node>): string
    decreases ns
  {
    if ns == [] then ""
    else TextOfNode(ns[0]) + TextOfNodes(ns[1..])
  }

  function TextOfNode(n: Node): string
    decreases n
  {
    match n
    case Elem(e) => TextOfNodes(e.children)
    case TextNode(d) => d
    case CommentNode(_) => ""
  }
}
