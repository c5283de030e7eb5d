/** The Slate editor tree, as the converter reads it. */
module Slate {

  /** A Slate node. A text node carries its string and the types of its marks
      (any strings: the converter only looks for "bold", "italic" and "code").
      Any other node is an element with a `type`, a `nodes` list that may be
      absent and, for links, the `href` kept in its `data`. Text nodes are leaves. */
  datatype Node =
    | Text(text: string, marks: seq<string>)
    | Element(elemType: string, nodes: NodeList, href: string)

  /** An element's `nodes` property: absent, or a (possibly empty) list. */
  datatype NodeList = Undeclared | Declared(items: seq<Node>)

  /** The Slate document whose `nodes` are the top-level blocks. */
  datatype Document = Document(nodes: seq<Node>)

  /** Whether some mark of the text run has the given type. */
  predicate HasMark(marks: seq<string>, markType: string)
  {
    markType in marks
  }

  /** Whether the node declares a `nodes` list (possibly an empty one). */
  predicate DeclaresNodes(node: Node)
  {
    node.Element? && node.nodes.Declared?
  }

}
