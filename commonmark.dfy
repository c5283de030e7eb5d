/** The raw CommonMark AST object tree the converter builds, before schema validation. */
module CommonMark {

  import opened Optional

  /** The namespace every `$class` name lives in. */
  const NS := "org.accordproject.commonmark"

  /** The `$class` of an AST object together with the attributes that class
      carries; ClassName gives the class string. */
  datatype Kind =
    | Document(xmlns: string)
    | Paragraph
    | BlockQuote
    | ThematicBreak
    | Heading(level: string, headingText: Option<string>)
    | CodeBlock
    | HtmlBlock
    | HtmlInline
    | List(listType: string, tight: string)
    | Item
    | Link(destination: string, title: string)
    | Text(text: string)
    | Code(text: string)
    | Strong
    | Emph

  /** An AST object: its class and attributes, and its `nodes` slot, which
      only some objects have. */
  datatype AstNode = AstNode(kind: Kind, nodes: Slot)

  /** The `nodes` slot of an AST object: missing, or a list of children. */
  datatype Slot = NoSlot | Slot(items: seq<AstNode>)

  /** The `$class` string of an object of this kind. */
  function ClassName(kind: Kind): (name: string)
    ensures NS + "." <= name
  {
    NS + "." +
    match kind
    case Document(_) => "Document"
    case Paragraph => "Paragraph"
    case BlockQuote => "BlockQuote"
    case ThematicBreak => "ThematicBreak"
    case Heading(_, _) => "Heading"
    case CodeBlock => "CodeBlock"
    case HtmlBlock => "HtmlBlock"
    case HtmlInline => "HtmlInline"
    case List(_, _) => "List"
    case Item => "Item"
    case Link(_, _) => "Link"
    case Text(_) => "Text"
    case Code(_) => "Code"
    case Strong => "Strong"
    case Emph => "Emph"
  }

  /** An object without a `nodes` slot. */
  function Leaf(kind: Kind): AstNode
  {
    AstNode(kind, NoSlot)
  }

  /** An object whose `nodes` slot holds the given children. */
  function Container(kind: Kind, children: seq<AstNode>): AstNode
  {
    AstNode(kind, Slot(children))
  }

  /** `parent.nodes.push(child)`. */
  function Push(parent: AstNode, child: AstNode): AstNode
    requires parent.nodes.Slot?
  {
    parent.(nodes := Slot(parent.nodes.items + [child]))
  }

}
