/** The switch on an element's `type` that picks the AST object built for it. */
module TypeMapping {

  import opened Optional
  import opened CommonMark
  import opened Errors
  import Slate

  /** The element types the switch handles. */
  predicate KnownType(t: string)
  {
    t in {"paragraph", "quote", "horizontal_rule",
          "heading_one", "heading_two", "heading_three", "heading_four", "heading_five", "heading_six",
          "block_quote", "code_block", "html_block", "html_inline",
          "ol_list", "ul_list", "list_item", "link"}
  }

  /** The element types whose AST object gets a `nodes` slot. */
  predicate ContainerType(t: string)
  {
    t in {"paragraph", "block_quote", "ol_list", "ul_list", "list_item", "link"}
  }

  /** The `level` string of a heading type; None for any other type. */
  function HeadingLevel(t: string): (level: Option<string>)
    ensures level.Some? <==> t in {"heading_one", "heading_two", "heading_three", "heading_four", "heading_five", "heading_six"}
    ensures level.Some? ==> level.value in {"1", "2", "3", "4", "5", "6"}
  {
    if t == "heading_one" then Some("1")
    else if t == "heading_two" then Some("2")
    else if t == "heading_three" then Some("3")
    else if t == "heading_four" then Some("4")
    else if t == "heading_five" then Some("5")
    else if t == "heading_six" then Some("6")
    else None
  }

  /** `child.text`: a text node's text, undefined (None) on an element. */
  function TextOf(child: Slate.Node): Option<string>
  {
    if child.Text? then Some(child.text) else None
  }

  /** The object the switch builds for an element, before its children are
      processed. An unknown type is the "Failed to process node" error; a
      heading reads `nodes[0].text`, which throws when there is no first child. */
  function MapElement(node: Slate.Node): (r: Result<AstNode>)
    requires node.Element?
    ensures r == Err(FailedToProcess(node)) <==> !KnownType(node.elemType)
    ensures r.Err? <==> !KnownType(node.elemType) || (HeadingLevel(node.elemType).Some? && (node.nodes.Undeclared? || node.nodes.items == []))
    ensures r.Ok? ==> SourceTypeOf(r.value) == Some(node.elemType)
    ensures r.Ok? ==> (r.value.nodes.Slot? <==> ContainerType(node.elemType))
    ensures r.Ok? && r.value.nodes.Slot? ==>
              r.value.nodes.items == if node.elemType == "list_item" then [Container(Paragraph, [])] else []
  {
    var t := node.elemType;
    if t == "paragraph" then Ok(Container(Paragraph, []))
    else if t == "quote" then Ok(Leaf(BlockQuote))
    else if t == "horizontal_rule" then Ok(Leaf(ThematicBreak))
    else if HeadingLevel(t).Some? then
      if node.nodes.Undeclared? || node.nodes.items == [] then Err(UndefinedRead(node))
      else Ok(Leaf(Heading(HeadingLevel(t).value, TextOf(node.nodes.items[0]))))
    else if t == "block_quote" then Ok(Container(BlockQuote, []))
    else if t == "code_block" then Ok(Leaf(CodeBlock))
    else if t == "html_block" then Ok(Leaf(HtmlBlock))
    else if t == "html_inline" then Ok(Leaf(HtmlInline))
    else if t == "ol_list" then Ok(Container(List("ordered", "true"), []))
    else if t == "ul_list" then Ok(Container(List("bullet", "true"), []))
    else if t == "list_item" then Ok(Container(Item, [Container(Paragraph, [])]))
    else if t == "link" then Ok(Container(Link(node.href, ""), []))
    else Err(FailedToProcess(node))
  }

  /** The table read backwards: the element type an AST object built by the
      switch came from. Quote and block_quote both give BlockQuote and are told
      apart by the `nodes` slot. */
  function SourceTypeOf(r: AstNode): Option<string>
  {
    match r.kind
    case Paragraph => Some("paragraph")
    case BlockQuote => if r.nodes.Slot? then Some("block_quote") else Some("quote")
    case ThematicBreak => Some("horizontal_rule")
    case Heading(level, _) =>
      if level == "1" then Some("heading_one")
      else if level == "2" then Some("heading_two")
      else if level == "3" then Some("heading_three")
      else if level == "4" then Some("heading_four")
      else if level == "5" then Some("heading_five")
      else if level == "6" then Some("heading_six")
      else None
    case CodeBlock => Some("code_block")
    case HtmlBlock => Some("html_block")
    case HtmlInline => Some("html_inline")
    case List(listType, _) =>
      if listType == "ordered" then Some("ol_list")
      else if listType == "bullet" then Some("ul_list")
      else None
    case Item => Some("list_item")
    case Link(_, _) => Some("link")
    case _ => None
  }

  /** No two element types are mapped to the same object. */
  lemma MapElementInjective(a: Slate.Node, b: Slate.Node)
    requires a.Element? && b.Element?
    requires MapElement(a).Ok? && MapElement(a) == MapElement(b)
    ensures a.elemType == b.elemType
  {
  }

  /** The attributes the switch sets: heading levels "1" to "6" with the text
      of the first child, list type "ordered" or "bullet" with tight "true",
      and a link's destination taken from its href with an empty title. */
  lemma TableAttributes(node: Slate.Node)
    requires node.Element? && MapElement(node).Ok?
    ensures HeadingLevel(node.elemType).Some? ==>
              MapElement(node).value.kind == Heading(HeadingLevel(node.elemType).value, TextOf(node.nodes.items[0]))
    ensures node.elemType == "ol_list" ==> MapElement(node).value.kind == List("ordered", "true")
    ensures node.elemType == "ul_list" ==> MapElement(node).value.kind == List("bullet", "true")
    ensures node.elemType == "link" ==> MapElement(node).value.kind == Link(node.href, "")
  {
  }

}
