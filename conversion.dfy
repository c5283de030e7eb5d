/** The recursive walk `_recursive` and the entry point `slateToCommonMarkAst`. */
module Conversion {

  import opened Optional
  import opened CommonMark
  import opened Errors
  import MarkComposition
  import TypeMapping
  import Slate

  /** The object built for a node before its children are processed: a text
      node goes to `handleText` and never fails, any other node goes through
      the type switch, whose object maps back to the element's type and whose
      seeded children can all receive children in turn. */
  function InitialResult(node: Slate.Node): (r: Result<AstNode>)
    ensures node.Text? ==>
              r.Ok? && MarkComposition.RenderedRun(r.value) == Some(MarkComposition.Run(node.text, MarkComposition.EffectiveMarks(node.marks)))
    ensures r.Err? ==> node.Element? && (r.error == FailedToProcess(node) <==> !TypeMapping.KnownType(node.elemType))
    ensures r.Ok? && node.Element? ==> TypeMapping.SourceTypeOf(r.value) == Some(node.elemType)
    ensures r.Ok? && node.Element? && r.value.nodes.Slot? ==>
              forall k | 0 <= k < |r.value.nodes.items| :: r.value.nodes.items[k].nodes.Slot?
  {
    if node.Text? then Ok(MarkComposition.HandleText(node)) else TypeMapping.MapElement(node)
  }

  /** Where a node's children go: into the first object already in the
      result's `nodes` (the Paragraph seeded in a list Item), else into the
      result itself. */
  function ChildTarget(result: AstNode): (target: AstNode)
    requires result.nodes.Slot?
    ensures (forall k | 0 <= k < |result.nodes.items| :: result.nodes.items[k].nodes.Slot?) ==> target.nodes.Slot?
  {
    if result.nodes.items != [] then result.nodes.items[0] else result
  }

  /** The result with its children's target replaced by `target`: when the
      target is a seeded first child, the result keeps its kind, its number of
      children and its other children, and the new target is what ChildTarget
      finds; putting back the unchanged target gives the result back. */
  function Reattach(result: AstNode, target: AstNode): (r: AstNode)
    requires result.nodes.Slot?
    ensures result.nodes.items != [] ==>
              r.kind == result.kind && r.nodes.Slot? && |r.nodes.items| == |result.nodes.items| &&
              ChildTarget(r) == target && r.nodes.items[1..] == result.nodes.items[1..]
    ensures target == ChildTarget(result) ==> r == result
  {
    if result.nodes.items != [] then result.(nodes := Slot([target] + result.nodes.items[1..])) else target
  }

  /** One pass of the loop body of `_recursive` without the final push: the
      node's object, with its declared children converted into it. Converting
      the children never changes the object's own class and attributes, and a
      node that declares `nodes` converts only to an object with a slot. */
  function ConvertNode(node: Slate.Node): (r: Result<AstNode>)
    ensures r.Ok? ==> InitialResult(node).Ok? && r.value.kind == InitialResult(node).value.kind
    ensures r.Ok? && Slate.DeclaresNodes(node) ==> r.value.nodes.Slot?
    decreases node, 1
  {
    var result :- InitialResult(node);
    if Slate.DeclaresNodes(node) then
      if result.nodes.NoSlot? then Err(NoChildren(result))
      else
        var target :- Walk(ChildTarget(result), node.nodes.items);
        Ok(Reattach(result, target))
    else
      Ok(result)
  }

  /** `_recursive(parent, nodes)`: the nodes converted left to right, each
      pushed into the parent's `nodes`; the first error aborts the walk. The
      parent is checked for a `nodes` slot after each child is converted. On
      success the parent keeps its class and attributes and, when there were
      nodes, has a slot holding one more child per node. */
  function Walk(parent: AstNode, nodes: seq<Slate.Node>): (r: Result<AstNode>)
    ensures r.Ok? ==> r.value.kind == parent.kind
    ensures r.Ok? && nodes != [] ==>
              parent.nodes.Slot? && r.value.nodes.Slot? && |r.value.nodes.items| == |parent.nodes.items| + |nodes|
    decreases nodes, 0
  {
    if nodes == [] then Ok(parent)
    else
      var result :- ConvertNode(nodes[0]);
      if parent.nodes.NoSlot? then Err(ParentWithoutChildren(parent))
      else Walk(Push(parent, result), nodes[1..])
  }

  /** The fresh Document root. */
  function DocumentRoot(): AstNode
  {
    Container(Document("slate"), [])
  }

  /** `_recursive`: loops over the nodes, building each node's object, converting
      its children into it by a recursive call, and pushing it into the parent. */
  method Recursive(parent: AstNode, nodes: seq<Slate.Node>) returns (r: Result<AstNode>)
    ensures r == Walk(parent, nodes)
    decreases nodes
  {
    var acc := parent;
    var i := 0;
    while i < |nodes|
      invariant 0 <= i <= |nodes|
      invariant Walk(acc, nodes[i..]) == Walk(parent, nodes)
    {
      var node := nodes[i];
      assert nodes[i..][0] == node && nodes[i..][1..] == nodes[i + 1..];
      var initial := InitialResult(node);
      if initial.Err? {
        return Err(initial.error);
      }
      var result := initial.value;
      if Slate.DeclaresNodes(node) {
        if result.nodes.NoSlot? {
          return Err(NoChildren(result));
        }
        var sub := Recursive(ChildTarget(result), node.nodes.items);
        if sub.Err? {
          return sub;
        }
        result := Reattach(result, sub.value);
      }
      if acc.nodes.NoSlot? {
        return Err(ParentWithoutChildren(acc));
      }
      acc := Push(acc, result);
      i := i + 1;
    }
    return Ok(acc);
  }

  /** `slateToCommonMarkAst` up to the schema validation: a Document root whose
      `nodes` receive the document's top-level nodes. */
  method SlateToCommonMarkAst(document: Slate.Document) returns (r: Result<AstNode>)
    ensures r == Walk(DocumentRoot(), document.nodes)
  {
    var result := Container(Document("slate"), []);
    r := Recursive(result, document.nodes);
  }

}
