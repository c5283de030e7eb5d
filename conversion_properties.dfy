/** What the walk guarantees: order, the list item wrapping, which nodes fail and how. */
module ConversionProperties {

  import opened CommonMark
  import opened Errors
  import opened Conversion
  import MarkComposition
  import TypeMapping
  import Slate

  /** With a `nodes` slot on the parent and every node converting, the walk
      pushes one object per node, in order, after the parent's existing
      children, and changes nothing else in the parent. */
  lemma {:induction false} WalkAppendsInOrder(parent: AstNode, nodes: seq<Slate.Node>)
    requires parent.nodes.Slot?
    requires forall k | 0 <= k < |nodes| :: ConvertNode(nodes[k]).Ok?
    ensures Walk(parent, nodes).Ok?
    ensures Walk(parent, nodes).value.kind == parent.kind
    ensures Walk(parent, nodes).value.nodes.Slot?
    ensures |Walk(parent, nodes).value.nodes.items| == |parent.nodes.items| + |nodes|
    ensures Walk(parent, nodes).value.nodes.items[..|parent.nodes.items|] == parent.nodes.items
    ensures forall k | 0 <= k < |nodes| ::
              Ok(Walk(parent, nodes).value.nodes.items[|parent.nodes.items| + k]) == ConvertNode(nodes[k])
    decreases nodes
  {
    if nodes != [] {
      var next := Push(parent, ConvertNode(nodes[0]).value);
      assert forall k | 0 <= k < |nodes[1..]| :: nodes[1..][k] == nodes[k + 1];
      WalkAppendsInOrder(next, nodes[1..]);
      var r := Walk(parent, nodes).value;
      assert r == Walk(next, nodes[1..]).value;
      assert r.nodes.items[..|next.nodes.items|] == next.nodes.items;
      assert r.nodes.items[..|parent.nodes.items|] == next.nodes.items[..|parent.nodes.items|];
    }
  }

  /** The walk stops at the first node that fails and reports that node's error. */
  lemma {:induction false} WalkStopsAtFirstError(parent: AstNode, nodes: seq<Slate.Node>, i: nat)
    requires parent.nodes.Slot?
    requires i < |nodes| && ConvertNode(nodes[i]).Err?
    requires forall k | 0 <= k < i :: ConvertNode(nodes[k]).Ok?
    ensures Walk(parent, nodes) == ConvertNode(nodes[i])
    decreases i
  {
    if i > 0 {
      var next := Push(parent, ConvertNode(nodes[0]).value);
      assert forall k | 0 <= k < |nodes[1..]| :: nodes[1..][k] == nodes[k + 1];
      WalkStopsAtFirstError(next, nodes[1..], i - 1);
    }
  }

  /** A parent without a `nodes` slot fails once its first node has been
      converted; an error in that node is reported first. */
  lemma WalkParentWithoutSlot(parent: AstNode, nodes: seq<Slate.Node>)
    requires parent.nodes.NoSlot? && nodes != []
    ensures Walk(parent, nodes) ==
              if ConvertNode(nodes[0]).Err? then ConvertNode(nodes[0]) else Err(ParentWithoutChildren(parent))
  {
  }

  /** The walk succeeds exactly when every node converts and the parent can
      receive them. */
  lemma WalkSucceedsIff(parent: AstNode, nodes: seq<Slate.Node>)
    ensures Walk(parent, nodes).Ok? <==>
              (nodes == [] || parent.nodes.Slot?) && forall k | 0 <= k < |nodes| :: ConvertNode(nodes[k]).Ok?
  {
    if nodes != [] && parent.nodes.Slot? {
      if forall k | 0 <= k < |nodes| :: ConvertNode(nodes[k]).Ok? {
        WalkAppendsInOrder(parent, nodes);
      } else {
        var i := FirstFailure(nodes);
        WalkStopsAtFirstError(parent, nodes, i);
      }
    }
  }

  /** The index of the first node that fails to convert. */
  function FirstFailure(nodes: seq<Slate.Node>): (i: nat)
    requires exists k | 0 <= k < |nodes| :: ConvertNode(nodes[k]).Err?
    ensures i < |nodes| && ConvertNode(nodes[i]).Err?
    ensures forall k | 0 <= k < i :: ConvertNode(nodes[k]).Ok?
  {
    if ConvertNode(nodes[0]).Err? then 0
    else
      assert exists k | 0 <= k < |nodes[1..]| :: ConvertNode(nodes[1..][k]).Err? by {
        var k :| 0 <= k < |nodes| && ConvertNode(nodes[k]).Err?;
        assert nodes[1..][k - 1] == nodes[k];
      }
      1 + FirstFailure(nodes[1..])
  }

  /** A text node always converts, to the object `handleText` builds. */
  lemma TextNodeConverts(node: Slate.Node)
    requires node.Text?
    ensures ConvertNode(node) == Ok(MarkComposition.HandleText(node))
  {
  }

  /** A list item becomes an Item holding exactly one Paragraph, and the item's
      converted children all land, in order, inside that Paragraph. */
  lemma ListItemWrapsInParagraph(node: Slate.Node)
    requires node.Element? && node.elemType == "list_item"
    requires node.nodes.Declared? ==> forall k | 0 <= k < |node.nodes.items| :: ConvertNode(node.nodes.items[k]).Ok?
    ensures ConvertNode(node).Ok?
    ensures ConvertNode(node).value.kind == Item
    ensures ConvertNode(node).value.nodes.Slot? && |ConvertNode(node).value.nodes.items| == 1
    ensures ConvertNode(node).value.nodes.items[0].kind == Paragraph
    ensures ConvertNode(node).value.nodes.items[0].nodes.Slot?
    ensures node.nodes.Undeclared? ==> ConvertNode(node).value.nodes.items[0].nodes.items == []
    ensures node.nodes.Declared? ==>
              |ConvertNode(node).value.nodes.items[0].nodes.items| == |node.nodes.items| &&
              forall k | 0 <= k < |node.nodes.items| ::
                Ok(ConvertNode(node).value.nodes.items[0].nodes.items[k]) == ConvertNode(node.nodes.items[k])
  {
    if node.nodes.Declared? {
      WalkAppendsInOrder(Container(Paragraph, []), node.nodes.items);
    }
  }

  /** For those containers the switch's object starts with an empty slot, and
      the node's conversion is the walk of its children into that object. */
  lemma ContainerConvertsByWalk(node: Slate.Node)
    requires node.Element? && TypeMapping.ContainerType(node.elemType) && node.elemType != "list_item"
    ensures InitialResult(node) == TypeMapping.MapElement(node)
    ensures InitialResult(node).Ok? && InitialResult(node).value.nodes == Slot([])
    ensures node.nodes.Declared? ==> ConvertNode(node) == Walk(InitialResult(node).value, node.nodes.items)
    ensures node.nodes.Undeclared? ==> ConvertNode(node) == InitialResult(node)
  {
  }

  /** Any other element with a `nodes` slot (paragraph, block_quote, ol_list,
      ul_list, link) keeps the object the switch built and receives its
      converted children directly, in order. */
  lemma ContainerReceivesChildren(node: Slate.Node)
    requires node.Element? && TypeMapping.ContainerType(node.elemType) && node.elemType != "list_item"
    requires node.nodes.Declared? ==> forall k | 0 <= k < |node.nodes.items| :: ConvertNode(node.nodes.items[k]).Ok?
    ensures ConvertNode(node).Ok?
    ensures ConvertNode(node).value.kind == TypeMapping.MapElement(node).value.kind
    ensures ConvertNode(node).value.nodes.Slot?
    ensures node.nodes.Undeclared? ==> ConvertNode(node).value.nodes.items == []
    ensures node.nodes.Declared? ==>
              |ConvertNode(node).value.nodes.items| == |node.nodes.items| &&
              forall k | 0 <= k < |node.nodes.items| ::
                Ok(ConvertNode(node).value.nodes.items[k]) == ConvertNode(node.nodes.items[k])
  {
    ContainerConvertsByWalk(node);
    var result := InitialResult(node).value;
    if node.nodes.Declared? {
      var children := node.nodes.items;
      WalkAppendsInOrder(result, children);
      var filled := Walk(result, children).value;
      assert ConvertNode(node) == Ok(filled);
      assert |filled.nodes.items| == |children|;
      assert forall k | 0 <= k < |children| :: Ok(filled.nodes.items[k]) == ConvertNode(children[k]);
    }
  }

  /** An element whose object has no `nodes` slot (quote, horizontal_rule,
      code_block, html_block, html_inline) fails with "doesn't have children"
      whenever it declares `nodes`, even an empty list, and converts to that
      bare object otherwise. */
  lemma DeclaredNodesNeedSlot(node: Slate.Node)
    requires node.Element? && TypeMapping.KnownType(node.elemType)
    requires !TypeMapping.ContainerType(node.elemType) && TypeMapping.HeadingLevel(node.elemType).None?
    ensures node.nodes.Declared? ==> ConvertNode(node) == Err(NoChildren(TypeMapping.MapElement(node).value))
    ensures node.nodes.Undeclared? ==> ConvertNode(node) == TypeMapping.MapElement(node)
    ensures TypeMapping.MapElement(node).Ok? && TypeMapping.MapElement(node).value.nodes.NoSlot?
  {
  }

  /** Every heading fails: without a first child reading its text throws, and
      with one the Heading object has no slot for the declared `nodes`. */
  lemma EveryHeadingFails(node: Slate.Node)
    requires node.Element? && TypeMapping.HeadingLevel(node.elemType).Some?
    ensures ConvertNode(node).Err?
    ensures node.nodes.Undeclared? || node.nodes.items == [] ==> ConvertNode(node) == Err(UndefinedRead(node))
    ensures node.nodes.Declared? && node.nodes.items != [] ==>
              ConvertNode(node) == Err(NoChildren(Leaf(Heading(TypeMapping.HeadingLevel(node.elemType).value,
                                                               TypeMapping.TextOf(node.nodes.items[0])))))
  {
  }

  /** A "Failed to process node" error always names an element whose type is
      outside the switch. */
  lemma {:induction false} FailedOnlyOnUnknownType(node: Slate.Node)
    ensures ConvertNode(node).Err? && ConvertNode(node).error.FailedToProcess? ==>
              ConvertNode(node).error.node.Element? && !TypeMapping.KnownType(ConvertNode(node).error.node.elemType)
    decreases node, 1
  {
    var initial := InitialResult(node);
    if initial.Ok? && Slate.DeclaresNodes(node) && initial.value.nodes.Slot? {
      WalkFailedOnlyOnUnknownType(ChildTarget(initial.value), node.nodes.items);
    }
  }

  /** A walk over a list of nodes fails with "Failed to process node" only on an element of unknown type. */
  lemma {:induction false} WalkFailedOnlyOnUnknownType(parent: AstNode, nodes: seq<Slate.Node>)
    ensures Walk(parent, nodes).Err? && Walk(parent, nodes).error.FailedToProcess? ==>
              Walk(parent, nodes).error.node.Element? && !TypeMapping.KnownType(Walk(parent, nodes).error.node.elemType)
    decreases nodes, 0
  {
    if nodes != [] {
      FailedOnlyOnUnknownType(nodes[0]);
      if ConvertNode(nodes[0]).Ok? && parent.nodes.Slot? {
        WalkFailedOnlyOnUnknownType(Push(parent, ConvertNode(nodes[0]).value), nodes[1..]);
      }
    }
  }

  /** Converting a node never raises "Parent node doesn't have children": the
      object its children go into always has a `nodes` slot. */
  lemma {:induction false} NoParentErrorInNode(node: Slate.Node)
    ensures ConvertNode(node).Err? ==> !ConvertNode(node).error.ParentWithoutChildren?
    decreases node, 1
  {
    var initial := InitialResult(node);
    if initial.Ok? && Slate.DeclaresNodes(node) && initial.value.nodes.Slot? {
      NoParentErrorInWalk(ChildTarget(initial.value), node.nodes.items);
    }
  }

  /** A walk into a parent that has a `nodes` slot never raises the parent error. */
  lemma {:induction false} NoParentErrorInWalk(parent: AstNode, nodes: seq<Slate.Node>)
    requires parent.nodes.Slot?
    ensures Walk(parent, nodes).Err? ==> !Walk(parent, nodes).error.ParentWithoutChildren?
    decreases nodes, 0
  {
    if nodes != [] {
      NoParentErrorInNode(nodes[0]);
      if ConvertNode(nodes[0]).Ok? {
        NoParentErrorInWalk(Push(parent, ConvertNode(nodes[0]).value), nodes[1..]);
      }
    }
  }

  /** Whether a Heading object occurs anywhere in an AST tree. */
  predicate HasHeading(r: AstNode)
  {
    r.kind.Heading? || (r.nodes.Slot? && exists k | 0 <= k < |r.nodes.items| :: HasHeading(r.nodes.items[k]))
  }

  /** Since every heading fails, no successful conversion contains a Heading. */
  lemma {:induction false} NoHeadingInOutput(node: Slate.Node)
    requires ConvertNode(node).Ok?
    ensures !HasHeading(ConvertNode(node).value)
    decreases node, 1
  {
    if node.Text? {
      var text := Leaf(Text(node.text));
      var strong := Container(Strong, [text]);
      assert !HasHeading(text);
      assert !HasHeading(strong);
      assert !HasHeading(Container(Emph, [strong]));
      assert !HasHeading(Container(Emph, [text]));
    } else if TypeMapping.HeadingLevel(node.elemType).Some? {
      EveryHeadingFails(node);
    } else {
      var result := InitialResult(node).value;
      assert !result.kind.Heading?;
      var seeded := Container(Paragraph, []);
      assert !HasHeading(seeded);
      assert result.nodes.Slot? ==> result.nodes.items == [] || result.nodes.items == [seeded];
      assert !HasHeading(result);
      if Slate.DeclaresNodes(node) {
        NoHeadingInWalk(ChildTarget(result), node.nodes.items);
        var target := Walk(ChildTarget(result), node.nodes.items).value;
        if result.nodes.items != [] {
          assert Reattach(result, target).nodes.items == [target];
        }
      }
    }
  }

  /** A successful walk into a parent without Headings produces no Heading. */
  lemma {:induction false} NoHeadingInWalk(parent: AstNode, nodes: seq<Slate.Node>)
    requires Walk(parent, nodes).Ok? && !HasHeading(parent)
    ensures !HasHeading(Walk(parent, nodes).value)
    decreases nodes, 0
  {
    if nodes != [] {
      var child := ConvertNode(nodes[0]).value;
      NoHeadingInOutput(nodes[0]);
      var next := Push(parent, child);
      assert forall k | 0 <= k < |next.nodes.items| ::
               (k < |parent.nodes.items| && next.nodes.items[k] == parent.nodes.items[k]) || next.nodes.items[k] == child;
      NoHeadingInWalk(next, nodes[1..]);
    }
  }

  /** The Document root receives the conversions of the document's top-level
      nodes, one per node and in order; the conversion fails exactly when one
      of them fails, with the first such error, and never with the parent error. */
  lemma DocumentConversion(document: Slate.Document)
    ensures Walk(DocumentRoot(), document.nodes).Ok? <==>
              forall k | 0 <= k < |document.nodes| :: ConvertNode(document.nodes[k]).Ok?
    ensures Walk(DocumentRoot(), document.nodes).Ok? ==>
              var r := Walk(DocumentRoot(), document.nodes).value;
              r.kind == Document("slate") && r.nodes.Slot? && |r.nodes.items| == |document.nodes| &&
              forall k | 0 <= k < |document.nodes| :: Ok(r.nodes.items[k]) == ConvertNode(document.nodes[k])
    ensures Walk(DocumentRoot(), document.nodes).Err? ==>
              !Walk(DocumentRoot(), document.nodes).error.ParentWithoutChildren?
    ensures Walk(DocumentRoot(), document.nodes).Err? ==>
              (exists k | 0 <= k < |document.nodes| :: ConvertNode(document.nodes[k]).Err?) &&
              Walk(DocumentRoot(), document.nodes) == ConvertNode(document.nodes[FirstFailure(document.nodes)])
  {
    WalkSucceedsIff(DocumentRoot(), document.nodes);
    NoParentErrorInWalk(DocumentRoot(), document.nodes);
    if Walk(DocumentRoot(), document.nodes).Ok? {
      WalkAppendsInOrder(DocumentRoot(), document.nodes);
    } else {
      WalkStopsAtFirstError(DocumentRoot(), document.nodes, FirstFailure(document.nodes));
    }
  }

}
