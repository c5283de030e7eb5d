# Slate to CommonMark AST: forward converter

This project models the forward converter of slate-markdown-transform,
`src/slateToCommonMarkAst.js`. The converter takes a Slate editor document and
turns it into a raw CommonMark AST object tree, rooted at a `Document` object
with `xmlns` "slate". It has three parts:

- the **type switch**, which builds the AST object for each element type;
- the **recursive walk** `_recursive`, which converts children left to right
  and pushes them into their parent's `nodes`. A list item's children go into
  the Paragraph seeded inside its Item;
- **mark composition** `handleText`. A code mark wins over every other mark.
  Otherwise the Text object is wrapped in Strong for bold and then in Emph for
  italic.

Modules, one per component:

- `Slate` (slate.dfy): the editor tree. A text run has its mark types. An
  element has a `nodes` list that may be absent (`Undeclared`) or be a possibly
  empty list (`Declared`), and an `href`.
- `CommonMark` (commonmark.dfy): AST objects. Each one is a `Kind` (its
  `$class` and attributes) plus a `nodes` slot that may be missing.
  `ClassName` gives the `$class` string in the `org.accordproject.commonmark`
  namespace.
- `Errors` (errors.dfy): one error tag per way the conversion aborts, inside a `Result`.
- `MarkComposition` (mark_composition.dfy): `HandleText`. Its partner is
  `RenderedRun`, which reads an inline subtree back as text plus the marks in
  effect.
- `TypeMapping` (type_mapping.dfy): `MapElement`, the switch. Its partner is
  `SourceTypeOf`, the table read backwards.
- `Conversion` (conversion.dfy): `ConvertNode` and `Walk` specify
  `_recursive` as functions. The method `Recursive` is the loop itself and is
  proved equal to `Walk`. `SlateToCommonMarkAst` is the entry point.
- `ConversionProperties` (conversion_properties.dfy): lemmas about the walk.

Some of this code's behaviour differs from what the type switch on its own suggests.
The model follows the code:

- **Every heading fails.** The heading object has `level` and `text` but no
  `nodes` slot, and its text is read from `nodes[0]`.
  - Without a first child, that read throws a TypeError (`UndefinedRead`).
  - With a first child, the node has declared `nodes`, so "doesn't have
    children" is thrown (`NoChildren`).

  So no successful conversion contains a Heading (`NoHeadingInOutput`).
- **An empty `nodes` list still counts as declared** (`if(node.nodes)` is true
  for `[]`). So `quote`, `horizontal_rule`, `code_block`, `html_block` and
  `html_inline` fail whenever `nodes` is present.
- `quote` gives a BlockQuote without a `nodes` slot. `block_quote` gives one
  with a slot.
- The "Parent node doesn't have children" guard cannot fire from the entry
  point (`DocumentConversion`). It can only fire when `_recursive` is called
  directly with a parent that has no slot (`WalkParentWithoutSlot`).

## Model

| member | source | states |
|---|---|---|
| CommonMark.ClassName | src/slateToCommonMarkAst.js:17-29 | every `$class` the converter writes lies in the `org.accordproject.commonmark` namespace |
| MarkComposition.EffectiveMarks | src/slateToCommonMarkAst.js:145-151 | the marks that matter: code alone when present, otherwise exactly the run's bold and italic marks; other mark types never matter |
| MarkComposition.HandleText | src/slateToCommonMarkAst.js:139-188 | `handleText` never fails, and its result renders exactly the run's own text with its effective marks |
| MarkComposition.HandleTextInjective | src/slateToCommonMarkAst.js:139-188 | two runs give the same AST exactly when they have the same text and the same effective marks, in both directions |
| MarkComposition.CodeMarkWins | src/slateToCommonMarkAst.js:145-151 | a code mark yields exactly a Code leaf with the unchanged text, whatever other marks the run has |
| MarkComposition.EmphOutsideStrong | src/slateToCommonMarkAst.js:158-170 | bold and italic without code give Emph holding Strong holding Text: italic is the outer wrapper |
| MarkComposition.SingleMarks | src/slateToCommonMarkAst.js:145-185 | bold alone gives Strong over Text, italic alone gives Emph over Text, and no bold, italic or code mark gives the bare Text |
| TypeMapping.HeadingLevel | src/slateToCommonMarkAst.js:64-81 | exactly the six heading types have a level, and each level is one of the strings "1" to "6" |
| TypeMapping.MapElement | src/slateToCommonMarkAst.js:54-115 | the switch fails with "Failed to process node" exactly on unknown types; it also fails on headings without a first child; what it builds maps back to the node's type, has a `nodes` slot exactly for container types, and that slot is empty except for the Paragraph seeded in a list Item |
| TypeMapping.MapElementInjective | src/slateToCommonMarkAst.js:54-110 | no two element types are mapped to the same object |
| TypeMapping.TableAttributes | src/slateToCommonMarkAst.js:64-108 | headings carry their level and the first child's text; lists carry "ordered" or "bullet" with tight "true"; a link carries its href as destination and an empty title |
| Conversion.InitialResult | src/slateToCommonMarkAst.js:49-115 | a text node always yields the `handleText` object, rendering its text and effective marks; only an element can fail, with "Failed to process node" exactly when its type is unknown; an element's object maps back to its type, and its seeded children all have a `nodes` slot |
| Conversion.ChildTarget | src/slateToCommonMarkAst.js:120 | the object children are attached to (the first child already in `nodes`, else the result) has a `nodes` slot whenever all of the result's existing children do |
| Conversion.Reattach | src/slateToCommonMarkAst.js:117-121 | putting the filled target back keeps the result's kind, its number of children and its other children, and puts the target where ChildTarget finds it; putting back the unchanged target changes nothing |
| Conversion.ConvertNode | src/slateToCommonMarkAst.js:47-125 | converting a node's children never changes its object's class or attributes, and a node that declares `nodes` converts only to an object with a `nodes` slot |
| Conversion.Walk | src/slateToCommonMarkAst.js:43-132 | on success the parent keeps its class and attributes and, when there were nodes, had a slot and now holds exactly one more child per node |
| Conversion.Recursive | src/slateToCommonMarkAst.js:43-132 | the loop over the nodes, including its recursive calls into each result or its first child, computes exactly `Walk` |
| Conversion.SlateToCommonMarkAst | src/slateToCommonMarkAst.js:26-33 | the entry point walks the document's nodes into a fresh Document root |
| ConversionProperties.WalkAppendsInOrder | src/slateToCommonMarkAst.js:45-130 | when every node converts, the parent gets one object per node, in input order, after its existing children; nothing else in the parent changes |
| ConversionProperties.WalkStopsAtFirstError | src/slateToCommonMarkAst.js:45-131 | the walk aborts with the error of the first node that fails |
| ConversionProperties.WalkParentWithoutSlot | src/slateToCommonMarkAst.js:127-129 | a parent without a `nodes` slot fails with the parent error, but only after its first node has been converted, and that node's own error wins |
| ConversionProperties.WalkSucceedsIff | src/slateToCommonMarkAst.js:43-132 | the walk succeeds exactly when every node converts and the parent can receive them |
| ConversionProperties.TextNodeConverts | src/slateToCommonMarkAst.js:49-52 | a text node always converts, to what `handleText` builds |
| ConversionProperties.ListItemWrapsInParagraph | src/slateToCommonMarkAst.js:101-120 | a list item becomes an Item with exactly one child, a Paragraph, and all of the item's converted children land in it, in order |
| ConversionProperties.ContainerReceivesChildren | src/slateToCommonMarkAst.js:117-121 | paragraph, block_quote, ol_list, ul_list and link keep the switch's object and receive their converted children directly, in order |
| ConversionProperties.DeclaredNodesNeedSlot | src/slateToCommonMarkAst.js:118-124 | quote, horizontal_rule, code_block, html_block and html_inline fail with "doesn't have children" whenever `nodes` is declared, even when empty, and convert to their bare object otherwise |
| ConversionProperties.EveryHeadingFails | src/slateToCommonMarkAst.js:64-124 | every heading fails: with the TypeError when there is no first child, otherwise with "doesn't have children" on its Heading object |
| ConversionProperties.FailedOnlyOnUnknownType | src/slateToCommonMarkAst.js:53-115 | a "Failed to process node" error, however deep, always names an element whose type is outside the switch |
| ConversionProperties.WalkFailedOnlyOnUnknownType | src/slateToCommonMarkAst.js:113-114 | the same for a walk over a list of nodes |
| ConversionProperties.NoParentErrorInNode | src/slateToCommonMarkAst.js:117-129 | converting a node's children never raises the parent error, because their target always has a `nodes` slot |
| ConversionProperties.NoParentErrorInWalk | src/slateToCommonMarkAst.js:127-129 | a walk into a parent that has a `nodes` slot never raises the parent error |
| ConversionProperties.NoHeadingInOutput | src/slateToCommonMarkAst.js:64-124 | no successful conversion of a node contains a Heading object |
| ConversionProperties.NoHeadingInWalk | src/slateToCommonMarkAst.js:43-132 | a successful walk into a parent without Headings produces no Heading |
| ConversionProperties.DocumentConversion | src/slateToCommonMarkAst.js:26-33 | the Document root gets the conversions of the top-level nodes, one per node and in order; the conversion fails exactly when one of them fails, with the first such error, and never with the parent error |

## Left out

- Schema validation by `CommonMarkParser.convertToConcertoObject` (lines 19, 34-35) is an external library whose code is not part of this model. The model stops at the raw tree.
- The `JSON.parse(JSON.stringify(node))` copy made for links is modelled as a direct read of the element's `href`. A link with no `data` (where reading `json.data.href` throws a TypeError), or whose `data` has no `href` (destination undefined), is not modelled.
- Errors carry the offending object as a value, not the JSON text of the message.
- Slate's Immutable.js lists and maps are modelled as plain sequences. In particular, `node.nodes[0]` is read as a plain array index. With a real Slate `Value.document`, as `src/Slate.test.js` passes it, `node.nodes` is an Immutable List and `node.nodes[0]` is always undefined, so every heading fails with the TypeError; the `NoChildren` outcome of `EveryHeadingFails` applies only to plain-array input.
- Slate text nodes have no children: a text node carrying `nodes` is not modelled.
- Marks are modelled by their `type` only; mark data is ignored.
- Conversion.Recursive: does not model updating shared objects in place. The JavaScript pushes into objects it has already linked into the tree, such as the Paragraph seeded in an Item. The model rebuilds the parent value instead. The result is the same because every such object is fresh and unshared.
- A heading whose first child is an element gets its `text` as undefined, modelled as `None`. This is never observable, because every heading fails.
- The reverse (AST to Slate) converter and any round trip are outside this model.
- `src/Slate.test.js` reads fixture files, compares Jest snapshots and calls an external serializer. It has no logic of its own to model.
