/** `handleText`: how the marks of a Slate text run become nested inline AST objects. */
module MarkComposition {

  import opened Optional
  import opened CommonMark
  import Slate

  /** A text run as an inline AST subtree renders it: its characters and the
      set of marks in effect. */
  datatype Run = Run(text: string, marks: set<string>)

  /** The marks that survive conversion: code alone when present, otherwise
      whichever of bold and italic the run has. */
  function EffectiveMarks(marks: seq<string>): (m: set<string>)
    ensures m <= {"bold", "italic", "code"}
    ensures "code" in m <==> Slate.HasMark(marks, "code")
    ensures "code" in m ==> m == {"code"}
    ensures "code" !in m ==> ("bold" in m <==> Slate.HasMark(marks, "bold")) && ("italic" in m <==> Slate.HasMark(marks, "italic"))
  {
    if "code" in marks then {"code"}
    else (if "bold" in marks then {"bold"} else {}) + (if "italic" in marks then {"italic"} else {})
  }

  /** Reads an inline subtree back as a run: a Text or Code leaf is the run
      itself, and a Strong or Emph wrapper with exactly one child adds bold or
      italic to the run of that child. Any other shape reads as None. */
  function RenderedRun(r: AstNode): (run: Option<Run>)
    ensures run.Some? ==> run.value.marks <= {"bold", "italic", "code"}
    decreases r, 1
  {
    match r.kind
    case Text(t) => if r.nodes.NoSlot? then Some(Run(t, {})) else None
    case Code(t) => if r.nodes.NoSlot? then Some(Run(t, {"code"})) else None
    case Strong => Wrapped(r, "bold")
    case Emph => Wrapped(r, "italic")
    case _ => None
  }

  /** The run of the single child of a wrapper, with `mark` added; None when
      the wrapper does not hold exactly one child, or the child already has
      that mark or is code. */
  function Wrapped(r: AstNode, mark: string): (run: Option<Run>)
    requires mark == "bold" || mark == "italic"
    ensures run.Some? ==> run.value.marks <= {"bold", "italic", "code"} && mark in run.value.marks
    decreases r, 0
  {
    if r.nodes.Slot? && |r.nodes.items| == 1 then
      var inner := RenderedRun(r.nodes.items[0]);
      if inner.Some? && mark !in inner.value.marks && "code" !in inner.value.marks then
        Some(Run(inner.value.text, inner.value.marks + {mark}))
      else
        None
    else
      None
  }

  /** The AST object built for a text run. A code mark wins over every other
      mark; otherwise the Text object is wrapped in Strong when the run is bold
      and then in Emph when it is italic. Marks of any other type are ignored.
      Whatever its marks, the result renders exactly the run's own text with
      its effective marks. */
  function HandleText(node: Slate.Node): (r: AstNode)
    requires node.Text?
    ensures RenderedRun(r) == Some(Run(node.text, EffectiveMarks(node.marks)))
  {
    var isBold := Slate.HasMark(node.marks, "bold");
    var isItalic := Slate.HasMark(node.marks, "italic");
    var isCode := Slate.HasMark(node.marks, "code");
    if isCode then
      Leaf(Code(node.text))
    else
      var text := Leaf(Text(node.text));
      assert RenderedRun(text) == Some(Run(node.text, {}));
      assert {} + {"bold"} == {"bold"} && {} + {"italic"} == {"italic"};
      if isBold && isItalic then
        var strong := Container(Strong, [text]);
        assert "italic" !in {"bold"} && "code" !in {"bold"};
        assert Wrapped(strong, "bold") == Some(Run(node.text, {"bold"}));
        assert Wrapped(Container(Emph, [strong]), "italic") == Some(Run(node.text, {"bold"} + {"italic"}));
        Container(Emph, [strong])
      else if isBold then
        assert Wrapped(Container(Strong, [text]), "bold") == Some(Run(node.text, {"bold"}));
        assert EffectiveMarks(node.marks) == {"bold"};
        Container(Strong, [text])
      else if isItalic then
        assert Wrapped(Container(Emph, [text]), "italic") == Some(Run(node.text, {"italic"}));
        assert EffectiveMarks(node.marks) == {"italic"};
        Container(Emph, [text])
      else
        assert EffectiveMarks(node.marks) == {};
        text
  }

  /** Two text runs convert to the same AST exactly when they have the same
      text and the same effective marks. */
  lemma HandleTextInjective(a: Slate.Node, b: Slate.Node)
    requires a.Text? && b.Text?
    ensures HandleText(a) == HandleText(b) <==> a.text == b.text && EffectiveMarks(a.marks) == EffectiveMarks(b.marks)
  {
  }

  /** A code mark yields exactly a Code leaf with the unchanged text,
      whatever other marks the run has. */
  lemma CodeMarkWins(node: Slate.Node)
    requires node.Text? && Slate.HasMark(node.marks, "code")
    ensures HandleText(node) == Leaf(Code(node.text))
  {
  }

  /** Bold and italic together (without code) nest Strong inside Emph. */
  lemma EmphOutsideStrong(node: Slate.Node)
    requires node.Text? && !Slate.HasMark(node.marks, "code")
    requires Slate.HasMark(node.marks, "bold") && Slate.HasMark(node.marks, "italic")
    ensures HandleText(node) == Container(Emph, [Container(Strong, [Leaf(Text(node.text))])])
  {
  }

  /** A single mark wraps the Text leaf once; no bold, italic or code mark
      leaves it bare, whatever other marks the run carries. */
  lemma SingleMarks(node: Slate.Node)
    requires node.Text? && !Slate.HasMark(node.marks, "code")
    ensures Slate.HasMark(node.marks, "bold") && !Slate.HasMark(node.marks, "italic") ==>
              HandleText(node) == Container(Strong, [Leaf(Text(node.text))])
    ensures !Slate.HasMark(node.marks, "bold") && Slate.HasMark(node.marks, "italic") ==>
              HandleText(node) == Container(Emph, [Leaf(Text(node.text))])
    ensures !Slate.HasMark(node.marks, "bold") && !Slate.HasMark(node.marks, "italic") ==>
              HandleText(node) == Leaf(Text(node.text))
  {
  }

}
