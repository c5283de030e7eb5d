/** The ways a conversion is aborted, and the result type that carries them. */
module Errors {

  import Slate
  import CommonMark

  /** One tag per way the conversion aborts, with the object its message
      shows. Three are the converter's own `throw`s; UndefinedRead is the
      TypeError JavaScript raises when a heading's `nodes[0].text` is read and
      there is no first child. */
  datatype ConvertError =
    | FailedToProcess(node: Slate.Node)
    | UndefinedRead(node: Slate.Node)
    | NoChildren(result: CommonMark.AstNode)
    | ParentWithoutChildren(parent: CommonMark.AstNode)

  datatype Result<+T> = Ok(value: T) | Err(error: ConvertError) {

    predicate IsFailure() {
      Err?
    }

    function PropagateFailure<U>(): Result<U>
      requires Err?
    {
      Err(error)
    }

    function Extract(): T
      requires Ok?
    {
      value
    }
  }

}
