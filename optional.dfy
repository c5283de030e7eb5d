/** An optional value: the model's stand-in for a JavaScript property that may be absent. */
module Optional {

  datatype Option<+T> = None | Some(value: T)

}
