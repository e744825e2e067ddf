/** The optional value used wherever the source returns `null`, `undefined` or leaves a key out. */
module Options {

  datatype Option<+T> = None | Some(value: T)
}
