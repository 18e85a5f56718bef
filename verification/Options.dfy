/** A value that may be absent: JavaScript's `undefined`. */
module Options {
  datatype Option<+T> = None | Some(value: T)
}
