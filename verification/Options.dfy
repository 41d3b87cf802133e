/** The optional value used wherever the program has `undefined`. */
module Options {
  datatype Option<+T> = None | Some(value: T)
}
