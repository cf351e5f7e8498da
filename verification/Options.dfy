/** An optional value, in place of a null pointer or a failed lookup. */
module Options {
  datatype Option<+T> = None | Some(value: T)
}
