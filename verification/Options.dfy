/** A value that may be missing: C's null pointer or a failed lookup. */
module Options {
  datatype Option<+T> = None | Some(value: T)
}
