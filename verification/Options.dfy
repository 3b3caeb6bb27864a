/** A value that may be missing: Python's `None`, a null pointer, a failed read. */
module Options {
  datatype Option<+T> = None | Some(value: T)
}
