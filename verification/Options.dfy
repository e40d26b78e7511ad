/** A value that may be missing, for Python's None. */
module Options {
  datatype Option<+T> = None | Some(value: T)
}
