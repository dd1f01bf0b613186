/** A value that may be missing: NULL in C, None in Python. */
module Options {
  datatype Option<+T> = None | Some(value: T)
}
