/** A value that may be missing: a nil pointer, a zero time, a Python `None`. */
module Options {
  datatype Option<+T> = None | Some(value: T)
}
