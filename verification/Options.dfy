/** A value that may be missing: a nil pointer, an absent key. */
module Options {
  datatype Option<+T> = None | Some(value: T)
}
