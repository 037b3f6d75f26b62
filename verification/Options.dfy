/** A value that may be missing: a nil or NULL pointer, or a result that was not found. */
module Options {
  datatype Option<+T> = None | Some(value: T)
}
