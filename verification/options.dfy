/** Values that may be missing. */
module Options {

  /** A value that may be missing: `None`, or `Some` carrying the value. */
  datatype Option<T> = None | Some(value: T)
}
