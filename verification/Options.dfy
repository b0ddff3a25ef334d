/** A value that may be missing: what the C code expresses by NULL. */
module Options {
  datatype Option<T> = None | Some(value: T)
}
