/** A value that may be absent: a C pointer that may be NULL, or a lookup that may fail. */
module Options {
  datatype Option<+T> = None | Some(value: T)
}
