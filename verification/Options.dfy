/** A value that may be absent: SQL NULL, a query without rows, an error return. */
module Options {
  datatype Option<+T> = None | Some(value: T)
}
