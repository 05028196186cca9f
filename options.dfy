/** An optional value, for Python's `None` and for a file that may be absent. */
module Options {
  datatype Option<+T> = None | Some(value: T)
}
