/** The optional value used throughout: Go's `value, ok` pairs and SQL's nullable columns. */
module Options {
  datatype Option<+T> = None | Some(value: T)
}
