/** The value-or-nothing type used where the Go code has a nil row or function. */
module Options {
  datatype Option<+T> = None | Some(value: T)
}
