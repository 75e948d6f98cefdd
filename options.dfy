/** An optional value, used for Go's nil-able error returns. */
module Options {
  datatype Option<+T> = None | Some(value: T)
}
