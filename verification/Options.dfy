/** Values that may be absent: a nullable column, an optional claim, a refused parse. */
module Options {
  datatype Option<+T> = None | Some(value: T)
}
