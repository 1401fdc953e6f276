/** An optional value: a nullable column, a lookup that may miss. */
module Optional {
  datatype Option<+T> = None | Some(value: T)
}
