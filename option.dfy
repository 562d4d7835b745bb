/** An optional value: a parsed attribute input, or the last level driven on a line. */
module Maybe {
  datatype Option<T> = None | Some(value: T)
}
