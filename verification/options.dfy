/** An optional value: the result of a lookup or a parse that may find nothing. */
module Options {
  datatype Option<T> = None | Some(value: T)
}
