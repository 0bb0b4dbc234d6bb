/** The optional value of a lookup or a parse that can fail. */
module Options {
  datatype Option<T> = None | Some(value: T)
}
