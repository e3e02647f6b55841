/** An optional value: the error returns and null pointers of the program. */
module Options {
  datatype Option<T> = None | Some(value: T)
}
