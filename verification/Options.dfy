/** A value that may be missing, such as a null pointer or a search that finds nothing. */
module Options {
  datatype Option<T> = None | Some(value: T)
}
