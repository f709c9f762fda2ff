/** A value that may be absent: a null pointer of the sources. */
module Options {
  datatype Option<T> = None | Some(value: T)
}
