/** A value that may be absent: a NULL pointer, or a result the source never computes. */
module Options {
  datatype Option<T> = None | Some(value: T)
}
