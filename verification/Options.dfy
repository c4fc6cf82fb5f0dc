/** A value or none, for what may fail to decrypt. */
module Options {
  datatype Option<T> = None | Some(value: T)
}
