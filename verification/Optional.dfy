/** A value that may be missing, for results the source signals by a flag or a null pointer. */
module Optional {
  datatype Option<T> = None | Some(value: T)
}
