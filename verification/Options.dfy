/** A value, or none where the source throws or finds nothing. */
module Options {
  datatype Option<T> = None | Some(value: T)
}
