/** A value or nothing, for results that C signals with a null pointer or an error code. */
module Options {
  datatype Option<+T> = None | Some(value: T)
}
