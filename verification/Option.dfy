/** The absence of a value. */
module Option {
  datatype Option<+T> = None | Some(value: T)
}
