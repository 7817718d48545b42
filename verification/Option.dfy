/** The conventional optional value. */
module Option {
  datatype Option<+T> = None | Some(value: T)
}
