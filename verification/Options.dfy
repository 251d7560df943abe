/** The conventional optional value, for C pointers that may be null and values that may be absent. */
module Options {
  datatype Option<+T> = None | Some(value: T)
}
