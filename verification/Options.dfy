/** An optional value, shared by every component. */
module Options {
  datatype Option<+T> = None | Some(value: T)
}
