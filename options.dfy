/** An optional value, for NULL pointers and for searches that may find nothing. */
module Options {
  datatype Option<T> = None | Some(value: T)
}
