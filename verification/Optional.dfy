/** A value or nothing. */
module Optional {
  datatype Option<+T> = None | Some(value: T)
}
