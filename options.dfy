/** The optional value used for DOM lookups that may find nothing. */
module Options {
  datatype Option<+T> = None | Some(value: T)
}
