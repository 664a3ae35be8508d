/** The usual Some/None wrapper, for DOM lookups that may find nothing. */
module Optional {

  datatype Option<+T> = None | Some(value: T)
}
