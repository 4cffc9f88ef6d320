/** The absent-or-present value used for optional request fields and lookups. */
module Optional {
  datatype Option<+T> = None | Some(value: T)
}
