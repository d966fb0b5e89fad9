/** The optional value used for "not found" and "rejected" results. */
module Options {
  datatype Option<+T> = None | Some(value: T)
}
