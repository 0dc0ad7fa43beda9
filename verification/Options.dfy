/** The usual optional value: C's "pointer or NULL" for values. */
module Options {
  datatype Option<+T> = None | Some(value: T)
}
