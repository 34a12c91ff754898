/** The optional value shared by the other modules: C's null results. */
module Options {
  datatype Option<+T> = None | Some(value: T)
}
