/** A nullable reference or an absent result. */
module Options {
  datatype Option<T> = None | Some(value: T)
}
