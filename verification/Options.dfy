module Options {
  /** A nullable column or a lookup that may find nothing. */
  datatype Option<+T> = None | Some(value: T)
}
