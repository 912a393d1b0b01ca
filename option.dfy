/** The optional value used for "no item found" and "no update". */
module Options {
  datatype Option<T> = None | Some(value: T)
}
