/** The optional value used for Python's `None`-or-value fields. */
module Options {

  datatype Option<T> = None | Some(value: T)
}
