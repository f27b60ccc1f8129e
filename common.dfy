/** Small value wrappers shared by the other modules. */
module Common {

  /** Python's `None`-or-value, as returned by `next(..., None)`. */
  datatype Option<T> = None | Some(value: T)
}
