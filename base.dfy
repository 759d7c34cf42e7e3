/** Small shared datatypes. */
module Base {

  /** A value that may be absent: Python's `Optional[...]`, with `None` for absent. */
  datatype Option<T> = None | Some(value: T)
}
