/** Small shared datatypes. */
module Common {

  /** An optional value: a Python `None` or a present value. */
  datatype Option<+T> = None | Some(value: T)
}
