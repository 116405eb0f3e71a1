/** The absence value the two employee components return for "no such record". */
module Optional {

  /** Python's `None` or a present value. */
  datatype Option<+T> = None | Some(value: T)
}
