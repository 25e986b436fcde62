/** The optional-value type used wherever the system returns Python's `None`. */
module Options {

  datatype Option<+T> = None | Some(value: T)

}
