/** The optional value every parser of the converter returns instead of raising. */
module Options {

  /** None plays the role of Python's None (JSON null). */
  datatype Option<+T> = None | Some(value: T)
}
