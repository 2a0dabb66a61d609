/** The result of an operation that may yield nothing. */
module Options {

  datatype Option<+T> = None | Some(value: T)
}
