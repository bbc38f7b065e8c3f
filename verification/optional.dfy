/** The optional-value type used for "no result" outcomes throughout the model. */
module Optional {
  datatype Option<+T> = None | Some(value: T)
}
