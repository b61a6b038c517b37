/** The optional-value type used for the failure paths of the model. */
module Wrappers {

  datatype Option<+T> = None | Some(value: T)
}
