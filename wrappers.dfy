/** The optional value used throughout the model for PHP `null` and JavaScript `null`. */
module Wrappers {

  datatype Option<+T> = None | Some(value: T)
}
