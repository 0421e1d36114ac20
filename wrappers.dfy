/** The optional value used wherever the JavaScript code tests a result against `null`. */
module Wrappers {

  datatype Option<+T> = None | Some(value: T)
}
