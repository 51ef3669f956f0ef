/** The optional value used wherever the JavaScript code can produce `NaN` or `undefined`. */
module Wrappers {

  datatype Option<+T> = None | Some(value: T)
}
