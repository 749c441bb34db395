/** The optional value used wherever the JavaScript code has `null`,
    `undefined` or `NaN` for "no value". */
module Wrappers {

  datatype Option<+T> = None | Some(value: T)
}
