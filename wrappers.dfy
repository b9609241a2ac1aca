/** Option type used for values JavaScript reports as `undefined`, `null` or `NaN`. */
module Wrappers {

  datatype Option<+T> = None | Some(value: T)
}
