/** The optional-value type used for Go's nil-able results (a nil error, a missing file). */
module Wrappers {

  datatype Option<+T> = None | Some(value: T)
}
