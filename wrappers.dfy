/** The optional-value datatype used where the Go code distinguishes a nil
    slice or a nil pointer from a present value. */
module Wrappers {

  datatype Option<+T> = None | Some(value: T)
}
