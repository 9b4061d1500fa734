/** Small failure-carrying datatypes shared by the other modules. */
module Wrappers {

  datatype Option<+T> = None | Some(value: T)

  /** The outcome of an operation that returns nothing on success and an error otherwise
      (Go's `error`, where `nil` means success). */
  datatype Outcome<+E> = Pass | Fail(error: E)
}
