/** Failure-carrying result types shared by the whole model. */
module Wrappers {

  /** Python's `Optional[T]`: `None` or a value. */
  datatype Option<+T> = None | Some(value: T)

  /** The outcome of a call that either returns a value or raises `ValueError(message)`. */
  datatype Outcome<+T> = Returned(value: T) | Raised(message: string)
}
