/** Failure-carrying value types shared by the other modules. */
module Wrappers {

  /** An optional value: `None` stands for Python's `None` result. */
  datatype Option<+T> = None | Some(value: T)

  /** The outcome of a run: a value, or the reason the run stopped early. */
  datatype Result<+R, +E> = Success(value: R) | Failure(error: E)
}
