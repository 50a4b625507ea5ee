/** The two exceptions `simpson_integral` can raise, and a result that is either a value or
    one of them. */
module Outcome {

  /** `ZeroDivisionError`: the step `(x2-x1)/(len-1)` with a single sample.
      `NotImplementedError`: an unknown mode, or no samples for a Simpson rule. */
  datatype Failure = ZeroDivisionError | NotImplementedError

  /** A coefficient table, or the exception raised while building it. */
  datatype Result<T> = Ok(value: T) | Err(failure: Failure)

  /** A real number returned, or the exception raised instead. */
  datatype RealResult = Value(value: real) | Raised(failure: Failure)
}
