/** The Option and Result datatypes used by the model. */
module Outcomes {

  /** An optional value; `None` plays the part of the "no candidate seen yet"
      sentinel in the root searches. */
  datatype Option<+T> = None | Some(value: T)

  /** The outcome of an operation that can reject its input. */
  datatype Result<+T, +E> = Success(value: T) | Failure(error: E)

  /** The one input error of the constructor. */
  datatype ConstructError = LengthMismatch
}
