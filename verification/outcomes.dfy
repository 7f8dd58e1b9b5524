/** Failure outcomes of the Reed–Solomon codec.

    Every `throw` of the codec becomes one kind of `Error`. Two extra kinds
    stand for undefined behaviour the source does not guard against:
    `TableIndexOutOfRange` for the read of the exponent table below index 0
    that `gf_pow` performs when its exponent is negative, and `OutOfBounds`
    for any other access outside a vector (an empty polynomial evaluated, an
    erasure position outside the message, a message shorter than its
    error-correction part). */
module Outcomes {

  datatype Error =
    | DivisionByZero
    | InverseOfZero
    | TableIndexOutOfRange
    | OutOfBounds
    | MessageTooLong
    | TooManyErasures
    | TooManyErrors
    | CouldNotFindErrorLocations
    | CouldNotLocateErrors
    | CannotFindErrorMagnitude
    | CouldNotCorrect

  /** Either a value or the error that ended the computation; usable with `:-`. */
  datatype Result<+T> = Success(value: T) | Failure(error: Error) {

    predicate IsFailure() {
      Failure?
    }

    function PropagateFailure<U>(): Result<U>
      requires Failure?
    {
      Failure(error)
    }

    function Extract(): T
      requires Success?
    {
      value
    }
  }
}
