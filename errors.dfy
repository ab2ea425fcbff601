/** Failures of the encoding-matrix construction. The Go code has no error
    returns here: each of these is one of its run-time panics. */
module Errors {

  datatype Error =
    | IndexOutOfRange   // result[r][r] read with r >= rows
    | DivisionByZero    // galDivide called with a zero divisor

  datatype Result<T> = Success(value: T) | Failure(error: Error)

  datatype Outcome = Pass | Fail(error: Error)
}
