/** The exceptions that end a conversion run, and a failure-compatible result
    type so that the pipeline can be written with `:-` the way the Python code
    lets an exception propagate to the top. */
module Failures {

  /** The Python exceptions the conversion can raise, by cause. */
  datatype Error =
    | InvalidLiteral    // int() given a header token that is not a decimal integer
    | UnpackMismatch    // the header line did not hold exactly two values
    | ZeroDivision      // height - 1, width - 1 or the neighbour count is zero
    | IndexOutOfRange   // is_lake read an in-bounds neighbour past the end of a short row
    | MalformedGrid     // only the strict loader: data lines disagree with the header

  /** Either a value or the exception that stopped the computation. */
  datatype Result<+T> = Success(value: T) | Failure(error: Error) {

    predicate IsFailure() {
      Failure?
    }

    function PropagateFailure<U>(): Result<U>
      requires Failure?
    {
      Failure(error)
    }

    function Extract(): T
      requires Success?
    {
      value
    }
  }
}
