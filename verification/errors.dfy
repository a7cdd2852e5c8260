/** Typed failures in place of the exceptions the matrix code throws. */
module Errors {

  /** `std::invalid_argument` from a bad constructor call (`InvalidDims`) or a
      bad pair of operands (`DimMismatch`), `std::out_of_range` from an element
      access (`OutOfRange`), and the `std::runtime_error` that names the output
      position whose value would not fit (`Overflow`). */
  datatype Error =
    | InvalidDims
    | OutOfRange
    | DimMismatch
    | Overflow(row: nat, column: nat)

  /** A value, or the error thrown instead of producing it. */
  datatype Result<T> = Ok(value: T) | Err(error: Error)

  /** The result of an operation that returns nothing when it succeeds. */
  datatype Outcome = Pass | Fail(error: Error)
}
