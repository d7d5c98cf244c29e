/** The failure channel of the engine. The C++ code throws one of four
    exception classes; here every fallible operation returns a `Result`
    carrying the matching error kind instead. */
module Outcome {

  /** The error kinds: `fixed_point_out_of_range_error`,
      `fixed_point_conversion_error`, `round_policy_error` and
      `std::invalid_argument`. `RoundPolicyError` is raised only by the
      floating-point rounding path, which this model leaves out. */
  datatype Error = OutOfRange | ConversionError | RoundPolicyError | InvalidArgument

  datatype Result<+T> = Ok(value: T) | Err(error: Error) {

    predicate IsFailure() {
      Err?
    }

    function PropagateFailure<U>(): Result<U>
      requires Err?
    {
      Err(error)
    }

    function Extract(): T
      requires Ok?
    {
      value
    }
  }

  /** An optional value, for partial inverses such as parsing. */
  datatype Option<+T> = None | Some(value: T)
}
