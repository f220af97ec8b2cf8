/**
 * Failure reporting. Every `assert(...)` of the decimal type and every
 * BigInt RangeError it can raise becomes an `Err` carrying one of these kinds.
 */
module Wrappers {

  datatype Error =
    | DivisionByZero    // BigInt RangeError: `x / 0n` or `x % 0n`
    | NonTerminating    // fromFraction: no finite decimal expansion
    | NotAnInteger      // toBigInt on a value with a negative exponent
    | InvalidPrecision  // toFixed with a negative precision
    | ParseFailure      // fromString on text matching neither literal form

  datatype Result<+T> = Ok(value: T) | Err(error: Error) {

    predicate IsFailure() {
      Err?
    }

    function PropagateFailure<U>(): Result<U>
      requires Err?
    {
      Err(error)
    }

    function Extract(): T
      requires Ok?
    {
      value
    }
  }

  datatype Option<+T> = None | Some(value: T)
}
