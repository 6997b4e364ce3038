/** Failure outcomes of the arithmetic engine.

    The Rust program aborts on a failed `assert!` or `unwrap`; here each
    such abort is a `Failure` value that callers propagate with `:-`. */
module Failures {

  /** Why an operation aborted. Neither abort carries data in src/main.rs. */
  datatype Fault =
    | NotADigit    // `to_digit(10).unwrap()` on a character that is not 0-9
    | DigitAbove9  // `assert!(digit <= 9)` when a cell is built

  datatype Result<+T> = Success(value: T) | Failure(fault: Fault) {

    predicate IsFailure() {
      Failure?
    }

    function PropagateFailure<U>(): Result<U>
      requires Failure?
    {
      Failure(fault)
    }

    function Extract(): T
      requires Success?
    {
      value
    }
  }
}
