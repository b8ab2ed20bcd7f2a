/** The closed set of failures the parser reports, and the result type that
    replaces its exceptions. */
module Errors {

  /** One constructor per `throw` in the parser. */
  datatype Err =
    | TrailingInput    // non-space characters remain after a complete expression
    | DivisionByZero   // a divisor whose magnitude is below machine epsilon
    | UnexpectedEnd    // only whitespace remains where an operand is expected
    | UnmatchedParen   // a parenthesised expression is not followed by ')'
    | MalformedNumber  // a second '.' inside one numeric literal
    | ExpectedNumber   // no digit where a numeric literal is expected

  /** A value or the first error met; usable with `:-`, which plays the part
      of the exception unwinding the parse. */
  datatype Result = Success(value: real) | Failure(error: Err) {

    predicate IsFailure() {
      Failure?
    }

    function PropagateFailure(): Result
      requires Failure?
    {
      this
    }

    function Extract(): real
      requires Success?
    {
      value
    }
  }
}
