/** The ways an evaluation can abort, and the value-or-failure type that replaces exceptions. */
module Outcomes {

  /** The three exceptions the evaluator throws. */
  datatype Failure =
    | DivByZero     // a divisor unit term evaluated to 0
    | MissingClose  // the token after a parenthesised expression is not `)`
    | BadToken      // a token that no unit-term rule accepts

  datatype Result<T> = Ok(value: T) | Err(failure: Failure)
}
