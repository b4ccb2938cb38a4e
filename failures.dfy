/** The error kinds the rational and progression types raise, and the result wrappers that carry them. */
module Failures {

  /** One constructor per exception the library throws. */
  datatype Error =
    | InvalidDenominator    // a Rational built, or divided, with a zero denominator
    | AlignmentMismatch     // add/subtract found different denominators after alignment
    | MalformedNumber       // a decimal literal that does not parse
    | ZeroStep              // a progression built with a zero step
    | NoSuchElement         // next() on an exhausted iterator

  datatype Result<+T> = Ok(value: T) | Err(error: Error)

  datatype Option<+T> = None | Some(value: T)
}
