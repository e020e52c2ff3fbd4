/** Option and Result, and the error taxonomy shared by the cart module. */
module Wrappers {

  datatype Option<+T> = None | Some(value: T)

  datatype Result<+R, +E> = Success(value: R) | Failure(error: E)

  /** The exceptions the cart module raises, one constructor per distinct message. */
  datatype Error =
    | CurrencyMismatch(left: string, right: string)  // ValueError from a Money operator
    | DivisionByZero                                 // ZeroDivisionError from Money division
    | NotFound                                       // "discount not found"
    | InvalidDiscount                                // "invalid discount"
    | InvalidPercentage                              // percentage outside (0, 100]
    | NonPositiveAmount                              // discount amount not strictly positive
    | NegativeUsageLimit                             // usage limit below zero (corrected guard only)
    | AmountNotAboveZero                             // use case: amount argument not above zero
    | MissingCode                                    // use case: empty coupon code
}
