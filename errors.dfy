/** The failures the converter's Python code can raise on the inputs modelled here. */
module Errors {

  /** Python exceptions, named after the exception classes the interpreter raises. */
  datatype Error =
    | ZeroDivisionError   // `/` by zero, including Pillow's mean over an empty bitmap
    | IndexError          // `list(...)[0]` on an empty list
    | ValueError          // `min()` of an empty sequence

  /** A computation that either yields a value or raises one of the errors above. */
  datatype Result<+T> = Success(value: T) | Failure(error: Error)
}
