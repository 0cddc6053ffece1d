/** The two Python exceptions the oracle helpers can raise, and the result of
    an operation that either returns a value or raises one of them. */
module Errors {

  datatype PyError =
    | IndexError                  // a list subscript out of range
    | ValueError(message: string) // raised explicitly by the code

  datatype Result<T> = Ok(value: T) | Err(error: PyError)
}
