/** Failure-carrying results for the operations that raise a Python
    exception on some inputs instead of returning a value. */
module Wrappers {

  /** The Python exceptions the modelled code raises. */
  datatype PyError = ValueError | IndexError

  /** Either the value an operation returns, or the exception it raises. */
  datatype Result<+T> = Ok(value: T) | Err(error: PyError)
}
