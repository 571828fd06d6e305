/** The failure-carrying result used wherever the analysed program raises an exception. */
module Wrappers {

  datatype Result<+T, +E> = Ok(value: T) | Err(error: E)

}
