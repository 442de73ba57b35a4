/** The outcome of a step of the pipeline that Python can abort with an exception. */
module Wrappers {

  /** The exceptions the modelled code can raise. */
  datatype Error =
    | IndexError  // a list index past the end (`m[6]`, `proxies[0]`)

  datatype Result<T> = Ok(value: T) | Err(error: Error)
}
