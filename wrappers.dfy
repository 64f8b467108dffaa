/** Failure-compatible result types shared by the storage layer and the services. */
module Wrappers {

  /** A value that may be absent: what `findById` hands back before `orElseThrow`. */
  datatype Option<T> = None | Some(value: T)

  /** A value or the exception a service call ends with. */
  datatype Result<T, E> = Ok(value: T) | Err(error: E)

  /** Success, or the exception an operation without a return value ends with. */
  datatype Outcome<E> = Pass | Fail(error: E)
}
