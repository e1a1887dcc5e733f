/** Failure-carrying wrappers used in place of C++ exceptions and null results. */
module Wrappers {

  /** A value that may be absent (`std::string::npos`, an unset `ConverterPtr`). */
  datatype Option<+T> = None | Some(value: T)

  /** The result of an operation that either returns a value or throws `error`. */
  datatype Result<+R, +E> = Ok(value: R) | Err(error: E)

  /** The result of a `void` operation that either returns or throws `error`. */
  datatype Outcome<+E> = Pass | Fail(error: E)
}
