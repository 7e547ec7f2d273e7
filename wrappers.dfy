/** Outcome types shared by the modules of this model. */
module Wrappers {

  datatype Option<T> = None | Some(value: T)

  /** The result of an operation that may throw: `Err` carries the message of
      the `std::runtime_error` the C++ code would throw. */
  datatype Result<T> = Ok(value: T) | Err(message: string)
}
