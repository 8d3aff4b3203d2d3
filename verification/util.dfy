/** The two result shapes the crate's operations return. */
module Util {

  /** `std::result::Result`: a value or a typed error. */
  datatype Result<+T, +E> = Ok(value: T) | Err(error: E)

  /** `std::option::Option`. */
  datatype Option<+T> = None | Some(value: T)
}
