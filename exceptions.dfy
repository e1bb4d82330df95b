/** Failure values shared by the four containers. */
module Exceptions {

  /** The value of an operation that may throw `std::out_of_range`.
      Every check in the containers throws that one exception, whether
      the container is empty or the index is outside its bounds. */
  datatype Result<+T> = Ok(value: T) | OutOfRange

  /** A link that may be null. */
  datatype Option<+T> = None | Some(value: T)
}
