/** Option and Result, used where the modelled C++ returns a null pointer,
    an out-of-table enumerator value or throws. */
module Wrappers {

  datatype Option<+T> = None | Some(value: T) {
    function GetOr(default: T): T {
      match this
      case Some(v) => v
      case None => default
    }
  }

  /** The only exception the modelled code can raise is std::out_of_range. */
  datatype Error = OutOfRange

  datatype Result<+R> = Success(value: R) | Failure(error: Error)
}
