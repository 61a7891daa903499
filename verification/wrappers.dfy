/** Option and Result, used for absent JSON keys, optional references and decoding errors. */
module Wrappers {

  datatype Option<+T> = None | Some(value: T) {
    /** `x ?? default`: the value, or `default` when absent. */
    function GetOr(default: T): T {
      if Some? then value else default
    }
  }

  datatype Result<+T, +E> = Success(value: T) | Failure(error: E)
}
