/** Optional values, results and the failures a tiling session can raise. */
module Wrappers {

  datatype Option<+T> = None | Some(value: T)

  /** The ways an operation of a tiling session fails. */
  datatype Failure =
    | NotApplied      // a traversal, a write or an assembly before any `apply`
    | ZeroStride      // `apply` divided by a stride of 0
    | BadFilename     // an identifier without a usable `x_<left>_y_<top>` part
    | RectsExhausted  // more bare images than canonical rectangles

  datatype Result<+T> = Ok(value: T) | Err(error: Failure)

  datatype Outcome = Pass | Fail(error: Failure)
}
