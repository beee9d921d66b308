/** Failure-compatible result types shared by the matching and update modules. */
module Wrappers {

  /** A value that may be absent: a skipped row, an empty scan. */
  datatype Option<+T> = None | Some(value: T)

  /** The outcome of a call that may raise instead of returning. */
  datatype Result<+R, +E> = Success(value: R) | Failure(error: E)

  /** Why a call raised rather than returned. */
  datatype Fault =
    | Unparsable      // the stored JSON text or bytes could not be decoded
    | ShapeMismatch   // a stored value is not a vector of the query's length
    | NameUnbound     // a name used by the code was never imported
}
