/** Values that stand in for JavaScript's `null`/`undefined` and for the outcome
    of a remote call. The HTTP service itself is not modelled: every handler that
    awaits a request receives the request's outcome as a parameter instead. */
module Outcomes {

  /** `None` plays the part of `null` (no edit target) or of a failed `find`. */
  datatype Option<+T> = None | Some(value: T)

  /** The outcome of one awaited remote call: the response body on success,
      or a caught exception (logged and otherwise ignored by the component). */
  datatype Response<+T> = Success(data: T) | Failure
}
