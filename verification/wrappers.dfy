/** Failure-compatible wrappers used across the model. */
module Wrappers {

  /** A value that may be absent (Python's `None`). */
  datatype Option<+T> = None | Some(value: T) {
    function GetOr(default: T): T {
      match this
      case Some(v) => v
      case None => default
    }
  }

  /** The outcome of an operation that can raise: `Failure` carries the exception message. */
  datatype Result<+R, +E> = Success(value: R) | Failure(error: E)
}

/** Points in time. */
module Time {

  /**
   * A UTC instant, as produced by parsing a timestamp and converting it to UTC.
   * The calendar arithmetic itself (datetime, the local timezone, the current
   * year) lives in the parser oracles passed to the operations that need it;
   * the model only relies on instants being totally ordered.
   */
  type Instant = int
}
