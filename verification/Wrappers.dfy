/** Presence and failure, as the Go sources express them with nil values and error returns. */
module Wrappers {

  /** A value that may be nil, or a protobuf field with explicit presence. */
  datatype Option<+T> = None | Some(value: T) {

    /** The generated getters of the Go sources: the value, or the zero value when nil. */
    function GetOr(zero: T): T {
      if Some? then value else zero
    }
  }

  /** A value, or an error that aborts the caller. */
  datatype Result<+T> = Ok(value: T) | Err
}
