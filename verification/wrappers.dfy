/** Failure-compatible wrappers used across the model: `Option` for values that
    may be absent (a nil sorter, an unparsable duration) and `Result` for
    translations that can be rejected. */
module Wrappers {

  datatype Option<+T> = None | Some(value: T)

  datatype Result<+R, +E> = Success(value: R) | Failure(error: E)
}
