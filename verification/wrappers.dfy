/** Optional and fallible values, used for the lookahead cursors and for the
    errors `merge_chunks` reports. */
module Wrappers {

  /** Rust's `Option<T>`. */
  datatype Option<T> = None | Some(value: T)

  /** Rust's `Result<T, E>`. */
  datatype Result<T, E> = Success(value: T) | Failure(error: E)

  /** The values an optional holds, as a sequence of length zero or one. */
  function AsSeq<T>(o: Option<T>): seq<T>
  {
    match o
    case None => []
    case Some(v) => [v]
  }
}
