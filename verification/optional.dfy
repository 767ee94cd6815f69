/** Failure-carrying values: JavaScript's `null`/`undefined` become `None`
    and a thrown exception becomes `Failure`. */
module Optional {

  /** A value that may be absent (JavaScript's `null`). */
  datatype Option<+T> = None | Some(value: T)

  /** A computation that either yields a value or stops with an error (a
      thrown exception). */
  datatype Result<+T, +E> = Success(value: T) | Failure(error: E)
}
