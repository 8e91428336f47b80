/** Failure-carrying values shared by every module of the model. */
module Results {

  /** A value that may be absent: JavaScript's `null`/`undefined` next to a real value. */
  datatype Option<+T> = None | Some(value: T)

  /** The value held, or `fallback` when there is none (`o ?? fallback`). */
  function Or<T>(o: Option<T>, fallback: T): T {
    match o
    case Some(v) => v
    case None => fallback
  }

  /** The outcome of a handler: either the value it produced or the error it raised. */
  datatype Result<+R, +E> = Success(value: R) | Failure(error: E)
}
