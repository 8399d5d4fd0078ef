/** Optional values and the success-or-error outcome of a call that may throw. */
module Results {

  /** A JavaScript value that may be `undefined` or `null`. */
  datatype Option<+T> = None | Some(value: T)

  /** The outcome of a call that either returns or throws an Error with a message. */
  datatype Result<+T> = Success(value: T) | Failure(message: string)
}
