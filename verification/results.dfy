/** Values shared by the line cache model: optional values, the result of a
    file read, and the three ways an update of a cache strategy can end. */
module Results {

  /** Ruby's `nil` versus a present value. */
  datatype Option<+T> = None | Some(value: T)

  /** The Ruby exceptions the modelled code can raise. */
  datatype Error =
      /** `@value_list[nil]` after `pop`/`shift` on an empty order (a TypeError). */
    | NilEvictionIndex
      /** `IO#read` given a negative length (an ArgumentError). */
    | NegativeReadLength

  /** A file read: the characters read, or the exception it raised. */
  datatype Result<+T> = Success(value: T) | Failure(error: Error)

  /** How a cache update (`[]=`) ends. */
  datatype Outcome<+S> =
      /** The update returned normally, leaving `state`. */
    | Ok(state: S)
      /** An exception escaped half-way; the running server keeps `state`. */
    | Raised(error: Error, state: S)
      /** The update called `exit`, which raises SystemExit; the model keeps
          no state after it. */
    | Exited
}
