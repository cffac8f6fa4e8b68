/** Shared result types: the optional value that stands in for JavaScript's
    `null`/`undefined`, the three error kinds the containers throw, and the
    (state, result) pair every state-changing operation returns. */
module Wrappers {

  /** A value that may be absent, the model of a nullable reference. */
  datatype Option<+T> = None | Some(value: T)

  /** The error kinds the containers raise. The message texts differ between
      the containers; only the kind matters to a caller. */
  datatype Error =
    | BadParameter   // a required argument was null or undefined
    | Overflow       // a bounded container was asked to go beyond its capacity
    | Underflow      // an empty container was asked for an element

  /** Either the returned value or the error that was thrown. */
  datatype Result<+V> = Ok(value: V) | Err(error: Error)

  /** The state of a container after one call, with what the call returned
      or threw. */
  datatype Step<+S, +V> = Step(state: S, result: Result<V>)
}
