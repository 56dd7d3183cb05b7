/** Results that may be absent, and calls that may panic. */
module Wrappers {

  datatype Option<+T> = None | Some(value: T)

  /** A panic carries no value. */
  datatype Outcome<+T> = Ok(value: T) | Panic
}
