/** Values that stand for Java's `null` and for the exceptions the two containers throw. */
module Outcomes {

  /** A slot of the array list's backing buffer: `None` is Java's `null`. */
  datatype Option<+T> = None | Some(value: T)

  /** The one failure both containers report: an index outside the operation's bound,
      with the offending index and the size at the time of the call. */
  datatype Error = IndexOutOfBounds(index: int, size: int)

  /** Result of an operation that returns nothing on success (`add(int, E)`, `remove`). */
  datatype Outcome = Pass | Fail(error: Error)

  /** Result of an operation that returns a value on success (`get`). */
  datatype Result<+T> = Ok(value: T) | Err(error: Error)
}
