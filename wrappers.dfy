/** The Python exceptions the distribution toolkit raises, and the result
    types that carry them back to the caller instead of unwinding. */
module Wrappers {

  /** The exception kinds raised by the core (by name, as Python reports them). */
  datatype Error =
    | KeyError           // `del d[x]` on an absent key
    | ValueError         // an empty distribution, a zero total, a probability outside [0, 1]
    | IndexError         // indexing an empty or too-short list
    | ZeroDivisionError  // dividing by a zero total or a zero-width interval
    | AssertionError     // `assert False` reached

  /** A value or the exception that was raised instead. */
  datatype Result<+T> = Ok(value: T) | Err(error: Error)

  /** Completion of a statement that returns nothing, or the exception it raised. */
  datatype Outcome = Pass | Fail(error: Error)

  /** A Python argument that may be `None`. */
  datatype Option<+T> = None | Some(value: T)
}
