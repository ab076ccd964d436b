/** Failure-compatible result types shared by the extractors. */
module Wrappers {

  /** A value that may be absent: Python's `X | None`. */
  datatype Option<+T> = None | Some(value: T)

  /** The outcome of a call that can raise: it either returns a value or
      fails with an `IndexError` (indexing an empty list). */
  datatype Outcome<+T> = Returned(value: T) | IndexError
}
