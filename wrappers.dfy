/** Failure-carrying result types shared by the codec, the key store and the repository. */
module Wrappers {

  /** A value that may be absent (the source's null key handle is `None`). */
  datatype Option<+T> = None | Some(value: T)

  /** The outcome of an operation that either succeeds or reports an error
      in place of the source's thrown C string or printed message. */
  datatype Outcome<+E> = Pass | Fail(error: E)
}
