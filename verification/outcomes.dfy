/** Failure values and the result of every reader operation. */
module Outcomes {
  import opened Bytes

  datatype Option<+T> = None | Some(value: T)

  /** The error tags the readers raise. The error classes themselves are not
      part of this model; only which one is raised matters. */
  datatype Error =
    | EndOfStream          // EndOfStreamError / Error("End-Of-Stream")
    | Abort                // AbortError
    | SourceFailure(code: nat)  // an 'error' event of the source, passed through
    | InvalidSource        // the constructor's "Expected an instance of stream.Readable"
    | ConcurrentRead       // the legacy reader's assertion "Concurrent read operation?"

  /** How a read-like call ends, always with the state it leaves behind:
      it delivers bytes (their count is the returned number), it throws, or
      it stays suspended on a source that sends no further event. */
  datatype Outcome<S> =
    | Delivered(bytes: Bytes, next: S)
    | Failed(error: Error, next: S)
    | Suspended(next: S)
}
