/** Failure-carrying results shared by every stage of the feature pipeline.

    The Go code reports trouble in two ways: by returning an `error`, and by
    panicking (an empty matrix, an index out of range, a bad chunk id). Both
    are modelled as an `Err` carrying the kind of failure, so that each
    operation's contract can say exactly when it fails.
 */
module Outcomes {

  /** The kinds of failure the modelled code can produce. */
  datatype Failure =
    | EmptyInput               // explicit panic on an empty or malformed matrix
    | IndexOutOfRange          // Go's run-time bounds check
    | InvalidValue(token: string)  // strconv.ParseFloat rejected this token
    | InvalidChunkId           // a RIFF chunk id that is not four bytes long, or not the one expected

  datatype Result<+T> = Ok(value: T) | Err(failure: Failure) {

    predicate IsFailure() {
      Err?
    }

    function PropagateFailure<U>(): Result<U>
      requires Err?
    {
      Err(failure)
    }

    function Extract(): T
      requires Ok?
    {
      value
    }
  }

  datatype Option<+T> = None | Some(value: T)
}
