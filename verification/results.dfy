/**
 Failure-compatible wrappers used throughout the model.

 The runtime reports problems by throwing one of a few exception classes;
 the model returns them as values. Only the kind of failure is modelled,
 not the message text.
 */
module Results {

  /** An optional value; also the contents of a single edge slot. */
  datatype Option<+T> = None | Some(value: T)

  /** The exception classes a call can end with. */
  datatype Failure =
    | RuntimeError   // generic failures, including "Schema validation failed"
    | NotWellFormed  // duplicate ownership, missing required edge, dangling link
    | OutOfRange     // the library's OutOfRange: dereferencing an empty edge
    | StdOutOfRange  // the standard std::out_of_range, of which OutOfRange is a subclass
    | CodecError     // the record reader could not find or convert a field

  /** The outcome of an operation that may throw. */
  datatype Result<+T> = Ok(value: T) | Err(error: Failure) {

    predicate IsFailure() {
      Err?
    }

    function PropagateFailure<U>(): Result<U>
      requires Err?
    {
      Err(error)
    }

    function Extract(): T
      requires Ok?
    {
      value
    }
  }
}
