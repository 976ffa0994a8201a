/** Optional values and results with the exceptions the animation script can raise. */
module Wrappers {

  /** A value that may be missing; pandas' NaN is `None`. */
  datatype Option<T> = None | Some(value: T)

  /** The Python exceptions that stop the script. */
  datatype Error =
    | ZeroDivisionError  // float division by zero in the build fraction
    | IndexError         // first coordinate of an empty LineString
    | ValueError         // reindexing a table whose year index has duplicates

  /** Either a value or the exception that aborted the computation. */
  datatype Result<T> = Ok(value: T) | Err(error: Error) {

    predicate IsFailure() {
      Err?
    }

    function PropagateFailure<U>(): Result<U>
      requires Err?
    {
      Err(error)
    }

    function Extract(): T
      requires Ok?
    {
      value
    }
  }
}
