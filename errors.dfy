/** The two sentinel errors the queues return instead of failing. */
module QueueErrors {

  datatype Error =
    | ErrQueueIsFull          // insertion while a capacity bound is reached
    | ErrNoElementsAvailable  // removal or inspection of an empty queue

  /** The `error` result of an operation that returns nothing else. */
  datatype Outcome = Pass | Fail(error: Error)

  /** The `(T, error)` result pair of Get and Peek. */
  datatype Result<T> = Ok(value: T) | Err(error: Error)

  datatype Option<T> = None | Some(value: T)
}
