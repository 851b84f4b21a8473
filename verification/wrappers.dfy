/** Failure-compatible result types used in place of the source's null returns and exceptions. */
module Wrappers {

  /** An optional value: `None` stands for a Java `null`. */
  datatype Option<+T> = None | Some(value: T)

  /** Either a value or the message of the exception the source would throw. */
  datatype Result<+T> = Ok(value: T) | Err(msg: string) {

    predicate IsFailure() {
      Err?
    }

    function PropagateFailure<U>(): Result<U>
      requires Err?
    {
      Err(msg)
    }

    function Extract(): T
      requires Ok?
    {
      value
    }
  }
}
