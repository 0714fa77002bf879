/** Failure-carrying result types shared by the modules of this model. */
module Wrappers {

  /** An optional value: `None` stands for C's null pointer or Python's "nothing". */
  datatype Option<+T> = None | Some(value: T)

  /** Either a value or an error message, for operations whose source aborts or reports a message. */
  datatype Result<+T> = Ok(value: T) | Err(msg: string) {
    predicate IsFailure() { Err? }

    function PropagateFailure<U>(): Result<U>
      requires Err?
    {
      Err(msg)
    }

    function Extract(): T
      requires Ok?
    {
      value
    }
  }
}
