/** Option and Result: the model's stand-ins for Java's null and for thrown exceptions. */
module Wrappers {

  /** A possibly absent value; `None` plays the role of Java's `null`. */
  datatype Option<+T> = None | Some(value: T)

  /** The outcome of a step that either yields a value or raises an error. */
  datatype Result<+T, +E> = Ok(value: T) | Err(error: E) {

    predicate IsFailure() {
      Err?
    }

    function PropagateFailure<U>(): Result<U, E>
      requires Err?
    {
      Err(error)
    }

    function Extract(): T
      requires Ok?
    {
      value
    }
  }
}
