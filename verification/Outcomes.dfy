/** Results of operations that may throw. */
module Outcomes {

  datatype Option<+T> = None | Some(value: T)

  /** What a call does: it returns a value or throws. */
  datatype Outcome<+T> = Throws | Returns(value: T) {

    predicate IsFailure() {
      Throws?
    }

    function PropagateFailure<U>(): Outcome<U>
      requires Throws?
    {
      Throws
    }

    function Extract(): T
      requires Returns?
    {
      value
    }
  }
}
