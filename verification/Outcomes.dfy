/** The two result shapes the model shares: an optional value, and the outcome of Go code that may
    fail a run-time check (a slice or index out of range, a failed type assertion). */
module Outcomes {

  datatype Option<+T> = None | Some(value: T)

  datatype Outcome<+T> = Return(value: T) | Panic {
    predicate IsFailure() {
      Panic?
    }

    function PropagateFailure<U>(): Outcome<U>
      requires Panic?
    {
      Panic
    }

    function Extract(): T
      requires Return?
    {
      value
    }
  }
}
