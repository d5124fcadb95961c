/** Failure-carrying wrapper used for arithmetic steps that may leave the
    range of a fixed-width integer type. */
module Wrappers {

  /** `None` stands for an operation that has no defined result (in the
      modelled program: one that would overflow or divide by zero). */
  datatype Option<+T> = None | Some(value: T) {

    predicate IsFailure() {
      None?
    }

    function PropagateFailure<U>(): Option<U>
      requires None?
    {
      None
    }

    function Extract(): T
      requires Some?
    {
      value
    }
  }
}
