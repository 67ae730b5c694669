/** Failure-compatible wrappers shared by the whole model. */
module Wrappers {

  /** An optional value, failure-compatible so that `:-` can be used with it. */
  datatype Option<+T> = None | Some(value: T) {
    predicate IsFailure() { None? }

    function PropagateFailure<U>(): Option<U>
      requires None?
    {
      None
    }

    function Extract(): T
      requires Some?
    {
      value
    }
  }
}
