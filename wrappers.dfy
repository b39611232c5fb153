/** The optional value the parsers and validators return. */
module Wrappers {

  /** A value that may be absent; `:-` propagates the absence. */
  datatype Option<+T> = None | Some(value: T) {

    predicate IsFailure() {
      None?
    }

    function PropagateFailure<U>(): Option<U>
      requires None?
    {
      None
    }

    function Extract(): T
      requires Some?
    {
      value
    }
  }
}
