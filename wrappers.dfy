/** Small failure-carrying datatypes shared by every module. */
module Wrappers {

  /** A value that may be missing: a failed decode, an absent key, an unparsable number. */
  datatype Option<+T> = None | Some(value: T) {

    predicate IsFailure() {
      None?
    }

    function PropagateFailure<U>(): Option<U>
      requires None?
    {
      None
    }

    function Extract(): T
      requires Some?
    {
      value
    }
  }
}
