/** Failure-compatible Option used by the decoders that serve as partners of
    the encoders: a decoder returns None on bytes that are not a well-formed
    encoding. */
module Wrappers {

  datatype Option<+T> = None | Some(value: T) {

    predicate IsFailure() {
      None?
    }

    function PropagateFailure<U>(): Option<U>
      requires None?
    {
      None
    }

    function Extract(): T
      requires Some?
    {
      value
    }
  }
}
