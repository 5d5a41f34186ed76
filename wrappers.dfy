/** An optional value. In this model `None` also stands for "the Python code
    raised here": an operation that can raise returns an Option, and a caller
    that would let the exception escape propagates the `None` with `:-`. */
module Wrappers {

  datatype Option<+T> = None | Some(value: T) {

    predicate IsFailure() {
      None?
    }

    function PropagateFailure<U>(): Option<U>
      requires None?
    {
      None
    }

    function Extract(): T
      requires Some?
    {
      value
    }
  }
}
