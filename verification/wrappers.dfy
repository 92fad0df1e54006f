/** Failure-carrying results used throughout the model.

    The modelled scripts signal failure by raising Python exceptions; each
    such exit is modelled as a `Failure` carrying the exception's class, so
    that error paths are part of every contract instead of being excluded
    by preconditions.
 */
module Wrappers {

  /** The Python exception classes the modelled code can raise. */
  datatype PyError =
    | ValueError         // wrong number of fields when unpacking a split, bad int()
    | IndexError         // list/str index out of range, `sorted(...)[0]` on an empty set
    | KeyError           // dict lookup or `del` of a missing key
    | ZeroDivisionError  // division by a zero count or length
    | AssertionError     // a failing `assert` statement
    | StopIteration      // `next()` on an exhausted iterator
    | UnboundLocalError  // a local variable read before any assignment

  datatype Option<+T> = None | Some(value: T) {
    predicate IsFailure() {
      None?
    }

    function PropagateFailure<U>(): Option<U>
      requires None?
    {
      None
    }

    function Extract(): T
      requires Some?
    {
      value
    }
  }

  datatype Result<+R> = Success(value: R) | Failure(error: PyError) {
    predicate IsFailure() {
      Failure?
    }

    function PropagateFailure<U>(): Result<U>
      requires Failure?
    {
      Failure(error)
    }

    function Extract(): R
      requires Success?
    {
      value
    }
  }
}
