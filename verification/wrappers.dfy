/** Failure-carrying datatypes shared by every module of the model.

    The program modelled here signals failure by raising Python exceptions.
    The model makes each raising path explicit: an operation that
    can raise returns a `Result`, whose `Err` case names the Python exception
    class that the interpreter would raise at that point.
 */
module Wrappers {

  datatype Option<+T> = None | Some(value: T) {

    /** The wrapped value, or `default` when there is none. */
    function GetOr(default: T): T {
      match this
      case Some(v) => v
      case None => default
    }
  }

  /** The Python exception classes that the modelled code can raise. */
  datatype PyError =
    | ValueError         // int() on a malformed literal, tuple unpacking of the wrong length, list.remove of a missing item
    | IndexError         // subscript past the end of a list
    | UnboundLocalError  // a local variable read before any branch assigned it

  datatype Result<+T> = Ok(value: T) | Err(error: PyError) {

    predicate IsFailure() {
      Err?
    }

    function PropagateFailure<U>(): Result<U>
      requires Err?
    {
      Err(error)
    }

    function Extract(): T
      requires Ok?
    {
      value
    }
  }
}
