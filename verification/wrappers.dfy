/** Failure-carrying datatypes shared by the whole model, and the Python
    exception classes that the modelled code can raise. */
module Wrappers {

  /** Python's `None` versus a present value. */
  datatype Option<+T> = None | Some(value: T) {

    /** The value, or `default` when absent (Python's `d.get(k, default)`). */
    function GetOr(default: T): T {
      match this
      case Some(v) => v
      case None => default
    }
  }

  /** A value, or the exception the Python code would raise instead. */
  datatype Result<+T, +E> = Success(value: T) | Failure(error: E) {

    predicate IsFailure() {
      Failure?
    }

    function PropagateFailure<U>(): Result<U, E>
      requires Failure?
    {
      Failure(error)
    }

    function Extract(): T
      requires Success?
    {
      value
    }
  }

  /** The exception classes raised by the modelled code. */
  datatype PyError =
    | TypeError           // a non-list handed to the occupancy buffer, a string indexed by a key
    | ValueError          // non-float element, ragged array, failed int(), list.index miss
    | KeyError            // dictionary lookup of an absent key
    | IndexError          // list or array index out of range
    | ZeroDivisionError   // division by a zero sample count or modulus
    | AttributeError      // a method called on None
}
