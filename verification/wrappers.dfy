/** Failure-compatible result types shared by every module of the dialect model,
    and the exceptions the dialect can raise, named after the Python classes. */
module Wrappers {

  datatype Option<+T> = None | Some(value: T) {
    function GetOr(default: T): T {
      match this
      case Some(v) => v
      case None => default
    }
  }

  /** The Python exceptions the modelled code raises. */
  datatype Error =
    | ArgumentError(decimalPrecision: int, estimatedBinaryPrecision: int)  // sqlalchemy.exc.ArgumentError
    | CompileError(reason: string)                                         // sqlalchemy.exc.CompileError
    | ValueError(reason: string)                                           // int() / tuple unpacking
    | KeyError(key: string)                                                // missing dict / row key
    | AssertionError(reason: string)                                       // a failed `assert`
    | NoSuchTableError(name: string)                                       // sqlalchemy.exc.NoSuchTableError
    | TypeError(reason: string)                                            // an operation on None
    | AttributeError(name: string)                                         // a missing attribute

  datatype Result<+R> = Success(value: R) | Failure(error: Error) {
    predicate IsFailure() {
      Failure?
    }

    function PropagateFailure<U>(): Result<U>
      requires Failure?
    {
      Failure(error)
    }

    function Extract(): R
      requires Success?
    {
      value
    }
  }

  /** Maps a function over an optional value, as `None if x is None else f(x)`. */
  function MapOption<T, U>(o: Option<T>, f: T -> U): (r: Option<U>)
    ensures r.Some? <==> o.Some?
    ensures o.Some? ==> r.value == f(o.value)
  {
    match o
    case None => None
    case Some(v) => Some(f(v))
  }
}
