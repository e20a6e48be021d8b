/** Failure-carrying values used across the model. */
module Wrappers {

  /** An optional value: a page without text, a regex that did not match. */
  datatype Option<+T> = None | Some(value: T)

  /** Either a value or an error, standing for a Python call that returns or raises. */
  datatype Result<+T, +E> = Success(value: T) | Failure(error: E) {

    /** Replaces whatever error this carries by `e`, keeping a success unchanged. */
    function WithError<E2>(e: E2): (r: Result<T, E2>)
      ensures r.Success? <==> Success?
      ensures Success? ==> r.value == value
      ensures Failure? ==> r.error == e
    {
      match this
      case Success(v) => Success(v)
      case Failure(_) => Failure(e)
    }
  }
}
