/** Optional values for the application's nullable references (a `string?`
    column, a `FirstOrDefault` that found nothing) and results for operations
    that the database can refuse. */
module Wrappers {

  datatype Option<T> = None | Some(value: T) {

    /** The C# `??` operator: the value if present, else the default. */
    function GetOr(default: T): T {
      match this
      case Some(v) => v
      case None => default
    }
  }

  datatype Result<T, E> = Success(value: T) | Failure(error: E)
}
