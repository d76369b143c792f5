/** Java's nullable references, modelled as an explicit option. */
module Nullable {
  datatype Option<T> = None | Some(value: T) {
    /** The value, or `default` where Java would hold null. */
    function GetOr(default: T): T {
      match this
      case Some(v) => v
      case None => default
    }
  }

  /** The HTTP status outcomes the controllers produce. */
  datatype Status = Ok | BadRequest | InternalServerError
}
