/** Option and Result values used for the store's success/error dictionaries. */
module Wrappers {

  datatype Option<+T> = None | Some(value: T) {
    function GetOr(default: T): T {
      match this
      case Some(v) => v
      case None => default
    }
  }

  /** `{"success": True, "data": ...}` or `{"success": False, "error": ...}` */
  datatype Result<+T> = Ok(value: T) | Err(error: string)
}
