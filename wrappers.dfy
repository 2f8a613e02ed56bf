/** Small failure-carrying datatypes shared by the modules of the model. */
module Wrappers {

  datatype Option<+T> = None | Some(value: T) {
    /** The value, or `default` when there is none (Python's `dict.get(k, default)`). */
    function GetOr(default: T): T {
      match this
      case Some(v) => v
      case None => default
    }
  }

  datatype Result<+R, +E> = Ok(value: R) | Err(error: E)

  /** Python's `d.get(k, default)` on a dictionary. */
  function MapGet<K, V>(m: map<K, V>, k: K, default: V): V {
    if k in m then m[k] else default
  }
}
