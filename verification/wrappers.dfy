/** Optional values: a missing category, a missing delivery date, an undefined
    median or ratio (what the dashboard's data frames hold as NaN / NaT). */
module Wrappers {

  datatype Option<+T> = None | Some(value: T) {

    /** The held value, or `default` in its place when there is none. */
    function GetOr(default: T): T {
      match this
      case Some(v) => v
      case None() => default
    }
  }
}
