/** Optional values, standing in for Rust's `Option<T>` in component
    properties (`total_pages`, `default_tab`, `default_value`). */
module Wrappers {

  datatype Option<+T> = None | Some(value: T) {

    /** `Option::unwrap_or`: the carried value, or `default` when absent. */
    function GetOr(default: T): T {
      match this
      case Some(v) => v
      case None => default
    }
  }
}
