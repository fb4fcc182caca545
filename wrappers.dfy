/** Small value types shared by the parser, the grid and the translator. */
module Wrappers {

  /** Rust's `Option<T>`. */
  datatype Option<T> = None | Some(value: T) {

    /** `unwrap_or_default` / `as_deref().unwrap_or(..)`: the value, or `default` for None */
    function GetOr(default: T): T {
      match this
      case Some(v) => v
      case None => default
    }
  }

  /** The concatenation of a sequence of strings. */
  function Concat(parts: seq<string>): (s: string)
    ensures |parts| == 1 ==> s == parts[0]
  {
    if parts == [] then [] else parts[0] + Concat(parts[1..])
  }
}
