/** The optional value every module uses for "found / not found" and "read / nothing read". */
module Wrappers {

  datatype Option<T> = None | Some(value: T) {
    /** The value, or `prior` when there is none: a `>>` that fails leaves its target as it was. */
    function GetOr(prior: T): T {
      if Some? then value else prior
    }
  }
}
