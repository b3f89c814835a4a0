/** Optional results and the failures of the type system's operations. */
module Outcomes {

  datatype Option<T> = None | Some(value: T)

  /** The ways an operation of the core fails instead of producing a value. */
  datatype Failure =
    | BadAnyCast     // std::bad_any_cast: an any_cast met a payload of another type
    | MalformedJson  // a rapidjson read met the wrong kind of value, or read past the end
    | OutOfRange     // std::out_of_range thrown by std::map::at

  /** A value, or the failure that replaced it. */
  datatype Outcome<T> = Ok(value: T) | Fail(failure: Failure)
}
