/** Optional values, and the result of a Python call that either returns a
    value or lets an exception propagate to its caller. */
module Wrappers {

  datatype Option<+T> = None | Some(value: T)

  /** `Raised` stands for any exception escaping the call; the model does not
      distinguish exception classes once they are past the handler that could
      have caught them. */
  datatype Result<+T> = Value(value: T) | Raised

  /** Python truthiness of an optional string: `None` and `''` are falsy. */
  predicate Truthy(s: Option<string>)
  {
    s.Some? && s.value != ""
  }
}
