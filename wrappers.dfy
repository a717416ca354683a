/** Small value wrappers shared by every module of the model. */
module Wrappers {

  /** A value that may be absent (`null` / `undefined` in the application). */
  datatype Option<+T> = None | Some(value: T)

  /** The outcome of a request to the backend: the data it returned, or the error it raised. */
  datatype Response<+T> = Ok(value: T) | Err(message: string)

  /** JavaScript truthiness of an optional string: absent and empty strings are falsy. */
  predicate Present(s: Option<string>)
  {
    s.Some? && s.value != ""
  }
}
