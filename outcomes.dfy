/** The results the cache's operations hand back: an optional lookup result,
    and success or one of the three error kinds. */
module Outcomes {

  datatype Option<+T> = None | Some(value: T)

  /** The error kinds of the cache; the message text is not modelled. */
  datatype CacheError =
    | AlreadyExists  // Add on a key with an unexpired entry
    | NotFound       // Replace, Increment or Decrement on an absent or expired key
    | TypeMismatch   // Increment or Decrement on a payload of another kind

  /** A Go `error` result: nil (Pass) or an error of one of the kinds above. */
  datatype Outcome = Pass | Fail(error: CacheError)
}
