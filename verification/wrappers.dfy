/** Failure-compatible wrappers used throughout the model: `Option` stands for a
    JavaScript value that may be `undefined`, `Result` for a computation that may throw. */
module Wrappers {

  datatype Option<+T> = None | Some(value: T)

  datatype Result<+R, +E> = Success(value: R) | Failure(error: E) {

    predicate IsFailure() {
      Failure?
    }

    function PropagateFailure<U>(): Result<U, E>
      requires Failure?
    {
      Failure(error)
    }

    function Extract(): R
      requires Success?
    {
      value
    }
  }
}

/** The errors the resolver core can surface to its caller. */
module Errors {

  datatype Error =
    | SettingsUnreadable(reason: string)   // settings.xml exists but could not be read or parsed
    | NonConformingUrl(url: string)        // the artifact URL does not end in two path segments
    | Transport(reason: string)            // a download, metadata parse or unpack failure
}
