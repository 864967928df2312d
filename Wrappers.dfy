/** Failure-compatible wrappers shared by the model. `Option` stands for a
    Java reference that may be null, or for a foreign call that may throw. */
module Wrappers {

  datatype Option<+T> = None | Some(value: T)

  /** The outcome of a staged check: the accepted value, or the reason the
      first failing stage gave. */
  datatype Result<+R, +E> = Success(value: R) | Failure(error: E)
}
