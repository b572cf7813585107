/** Optional values and engine outcomes shared by every module of the model. */
module Wrappers {

  /** An optional value.  For a dictionary key, `None` stands for a key that
      is absent and `Some(v)` for a key that is present with value `v`. */
  datatype Option<+T> = None | Some(value: T)

  /** The outcome of a call that either returns a value or raises an
      exception whose message is `error`. */
  datatype Result<+R, +E> = Success(value: R) | Failure(error: E)
}
