/** Optional values and outcomes. `Option` stands for the app's `null`,
    `undefined` and "nothing found"; `Result` for the steps that can end in
    an error (page analysis, choosing the API key). */
module Wrappers {

  datatype Option<T> = None | Some(value: T)

  datatype Result<T, E> = Success(value: T) | Failure(error: E)
}
