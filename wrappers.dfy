/** Optional values and fallible results, used for the outcome of every
    external capability (URL joining, fetching, writing, parsing, translating). */
module Wrappers {

  datatype Option<+T> = None | Some(value: T)

  datatype Result<+T, +E> = Success(value: T) | Failure(error: E)
}
