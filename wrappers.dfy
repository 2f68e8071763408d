/** Optional and result types shared by the statistics modules. */
module Wrappers {

  /** An optional value: the absence of an answer is a normal outcome. */
  datatype Option<+T> = None | Some(value: T)

  /** Either a computed value or an explanation of why there is none. */
  datatype Result<+R, +E> = Success(value: R) | Failure(error: E)
}
