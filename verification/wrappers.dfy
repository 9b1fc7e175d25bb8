/** Optional values and fallible results, used in place of C# `null`
    arguments and thrown exceptions. */
module Wrappers {

  /** `None` stands for a C# `null` argument. */
  datatype Option<+T> = None | Some(value: T) {

    /** C#'s `x ?? fallback`: the wrapped value, or `fallback` for `null`. */
    function OrElse(fallback: T): T {
      if this.Some? then this.value else fallback
    }
  }

  /** The outcome of an operation that either returns or throws. */
  datatype Result<+T, +E> = Success(value: T) | Failure(error: E)
}
