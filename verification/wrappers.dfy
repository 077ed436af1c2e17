/** Failure-carrying result types shared by the word-scraper model. */
module Wrappers {

  /** An optional value: `None` stands for Python's `None` or a falsy result. */
  datatype Option<+T> = None | Some(value: T)

  /** Either a value or the exception the Python code would raise. */
  datatype Result<+R, +E> = Success(value: R) | Failure(error: E)
}
