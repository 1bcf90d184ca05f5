/** Option and Result, used for SQL NULLs, "not found" answers and failed statements. */
module Wrappers {

  datatype Option<+T> = None | Some(value: T)

  datatype Result<+R, +E> = Success(value: R) | Failure(error: E)

  /** An object a JavaScript method returns: the empty object `{}` (no fields, yet truthy,
      unlike null) or a record carrying a value. */
  datatype Reply<+T> = EmptyObject | Record(value: T)
}
