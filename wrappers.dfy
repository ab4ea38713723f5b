/** Failure-carrying values used across the model: an absent registry entry
    is an Option, an exception that reaches the top-level catch is a Result. */
module Wrappers {

  datatype Option<+T> = None | Some(value: T)

  datatype Result<+T, +E> = Ok(value: T) | Err(error: E)

  /** Text of a file or path: a sequence of Unicode scalar values. */
  type Text = seq<char>

  /** True when `s` lists no element twice. */
  predicate NoDuplicates<T(==)>(s: seq<T>)
  {
    forall i, j | 0 <= i < j < |s| :: s[i] != s[j]
  }
}
