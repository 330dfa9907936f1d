// Small things that many components use.
module Wrappers {
  // A pointer that may be NULL, or a result that may be missing.
  datatype Option<+T> = None | Some(value: T)

  function Min(a: int, b: int): int
  {
    if a < b then a else b
  }
}
