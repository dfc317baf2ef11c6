/** An optional result, a truth value as a count a minimum and a maximum, shared by every module. */
module Wrappers {
  datatype Option<+T> = None | Some(value: T)

  /** A truth value as a count. */
  function One(b: bool): nat {
    if b then 1 else 0
  }

  function Min(a: int, b: int): int {
    if a < b then a else b
  }

  function Max(a: int, b: int): int {
    if a < b then b else a
  }
}
