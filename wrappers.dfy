/** Small helper types shared by the other modules. */
module Wrappers {

  /** A C reference that may be NULL: None stands for NULL. */
  datatype Option<+T> = None | Some(value: T)

  function Min(a: int, b: int): int
  {
    if a <= b then a else b
  }

  function Max(a: int, b: int): int
  {
    if a <= b then b else a
  }
}
