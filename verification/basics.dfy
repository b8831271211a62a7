/** Small wrapper types shared by the whole model. */
module Basics {

  /** A value that may be absent: a nullable database column, an
      unauthenticated principal, a failed lookup. */
  datatype Option<+T> = None | Some(value: T)

  function Min(a: int, b: int): int
  {
    if a <= b then a else b
  }
}
