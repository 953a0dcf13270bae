/**
 What several modules share and no part of the repository owns.
 */
module Common {

  datatype Option<+T> = None | Some(value: T)

  /** Math.Ceiling */
  function Ceiling(x: real): (n: int)
    ensures x <= n as real < x + 1.0
  {
    -((-x).Floor)
  }

  function Min(a: int, b: int): int {
    if a < b then a else b
  }

  /** int.MaxValue */
  const MAX_INT32: int := 0x7FFF_FFFF
}
