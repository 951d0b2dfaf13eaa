/** Definitions several modules share. */
module Basics {

  datatype Option<T> = None | Some(value: T)

  /** The number of values of `w` bytes. */
  function Pow256(w: nat): (p: nat)
    ensures p > 0
  {
    if w == 0 then 1 else 256 * Pow256(w - 1)
  }
}
