/** What several modules share. */
module Basics {

  datatype Option<+T> = None | Some(value: T)

  /** The character that ends a string in memory. */
  const NUL := '\0'

  function Pow2(e: nat): (p: nat)
    ensures p > 0
  {
    if e == 0 then 1 else 2 * Pow2(e - 1)
  }

  lemma Assoc<T>(a: seq<T>, b: seq<T>, c: seq<T>)
    ensures a + (b + c) == (a + b) + c
  {
  }

  lemma Product(a: nat, b: nat)
    ensures a * b >= 0
  {
  }
}
