/** What several components share. */
module Basics {

  datatype Option<T> = None | Some(value: T)

  type byte = x: int | 0 <= x < 256

  /** How many rows an expression evaluator handles at a time. */
  const DEFAULT_VECTOR_CAPACITY: nat := 2048

  /** How many values 32 bits can hold. */
  const UINT32_LIMIT: nat := 0x1_0000_0000

  /** Where a list lies in the data vector. */
  datatype ListEntry = ListEntry(offset: nat, size: nat)

  /** No position is selected twice. */
  predicate Distinct(sel: seq<nat>) {
    forall i, j :: 0 <= i < j < |sel| ==> sel[i] != sel[j]
  }

  function Min(x: int, y: int): int {
    if x < y then x else y
  }

  function Max(x: int, y: int): int {
    if x < y then y else x
  }

  /** Division toward zero and its remainder, which takes the sign of the dividend. */
  function TruncDiv(x: int, d: int): int
    requires d > 0
  {
    if x < 0 then -((-x) / d) else x / d
  }

  function TruncMod(x: int, d: int): (r: int)
    requires d > 0
    ensures -d < r < d
  {
    if x < 0 then -((-x) % d) else x % d
  }
}
