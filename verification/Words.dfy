/** Machine words, and a value that may be missing. */
module Words {

  const TWO_31 := 0x8000_0000
  const TWO_64: nat := 0x1_0000_0000_0000_0000

  /** An unsigned 64-bit word: ring positions and version counters. */
  type Word64 = n: nat | n < TWO_64

  /** A signed int compared with an unsigned size is first reduced modulo 2^64. */
  function AsSize(i: int): Word64 {
    i % TWO_64
  }

  lemma SizeOfSmall(i: int)
    requires 0 <= i < TWO_64
    ensures AsSize(i) == i
  {
  }

  lemma SizeOfNegative(i: int)
    requires -TWO_31 <= i < 0
    ensures AsSize(i) == TWO_64 + i
  {
    assert (TWO_64 + i) % TWO_64 == TWO_64 + i;
  }

  /** A signed 32-bit int. */
  predicate IsInt32(i: int) {
    -TWO_31 <= i < TWO_31
  }

  function Min(a: int, b: int): int {
    if a < b then a else b
  }

  /** The least of some numbers. */
  predicate IsLeast(m: int, numbers: set<int>) {
    m in numbers && forall n :: n in numbers ==> m <= n
  }

  datatype Option<+T> = None | Some(value: T)
}
