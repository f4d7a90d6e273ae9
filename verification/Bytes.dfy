/** The fixed-width types of types.h and the vocabulary every other module shares. */
module Bytes {

  type u8 = x: int | 0 <= x < 0x100
  type u16 = x: int | 0 <= x < 0x1_0000
  type u32 = x: int | 0 <= x < 0x1_0000_0000
  type u64 = x: int | 0 <= x < 0x1_0000_0000_0000_0000

  /** The number of values of an `unsigned int` and of an `unsigned long long`. */
  const U32_SPAN: nat := 0x1_0000_0000
  const U64_SPAN: nat := 0x1_0000_0000_0000_0000

  datatype Option<+T> = None | Some(value: T)

  /** A 64-bit sum, which wraps. */
  function Add64(a: u64, b: u64): u64 {
    if a + b < U64_SPAN then a + b else a + b - U64_SPAN
  }

  function Min(a: int, b: int): int {
    if a <= b then a else b
  }

  ghost predicate Differ<T>(s: seq<T>, i: nat, j: nat)
    requires i < |s| && j < |s|
  {
    s[i] != s[j]
  }

  /** No element occurs twice. */
  ghost predicate NoDuplicates<T>(s: seq<T>) {
    forall i, j :: 0 <= i < |s| && 0 <= j < |s| && i != j ==> Differ(s, i, j)
  }
}
