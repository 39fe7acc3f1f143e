/** Fixed-width integers and the release-build arithmetic of the program's counters. */
module MachineInts {
  const TWO_TO_64: int := 0x1_0000_0000_0000_0000
  const U64_MAX: int := TWO_TO_64 - 1

  type u8 = x: int | 0 <= x < 256
  type u64 = x: int | 0 <= x < TWO_TO_64

  /** A 64-bit addition or multiplication keeps the low 64 bits of the result. */
  function Wrap(x: nat): u64 {
    if x < TWO_TO_64 then x else x % TWO_TO_64
  }

  lemma WrapShift(x: nat, k: nat)
    ensures Wrap(x + k * TWO_TO_64) == Wrap(x)
    ensures x < TWO_TO_64 ==> Wrap(x + k * TWO_TO_64) == x
  {
  }

  lemma WrapAdd(a: nat, b: nat)
    ensures Wrap(Wrap(a) + b) == Wrap(a + b)
  {
    assert a + b == (Wrap(a) + b) + (a / TWO_TO_64) * TWO_TO_64;
    WrapShift(Wrap(a) + b, a / TWO_TO_64);
  }

  function Max(a: int, b: int): int {
    if a < b then b else a
  }

  function Min(a: int, b: int): int {
    if a < b then a else b
  }
}

/** An optional value, as the program's `Option`. */
module Options {
  datatype Option<+T> = None | Some(value: T)
}
