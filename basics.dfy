/** Units and small helpers shared by the memory-management model. */
module Basics {
  /** Size of a page and of a physical frame, in bytes (4 KiB). */
  const PAGE_SIZE: nat := 4096

  /** Bits per byte of the frame bitmap. */
  const BYTE_SIZE: nat := 8

  /** 2^64: the modulus of the kernel's `uint64_t` arithmetic. */
  const TWO_64: nat := 0x1_0000_0000_0000_0000

  datatype Option<T> = None | Some(value: T)

  /** The value an unbounded integer has once stored in a `uint64_t`. */
  function Wrap(x: int): nat
  {
    x % TWO_64
  }

  /** Adding to a value already stored in a `uint64_t` wraps like adding first. */
  lemma WrapAdd(x: int, d: int)
    ensures Wrap(Wrap(x) + d) == Wrap(x + d)
  {
    var q, p := x / TWO_64, (x + d) / TWO_64;
    assert x == q * TWO_64 + Wrap(x);
    assert x + d == p * TWO_64 + Wrap(x + d);
    assert Wrap(x) + d == (p - q) * TWO_64 + Wrap(x + d);
  }

  /** The address `i` pages past `base`, as a `uint64_t` sum. */
  lemma PageOffset(base: nat, i: nat, offset: nat)
    requires offset == i * PAGE_SIZE
    ensures Wrap(base + offset) == Wrap(base + i * PAGE_SIZE)
  {
  }
}
