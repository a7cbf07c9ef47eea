/**
  What all parts of the driver share: error numbers, word sizes, bytes and little-endian numbers.
 */
module Kernel {
  const EIO := -5
  const ENOMEM := -12
  const EINVAL := -22
  const ENOSPC := -28

  /** What the environment has for allocations: they always succeed, always fail, or either. */
  datatype Memory = Plenty | Scarce | Varying

  /** An allocation. */
  method TryAlloc(memory: Memory) returns (ok: bool)
    ensures memory == Plenty ==> ok
    ensures memory == Scarce ==> !ok
  {
    ok := *;
    if memory != Varying {
      ok := memory == Plenty;
    }
  }

  const TWO_16: nat := 0x1_0000
  const TWO_32: nat := 0x1_0000_0000
  const TWO_64: nat := 0x1_0000_0000_0000_0000

  /** A byte as a number. */
  type Byte = x: int | 0 <= x < 256

  /** A byte as its eight bits, least significant first. */
  type Octet = s: seq<bool> | |s| == 8 witness [false, false, false, false, false, false, false, false]

  /** The number that bytes hold, least significant first. */
  function Le(b: seq<Byte>): nat {
    if b == [] then 0 else b[0] + 256 * Le(b[1..])
  }

  function ToLe(x: nat, n: nat): (b: seq<Byte>)
    ensures |b| == n
  {
    if n == 0 then [] else [x % 256] + ToLe(x / 256, n - 1)
  }

  /** How many values `n` bytes have. */
  function Range(n: nat): nat {
    if n == 0 then 1 else 256 * Range(n - 1)
  }

  lemma {:induction false} LeRoundTrip(x: nat, n: nat)
    requires x < Range(n)
    ensures Le(ToLe(x, n)) == x
    decreases n
  {
    if n != 0 {
      LeRoundTrip(x / 256, n - 1);
      assert ToLe(x, n)[1..] == ToLe(x / 256, n - 1);
    }
  }

  lemma {:induction false} LeBound(b: seq<Byte>)
    ensures Le(b) < Range(|b|)
    decreases |b|
  {
    if b != [] {
      LeBound(b[1..]);
    }
  }

  lemma {:induction false} LeZeroes(b: seq<Byte>)
    requires forall i :: 0 <= i < |b| ==> b[i] == 0
    ensures Le(b) == 0
    decreases |b|
  {
    if b != [] {
      LeZeroes(b[1..]);
    }
  }

  lemma Ranges()
    ensures Range(2) == TWO_16 && Range(4) == TWO_32 && Range(8) == TWO_64
  {
    assert Range(3) == 256 * TWO_16;
    assert Range(5) == 256 * TWO_32 && Range(6) == TWO_16 * TWO_32;
  }
}
