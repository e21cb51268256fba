/**
 * Bit tests on two's-complement integers, written with halving only: bit k
 * of x is the parity of x halved k times (floor division), which is what
 * `(x & (1 << k)) != 0` tests in C for either sign of x.
 */
module Bits {

  /** x halved k times: the arithmetic shift `x >> k`. */
  function Shift(x: int, k: nat): int
    decreases k
  {
    if k == 0 then x else Shift(x / 2, k - 1)
  }

  /** `(x & (1 << k)) != 0`. */
  predicate HasBit(x: int, k: nat)
  {
    Shift(x, k) % 2 == 1
  }

  /** A C truth value as the 0 or 1 stored in a one-bit field. */
  function BitValue(b: bool): (v: nat)
    ensures v <= 1
  {
    if b then 1 else 0
  }

  /** The number whose binary digits, lowest first, are `bits`. */
  function FromBits(bits: seq<bool>): nat
    decreases |bits|
  {
    if bits == [] then 0 else BitValue(bits[0]) + 2 * FromBits(bits[1..])
  }

  lemma {:induction false} ShiftOfZero(k: nat)
    ensures Shift(0, k) == 0
    decreases k
  {
    if k > 0 {
      ShiftOfZero(k - 1);
    }
  }

  /** Bit k of the number built from `bits` is `bits[k]`, and every bit past the last digit is clear. */
  lemma {:induction false} FromBitsHasBits(bits: seq<bool>, k: nat)
    ensures HasBit(FromBits(bits), k) == (k < |bits| && bits[k])
    decreases |bits|
  {
    if bits == [] {
      ShiftOfZero(k);
    } else if k > 0 {
      assert FromBits(bits) / 2 == FromBits(bits[1..]);
      FromBitsHasBits(bits[1..], k - 1);
    }
  }
}
