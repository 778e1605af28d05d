/** Go's `uint64` arithmetic: every operation is taken modulo 2^64. */
module UInt64 {

  const Modulus: int := 0x1_0000_0000_0000_0000

  /** The largest length of a Go slice or string: `len` returns a 64-bit `int`. */
  const MaxLength: int := 0x8000_0000_0000_0000

  type u64 = x: int | 0 <= x < Modulus

  type byte = x: int | 0 <= x < 256

  /** `a + b` on uint64 operands (wraps around). */
  function Add64(a: u64, b: u64): u64
  {
    if a + b < Modulus then a + b else a + b - Modulus
  }

  /** `a - b` on uint64 operands (wraps around below zero). */
  function Sub64(a: u64, b: u64): u64
  {
    if b <= a then a - b else Modulus + a - b
  }

  /** `a * b` on uint64 operands (keeps the low 64 bits). */
  function Mul64(a: u64, b: u64): u64
  {
    (a * b) % Modulus
  }

  /** uint64 addition and subtraction are addition and subtraction modulo 2^64. */
  lemma WrapIsModular(a: u64, b: u64)
    ensures Add64(a, b) == (a + b) % Modulus
    ensures Sub64(a, b) == (a - b) % Modulus
  {
  }

  /** Without overflow, uint64 multiplication is multiplication. */
  lemma Mul64NoOverflow(a: u64, b: u64)
    requires a * b < Modulus
    ensures Mul64(a, b) == a * b
  {
  }

  /** A sum written `x0 + x1 + ... + xn` in uint64, added left to right. */
  function Sum64(xs: seq<u64>): u64
    decreases |xs|
  {
    if xs == [] then 0 else Add64(Sum64(xs[..|xs| - 1]), xs[|xs| - 1])
  }

  /** The same sum over the integers. */
  function Sum(xs: seq<u64>): nat
    decreases |xs|
  {
    if xs == [] then 0 else Sum(xs[..|xs| - 1]) + xs[|xs| - 1]
  }

  /** However many terms, a uint64 sum is the integer sum modulo 2^64. */
  lemma {:induction false} Sum64IsModular(xs: seq<u64>)
    ensures Sum64(xs) == Sum(xs) % Modulus
    decreases |xs|
  {
    if xs != [] {
      var n := |xs| - 1;
      Sum64IsModular(xs[..n]);
      AddMod(Sum(xs[..n]), xs[n]);
    }
  }

  /** Wrapping addition is addition of residues: a chain of Add64 is the sum taken once modulo 2^64. */
  lemma AddMod(a: nat, b: u64)
    ensures Add64(a % Modulus, b) == (a + b) % Modulus
  {
  }
}
