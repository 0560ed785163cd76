/**
 Shared vocabulary of the performance model: the size_t domain, the status
 codes the C functions return, an Option type, and the conversion of a real
 crossover point back to a size.
 */
module Basics {

  /** Largest value of a 64-bit size_t; every segment bound lies in [0, SizeMax]. */
  const SizeMax: nat := 0xFFFF_FFFF_FFFF_FFFF

  /** Unsigned size_t addition as C performs it: modulo 2^64. */
  function WrapAdd(a: nat, b: nat): (r: nat)
    requires a <= SizeMax && b <= SizeMax
    ensures r <= SizeMax
    ensures a + b <= SizeMax ==> r == a + b
    ensures a + b > SizeMax ==> r == a + b - (SizeMax + 1)
  {
    if a + b <= SizeMax then a + b else a + b - (SizeMax + 1)
  }

  /** The subset of ucs_status_t values the modelled code returns. */
  datatype Status = Ok | NoMemory | Unsupported | Fatal

  datatype Option<+T> = None | Some(value: T)

  /**
   ucs_double_to_sizet(x, SIZE_MAX): the helper is not part of this model; it
   is taken to round a non-negative double down and clamp it to SizeMax.
   */
  function DoubleToSize(x: real): (r: nat)
    requires x >= 0.0
    ensures r <= SizeMax
    ensures x < SizeMax as real ==> r as real <= x < r as real + 1.0
    ensures x >= SizeMax as real ==> r == SizeMax
  {
    if x >= SizeMax as real then SizeMax else x.Floor
  }

  function Min(a: nat, b: nat): nat { if a <= b then a else b }
  function Max(a: nat, b: nat): nat { if a >= b then a else b }
}
