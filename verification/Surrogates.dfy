/** Surrogates, in which two 16-bit units stand for one supplementary character. */
module Surrogates {
  import opened Utf8

  type Unit = u: int | 0 <= u < 0x10000

  predicate IsHigh(u: int) {
    0xD800 <= u <= 0xDBFF
  }

  predicate IsLow(u: int) {
    0xDC00 <= u <= 0xDFFF
  }

  type HighSurrogate = u: int | IsHigh(u) witness 0xD800

  function High(c: Scalar): Unit
    requires c >= 0x10000
  {
    0xD800 + (c - 0x10000) / 0x400
  }

  function Low(c: Scalar): Unit
    requires c >= 0x10000
  {
    0xDC00 + (c - 0x10000) % 0x400
  }

  /** The scalar of a surrogate pair. */
  function Combine(high: int, low: int): int {
    0x10000 + (high - 0xD800) * 0x400 + (low - 0xDC00)
  }

  lemma PairsAreSupplementary(high: Unit, low: Unit, c: Scalar)
    requires IsHigh(high) && IsLow(low)
    ensures 0x10000 <= Combine(high, low) < 0x110000
    ensures Combine(high, low) == c <==> c >= 0x10000 && High(c) == high && Low(c) == low
  {}
}
