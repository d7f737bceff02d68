/**
 Binary numerals shared by the decoder and the output helpers: powers of two
 and the most-significant-digit-first reading of a digit sequence.
 */
module Binary {

  /** 2 to the power n. */
  function Pow2(n: nat): (r: nat)
    ensures r >= 1
  {
    if n == 0 then 1 else 2 * Pow2(n - 1)
  }

  /** The value of one digit: 1 if it is the `one` symbol, 0 otherwise. */
  function DigitValue<T(==)>(d: T, one: T): nat
  {
    if d == one then 1 else 0
  }

  /**
   The number whose binary numeral, most significant digit first, is `digits`
   (any symbol other than `one` counts as a 0 digit).
   */
  function MsbValue<T(==)>(digits: seq<T>, one: T): (v: nat)
    ensures v < Pow2(|digits|)
    decreases |digits|
  {
    if |digits| == 0 then 0
    else 2 * MsbValue(digits[..|digits| - 1], one) + DigitValue(digits[|digits| - 1], one)
  }

  /** Appending a digit shifts the value left by one and adds the digit. */
  lemma MsbValueAppend<T>(digits: seq<T>, d: T, one: T)
    ensures MsbValue(digits + [d], one) == 2 * MsbValue(digits, one) + DigitValue(d, one)
  {
    assert (digits + [d])[..|digits|] == digits;
  }
}
