/** Base-6 digit extraction, as both pattern codecs do it: repeatedly take
    the remainder by the radix and divide by it. */
module Radix {

  /** Number of colours, the radix of a pattern index. */
  const Colors: nat := 6

  function Pow(b: nat, e: nat): nat
  {
    if e == 0 then 1 else b * Pow(b, e - 1)
  }

  /** `x` after `k` divisions by the radix. */
  function Shift(x: nat, k: nat): nat
  {
    if k == 0 then x else Shift(x, k - 1) / Colors
  }

  /** The `k`-th base-6 digit of `x`, counting from the least significant. */
  function Digit(x: nat, k: nat): (d: nat)
    ensures d < Colors
  {
    Shift(x, k) % Colors
  }

  /** One division step of the digit extraction: a value `d + 6 * q` has
      digit `d` and leaves `q`. */
  lemma ShiftStep(x: nat, k: nat, d: nat, q: nat)
    requires d < Colors && Shift(x, k) == d + Colors * q
    ensures Digit(x, k) == d && Shift(x, k + 1) == q
  {
  }

  /** One division by the radix splits off the digit. */
  lemma ShiftSplit(x: nat, k: nat)
    ensures Shift(x, k) == Digit(x, k) + Colors * Shift(x, k + 1)
  {
  }

  /** A value below 6^4 is its four base-6 digits. */
  lemma Recompose(x: nat)
    requires x < Pow(Colors, 4)
    ensures x == Digit(x, 0) + Colors * (Digit(x, 1) + Colors * (Digit(x, 2) + Colors * Digit(x, 3)))
  {
    ShiftSplit(x, 0);
    ShiftSplit(x, 1);
    ShiftSplit(x, 2);
    ShiftSplit(x, 3);
    assert Shift(x, 1) < 216 && Shift(x, 2) < 36 && Shift(x, 3) < 6 && Shift(x, 4) == 0;
  }
}
