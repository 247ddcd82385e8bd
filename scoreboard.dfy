// The scoreboard's three-digit display of a counter (mines left, seconds).
module Scoreboard {
  import opened JsMath

  function Pow10(n: nat): (p: nat)
    ensures p >= 1
  {
    if n == 0 then 1 else 10 * Pow10(n - 1)
  }

  /** The digit shown at position digitIndex (0 = units):
      `Math.floor(value / 10 ** digitIndex) % 10`, then 9 when the value is
      above 999 and 0 when it is negative. */
  function Digit(value: int, digitIndex: nat): (digit: int)
    ensures 0 <= digit <= 9
  {
    var raw := JsRem(value / Pow10(digitIndex), 10);
    if value < 0 then 0 else if value > 999 then 9 else raw
  }

  /** The three icons, hundreds first. */
  function Display(value: int): (ds: seq<int>)
    ensures |ds| == 3
  {
    [Digit(value, 2), Digit(value, 1), Digit(value, 0)]
  }

  /** The number the display reads. */
  function Reading(ds: seq<int>): int
    requires |ds| == 3
  {
    100 * ds[0] + 10 * ds[1] + ds[2]
  }

  /** Inside 0..999 each digit is the decimal digit of the value. */
  lemma DigitIsDecimal(value: int, digitIndex: nat)
    requires 0 <= value <= 999
    ensures Digit(value, digitIndex) == (value / Pow10(digitIndex)) % 10
  {
    DivNonneg(value, Pow10(digitIndex));
  }

  /** The display reads the value clamped to 0..999: a negative counter shows
      000 and a value above 999 shows 999. */
  lemma DisplayReadsClamped(value: int)
    ensures Reading(Display(value)) == if value < 0 then 0 else if value > 999 then 999 else value
  {
    assert Pow10(0) == 1 && Pow10(1) == 10 && Pow10(2) == 100;
    if 0 <= value <= 999 {
      // value == 100 * a + 10 * b + c with a, b, c decimal digits
      var a, r := value / 100, value % 100;
      DivFacts(value, 100);
      var b, c := r / 10, r % 10;
      DivFacts(r, 10);
      DigitIsDecimal(value, 0);
      DigitIsDecimal(value, 1);
      DigitIsDecimal(value, 2);
      DivUnique(value, 10, 10 * a + b, c);
      DivUnique(10 * a + b, 10, a, b);
      DivUnique(a, 10, 0, a);
    }
  }
}
