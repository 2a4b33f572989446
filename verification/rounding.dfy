/** Python's built-in `round` applied to a real number. */
module Rounding {

  /** `round(x)` with no digit count: the nearest integer, and at an exact
      half the even neighbour ("banker's rounding"). */
  function RoundHalfEven(x: real): (r: int)
    ensures x - 0.5 <= r as real <= x + 0.5
    ensures (r as real == x - 0.5 || r as real == x + 0.5) ==> r % 2 == 0
  {
    var f := x.Floor;
    var frac := x - f as real;
    if frac < 0.5 then f
    else if frac > 0.5 then f + 1
    else if f % 2 == 0 then f else f + 1
  }

  /** The two properties in the contract of RoundHalfEven pin the result down:
      any integer within one half of `x`, even at a tie, is that result. */
  lemma RoundHalfEvenUnique(x: real, k: int)
    requires x - 0.5 <= k as real <= x + 0.5
    requires (k as real == x - 0.5 || k as real == x + 0.5) ==> k % 2 == 0
    ensures RoundHalfEven(x) == k
  {
  }

  /** Rounding keeps integers fixed. */
  lemma RoundOfInteger(n: int)
    ensures RoundHalfEven(n as real) == n
  {
  }

  /** Rounding is monotone. */
  lemma RoundMonotone(x: real, y: real)
    requires x <= y
    ensures RoundHalfEven(x) <= RoundHalfEven(y)
  {
    if x < y {
      var a, b := RoundHalfEven(x), RoundHalfEven(y);
      assert a as real - b as real <= (x + 0.5) - (y - 0.5);
    }
  }
}
