/** Decimal digits, as characters and as numbers. */
module DecimalDigits {

  predicate IsDigit(c: char) {
    '0' <= c <= '9'
  }

  function DigitOf(c: char): (d: int)
    ensures IsDigit(c) ==> 0 <= d <= 9
  {
    c as int - '0' as int
  }

  predicate AreDigits(s: seq<int>) {
    forall k :: 0 <= k < |s| ==> 0 <= s[k] <= 9
  }

  function Pow10(n: nat): (r: nat)
    ensures r > 0
  {
    if n == 0 then 1 else 10 * Pow10(n - 1)
  }
}
