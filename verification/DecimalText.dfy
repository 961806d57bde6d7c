/** Decimal digits in text. */
module DecimalText {

  predicate Digit(c: char) { '0' <= c <= '9' }

  /** First position from `i` on that is not a digit. */
  function SkipDigits(s: string, i: nat): (j: nat)
    requires i <= |s|
    ensures i <= j <= |s| && (forall k :: i <= k < j ==> Digit(s[k])) && (j < |s| ==> !Digit(s[j]))
    decreases |s| - i
  {
    if i == |s| || !Digit(s[i]) then i else SkipDigits(s, i + 1)
  }

  /** A number as printed, without leading zeros. */
  function Decimal(n: nat): (s: string)
    ensures |s| > 0 && forall i :: 0 <= i < |s| ==> Digit(s[i])
  {
    (if n < 10 then "" else Decimal(n / 10)) + [('0' as int + n % 10) as char]
  }
}
