/** The two JavaScript conversions between strings and numbers that the
    service relies on, restricted to whole decimal numbers: `Number(s)` when
    the validator reads its input, and the decimal text of a count when the
    controller writes its message. */
module JsNumbers {
  import opened Results

  predicate IsDigit(c: char) {
    '0' <= c <= '9'
  }

  predicate AllDigits(s: string) {
    forall i | 0 <= i < |s| :: IsDigit(s[i])
  }

  function DigitChar(d: nat): char
    requires d <= 9
  {
    ('0' as int + d) as char
  }

  function DigitValue(c: char): nat
    requires IsDigit(c)
  {
    c as int - '0' as int
  }

  /** The number a string of decimal digits denotes, most significant first. */
  function DecimalValue(s: string): nat
    requires AllDigits(s)
  {
    if |s| == 0 then 0 else 10 * DecimalValue(s[..|s| - 1]) + DigitValue(s[|s| - 1])
  }

  /** `Number(s)` for an optional sign followed by decimal digits; every other
      string stands for NaN and gives `None`. */
  function ToNumber(s: string): Option<int> {
    if |s| > 0 && (s[0] == '-' || s[0] == '+') then
      if |s| > 1 && AllDigits(s[1..]) then
        var magnitude: int := DecimalValue(s[1..]);
        Some(if s[0] == '-' then -magnitude else magnitude)
      else None
    else if |s| > 0 && AllDigits(s) then Some(DecimalValue(s))
    else None
  }

  /** The decimal text of a count, as a template literal prints it: no sign and
      no leading zero. */
  function FromNumber(n: nat): (s: string)
    ensures |s| > 0 && AllDigits(s)
    ensures n > 0 ==> s[0] != '0'
    decreases n
  {
    if n < 10 then [DigitChar(n)] else FromNumber(n / 10) + [DigitChar(n % 10)]
  }

  /** Reading back the decimal text of a count gives the count. */
  lemma {:induction false} DecimalRoundTrip(n: nat)
    ensures DecimalValue(FromNumber(n)) == n
    decreases n
  {
    if n >= 10 {
      var s := FromNumber(n);
      assert s[..|s| - 1] == FromNumber(n / 10);
      DecimalRoundTrip(n / 10);
    }
  }

  lemma NumberOfDecimal(n: nat)
    ensures ToNumber(FromNumber(n)) == Some(n)
  {
    DecimalRoundTrip(n);
  }
}
