/** The failure-compatible Option used across the model. */
module Wrappers {
  datatype Option<T> = None | Some(value: T)
}

/**
 * Decimal text for integers: the server turns each numeric run parameter into
 * text with JavaScript's `String(n)`, and every executable turns its numeric
 * arguments back into integers with C++ `stoi`. `FromInt` models the first for
 * integers, `Parse` models the second on well-formed decimal text.
 */
module Decimal {
  import opened Wrappers

  predicate IsDigit(c: char) { '0' <= c <= '9' }

  /** Non-empty text made only of decimal digits. */
  predicate IsDigits(s: string) {
    |s| > 0 && forall i :: 0 <= i < |s| ==> IsDigit(s[i])
  }

  function DigitChar(d: nat): (c: char)
    requires d < 10
    ensures IsDigit(c) && c as int - '0' as int == d
  {
    ('0' as int + d) as char
  }

  /** The digits of `n`, most significant first, without leading zeros. */
  function NatToString(n: nat): (s: string)
    ensures IsDigits(s)
    ensures |s| > 1 ==> s[0] != '0'
    decreases n
  {
    if n < 10 then [DigitChar(n)] else NatToString(n / 10) + [DigitChar(n % 10)]
  }

  /** `String(n)` for an integer `n`. */
  function FromInt(n: int): string {
    if n < 0 then "-" + NatToString(-n) else NatToString(n)
  }

  /** The value of a digit string, read most significant digit first. */
  function DigitsValue(s: string): nat
    requires IsDigits(s)
    decreases |s|
  {
    var d := s[|s| - 1] as int - '0' as int;
    if |s| == 1 then d else DigitsValue(s[..|s| - 1]) * 10 + d
  }

  /**
   * `stoi` on decimal text: an optional minus sign followed by digits. Any other
   * text makes `stoi` throw, which ends the executable; that is `None` here.
   */
  function Parse(s: string): (r: Option<int>)
    ensures r.Some? <==> IsDigits(s) || (|s| > 1 && s[0] == '-' && IsDigits(s[1..]))
    ensures r.Some? && IsDigits(s) ==> r.value >= 0
  {
    if |s| > 0 && s[0] == '-' then
      if IsDigits(s[1..]) then Some(-(DigitsValue(s[1..]) as int)) else None
    else if IsDigits(s) then Some(DigitsValue(s))
    else None
  }

  lemma {:induction false} NatRoundTrip(n: nat)
    ensures DigitsValue(NatToString(n)) == n
    decreases n
  {
    if n >= 10 {
      NatRoundTrip(n / 10);
      var s := NatToString(n);
      assert s[..|s| - 1] == NatToString(n / 10);
    }
  }

  /** Every integer the server writes as text is read back unchanged by `stoi`. */
  lemma ParseFromInt(n: int)
    ensures Parse(FromInt(n)) == Some(n)
  {
    if n < 0 {
      NatRoundTrip(-n);
      assert FromInt(n)[1..] == NatToString(-n);
    } else {
      NatRoundTrip(n);
    }
  }

  /** Distinct integers are written as distinct texts. */
  lemma FromIntInjective(m: int, n: int)
    requires FromInt(m) == FromInt(n)
    ensures m == n
  {
    ParseFromInt(m);
    ParseFromInt(n);
  }
}
