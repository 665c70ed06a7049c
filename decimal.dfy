/** Decimal rendering of integers, as Go's `%d` verb writes them, and the facts
    that make a rendered number followed by a separator readable back. */
module Decimal {

  predicate IsDigit(ch: char) { '0' <= ch <= '9' }

  function DigitChar(d: int): (ch: char)
    requires 0 <= d < 10
    ensures IsDigit(ch)
  {
    (48 + d) as char
  }

  /** The decimal digits of `n`, most significant first, without leading zeros. */
  function Digits(n: nat): (r: string)
    ensures |r| >= 1
    ensures forall i :: 0 <= i < |r| ==> IsDigit(r[i])
    ensures r[|r| - 1] == DigitChar(n % 10)
  {
    if n < 10 then [DigitChar(n)] else Digits(n / 10) + [DigitChar(n % 10)]
  }

  /** `%d`: a minus sign for negative numbers, then the digits of the magnitude. */
  function FormatInt(n: int): (r: string)
    ensures |r| >= 1
    ensures forall i :: 0 <= i < |r| ==> IsDigit(r[i]) || (i == 0 && r[i] == '-')
    ensures r[0] == '-' <==> n < 0
  {
    if n < 0 then "-" + Digits(-n) else Digits(n)
  }

  /** Different numbers have different digit strings. */
  lemma {:induction false} DigitsInjective(a: nat, b: nat)
    requires Digits(a) == Digits(b)
    ensures a == b
  {
    var s := Digits(a);
    assert DigitChar(a % 10) == DigitChar(b % 10);
    if a >= 10 && b >= 10 {
      assert Digits(a / 10) == s[..|s| - 1] == Digits(b / 10);
      DigitsInjective(a / 10, b / 10);
    }
  }

  /** Different numbers are rendered differently by `%d`. */
  lemma FormatIntInjective(a: int, b: int)
    requires FormatInt(a) == FormatInt(b)
    ensures a == b
  {
    if a < 0 {
      assert Digits(-a) == FormatInt(a)[1..] == FormatInt(b)[1..] == Digits(-b);
      DigitsInjective(-a, -b);
    } else {
      DigitsInjective(a, b);
    }
  }

  /** Where the number at the front of `s` ends, scanning from position `i`:
      the first position that is neither a digit nor a leading minus sign. */
  function NumberEnd(s: string, i: nat): (e: nat)
    requires i <= |s|
    ensures i <= e <= |s|
    decreases |s| - i
  {
    if i < |s| && (IsDigit(s[i]) || (i == 0 && s[i] == '-')) then NumberEnd(s, i + 1) else i
  }

  /** Scanning a rendered number followed by a separator stops at the separator. */
  lemma {:induction false} NumberEndOfFormatted(a: int, x: string, i: nat)
    requires |x| >= 1 && !IsDigit(x[0]) && x[0] != '-'
    requires i <= |FormatInt(a)|
    ensures NumberEnd(FormatInt(a) + x, i) == |FormatInt(a)|
    decreases |FormatInt(a)| - i
  {
    var s := FormatInt(a) + x;
    if i < |FormatInt(a)| {
      assert s[i] == FormatInt(a)[i];
      NumberEndOfFormatted(a, x, i + 1);
    } else {
      assert s[i] == x[0];
    }
  }

  /** A rendered number followed by text that starts with a character that is
      neither a digit nor a minus sign can be split back uniquely: the number
      and the rest are both recovered. */
  lemma FormatIntThen(a: int, b: int, x: string, y: string)
    requires |x| >= 1 && !IsDigit(x[0]) && x[0] != '-'
    requires |y| >= 1 && !IsDigit(y[0]) && y[0] != '-'
    requires FormatInt(a) + x == FormatInt(b) + y
    ensures a == b && x == y
  {
    var fa, fb := FormatInt(a), FormatInt(b);
    var s := fa + x;
    NumberEndOfFormatted(a, x, 0);
    NumberEndOfFormatted(b, y, 0);
    assert fa == s[..|fa|] == fb;
    FormatIntInjective(a, b);
    assert x == s[|fa|..] == y;
  }
}
