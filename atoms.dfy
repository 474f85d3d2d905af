/**
 * The Python scalars the downloader uses as dictionary keys and as sort keys
 * (ints and strings), Python's `str()` of an int and Python's `int()` of a string.
 */
module Atoms {
  import opened Wrappers

  /** A Python int or str value used as a dictionary key or sorted. */
  datatype Atom = AInt(i: int) | AStr(s: string)

  predicate IsDigit(c: char) { '0' <= c <= '9' }

  /** Whitespace that `int()` strips from both ends of its argument. */
  predicate IsSpace(c: char)
  {
    c == ' ' || c == '\t' || c == '\n' || c == '\r' || c as int == 11 || c as int == 12
  }

  predicate AllDigits(s: string) { |s| > 0 && forall c :: c in s ==> IsDigit(c) }

  function Digit(d: nat): (c: char)
    requires d < 10
    ensures IsDigit(c) && c as int - '0' as int == d
  {
    (d + '0' as int) as char
  }

  /** Decimal digits of `n`, most significant first, with no leading zero. */
  function NatToStr(n: nat): (s: string)
    ensures AllDigits(s)
    ensures s[0] == '0' ==> n == 0
    decreases n
  {
    if n < 10 then [Digit(n)] else NatToStr(n / 10) + [Digit(n % 10)]
  }

  /** Python's `str(i)` for an int `i`. */
  function IntToStr(i: int): string
  {
    if i < 0 then "-" + NatToStr(-i) else NatToStr(i)
  }

  /** The value of a run of decimal digits. */
  function DigitsValue(s: string): nat
    requires forall c :: c in s ==> IsDigit(c)
  {
    if s == [] then 0
    else
      assert s[|s| - 1] in s;
      DigitsValue(s[..|s| - 1]) * 10 + DigitValue(s[|s| - 1])
  }

  function DigitValue(c: char): nat
    requires IsDigit(c)
  {
    c as int - '0' as int
  }

  function StripLeft(s: string): string
  {
    if s != [] && IsSpace(s[0]) then StripLeft(s[1..]) else s
  }

  function StripRight(s: string): string
  {
    if s != [] && IsSpace(s[|s| - 1]) then StripRight(s[..|s| - 1]) else s
  }

  /**
   * Python's `int(text)` in base 10: surrounding whitespace is ignored, an
   * optional sign is followed by one or more decimal digits; anything else
   * raises ValueError, here `None`.
   */
  function ParseInt(text: string): Option<int>
  {
    var t := StripRight(StripLeft(text));
    if |t| > 1 && t[0] == '-' && AllDigits(t[1..]) then Some(0 - DigitsValue(t[1..]))
    else if |t| > 1 && t[0] == '+' && AllDigits(t[1..]) then Some(DigitsValue(t[1..]))
    else if AllDigits(t) then Some(DigitsValue(t))
    else None
  }

  lemma {:induction false} DigitsValueOfNatToStr(n: nat)
    ensures DigitsValue(NatToStr(n)) == n
    decreases n
  {
    if n >= 10 {
      var s := NatToStr(n);
      assert s[..|s| - 1] == NatToStr(n / 10);
      DigitsValueOfNatToStr(n / 10);
    }
  }

  lemma StripUnpadded(s: string)
    requires s != [] && !IsSpace(s[0]) && !IsSpace(s[|s| - 1])
    ensures StripRight(StripLeft(s)) == s
  {
  }

  /** `int()` reads back the digits of a non-negative int. */
  lemma ParseIntOfNatToStr(n: nat)
    ensures ParseInt(NatToStr(n)) == Some(n)
  {
    var s := NatToStr(n);
    assert s[0] in s && s[|s| - 1] in s;
    StripUnpadded(s);
    DigitsValueOfNatToStr(n);
    assert IsDigit(s[0]);
  }

  /** `int()` reads back a minus sign followed by the digits of the magnitude. */
  lemma ParseIntOfNegative(i: int)
    requires i < 0
    ensures ParseInt("-" + NatToStr(-i)) == Some(i)
  {
    var d := NatToStr(-i);
    var s := "-" + d;
    assert s[1..] == d;
    assert s[|s| - 1] == d[|d| - 1] && d[|d| - 1] in d;
    StripUnpadded(s);
    DigitsValueOfNatToStr(-i);
    assert |s| > 1 && s[0] == '-' && AllDigits(s[1..]);
  }

  /** `int(str(i)) == i`: the text `str()` produces is read back by `int()`. */
  lemma ParseIntOfIntToStr(i: int)
    ensures ParseInt(IntToStr(i)) == Some(i)
  {
    if i < 0 {
      ParseIntOfNegative(i);
    } else {
      ParseIntOfNatToStr(i);
    }
  }

  /** Distinct ints have distinct decimal texts. */
  lemma IntToStrInjective(a: int, b: int)
    requires IntToStr(a) == IntToStr(b)
    ensures a == b
  {
    ParseIntOfIntToStr(a);
    ParseIntOfIntToStr(b);
  }
}
