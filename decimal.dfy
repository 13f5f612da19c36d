/**
  Decimal text and integers, as Python's `int(...)` and `str(...)` convert
  between them.  The scraper reads tweet ids, stat counts and stream
  positions out of markup with `int`, writes positions into URLs with `str`,
  and the CLI parses its numeric options with `int`.
*/
module Decimal {
  import opened Wrappers

  /** What `\d` matches in a pattern without the UNICODE flag: an ASCII digit. */
  predicate IsDigit(c: char) {
    '0' <= c <= '9'
  }

  /** A non-empty run of ASCII digits, what `\d+` matches. */
  predicate IsDigits(s: string) {
    |s| > 0 && forall i | 0 <= i < |s| :: IsDigit(s[i])
  }

  /** The whitespace Python's `int` tolerates around a number. */
  predicate IsSpace(c: char) {
    c == ' ' || '\t' <= c <= '\r'
  }

  function DigitValue(c: char): (d: nat)
    requires IsDigit(c)
    ensures d < 10
  {
    c as int - '0' as int
  }

  function DigitChar(d: nat): (c: char)
    requires d < 10
    ensures IsDigit(c) && DigitValue(c) == d
  {
    ('0' as int + d) as char
  }

  /** `int(s)` for a string made only of digits (the empty string reads as 0). */
  function Value(s: string): nat
    requires forall i | 0 <= i < |s| :: IsDigit(s[i])
    decreases |s|
  {
    if s == [] then 0 else 10 * Value(s[..|s| - 1]) + DigitValue(s[|s| - 1])
  }

  /** `str(n)` for a natural number: its shortest decimal spelling. */
  function Digits(n: nat): (r: string)
    ensures IsDigits(r)
    ensures |r| > 1 ==> r[0] != '0'
    decreases n
  {
    if n < 10 then [DigitChar(n)] else Digits(n / 10) + [DigitChar(n % 10)]
  }

  /** Reading back what `str` wrote gives the number again. */
  lemma {:induction false} ValueOfDigits(n: nat)
    ensures Value(Digits(n)) == n
    decreases n
  {
    if n >= 10 {
      var d := Digits(n / 10);
      var s := d + [DigitChar(n % 10)];
      assert s[..|s| - 1] == d;
      ValueOfDigits(n / 10);
    }
  }

  /** `str(i)` for any integer: a minus sign before the digits of a negative number. */
  function IntToString(i: int): (r: string)
  {
    if i < 0 then "-" + Digits(-i) else Digits(i)
  }

  /** Drops the whitespace that `int` ignores at the start of its argument. */
  function DropLeadingSpace(s: string): (r: string)
    ensures |r| <= |s| && r == s[|s| - |r|..]
    ensures r == [] || !IsSpace(r[0])
    decreases |s|
  {
    if s != [] && IsSpace(s[0]) then DropLeadingSpace(s[1..]) else s
  }

  /** Drops the whitespace that `int` ignores at the end of its argument. */
  function DropTrailingSpace(s: string): (r: string)
    ensures |r| <= |s| && r == s[..|r|]
    ensures r == [] || !IsSpace(r[|r| - 1])
    decreases |s|
  {
    if s != [] && IsSpace(s[|s| - 1]) then DropTrailingSpace(s[..|s| - 1]) else s
  }

  /**
    Python 2's `int(s)` on a string: optional surrounding whitespace, an
    optional sign directly before the digits, then at least one digit.
    Anything else raises `ValueError`, modelled as `None`.
  */
  function ParseInt(s: string): (r: Option<int>)
  {
    var t := DropTrailingSpace(DropLeadingSpace(s));
    if |t| > 0 && (t[0] == '-' || t[0] == '+') then
      if IsDigits(t[1..]) then
        var v: int := Value(t[1..]);
        Some(if t[0] == '-' then -v else v)
      else None
    else if IsDigits(t) then Some(Value(t))
    else None
  }

  /** A string with no whitespace at either end is what `int` goes on to read. */
  lemma TrimUnspaced(s: string)
    requires s != [] && !IsSpace(s[0]) && !IsSpace(s[|s| - 1])
    ensures DropTrailingSpace(DropLeadingSpace(s)) == s
  {
  }

  /** `int(str(i)) == i`: the decimal spelling of an integer parses back to it. */
  lemma ParseIntToString(i: int)
    ensures ParseInt(IntToString(i)) == Some(i)
  {
    var s := IntToString(i);
    if i < 0 {
      var d := Digits(-i);
      assert s == "-" + d;
      assert IsDigit(d[|d| - 1]);
      TrimUnspaced(s);
      assert s[1..] == d;
      ValueOfDigits(-i);
      ParseSigned(s, d);
    } else {
      var d := Digits(i);
      assert IsDigit(d[0]) && IsDigit(d[|d| - 1]);
      TrimUnspaced(d);
      ValueOfDigits(i);
      ParseUnsigned(d);
    }
  }

  lemma ParseSigned(s: string, d: string)
    requires DropTrailingSpace(DropLeadingSpace(s)) == s
    requires s == "-" + d && IsDigits(d)
    ensures ParseInt(s) == Some(0 - Value(d))
  {
    assert s[1..] == d;
  }

  lemma ParseUnsigned(d: string)
    requires DropTrailingSpace(DropLeadingSpace(d)) == d
    requires IsDigits(d)
    ensures ParseInt(d) == Some(Value(d))
  {
    assert d[0] != '-' && d[0] != '+';
  }
}
