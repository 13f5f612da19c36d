/**
  The two text primitives the scraper reads markup with: `re.findall` of an
  attribute pattern `name="\d+"` over serialized HTML (tweet ids in
  `process_html`, stat counts in `process_tweet`), and Python's
  `str.strip(chars)` that cuts each match down to its digits.
*/
module Scan {
  import opened Wrappers
  import opened Decimal

  /**
    Length of the longest prefix of `s` whose characters satisfy `p`: what a
    greedy character class with `+` or `*` consumes.
  */
  function RunLength(s: string, p: char -> bool): (n: nat)
    ensures n <= |s|
    ensures forall i | 0 <= i < n :: p(s[i])
    ensures n < |s| ==> !p(s[n])
    decreases |s|
  {
    if s == [] || !p(s[0]) then 0 else 1 + RunLength(s[1..], p)
  }

  /** The run of `a + b` is exactly `a` when `a` is all in the class and `b` does not start in it. */
  lemma {:induction false} RunLengthOf(a: string, b: string, p: char -> bool)
    requires forall i | 0 <= i < |a| :: p(a[i])
    requires b == [] || !p(b[0])
    ensures RunLength(a + b, p) == |a|
    decreases |a|
  {
    if a == [] {
      assert a + b == b;
    } else {
      assert (a + b)[0] == a[0];
      assert (a + b)[1..] == a[1..] + b;
      RunLengthOf(a[1..], b, p);
    }
  }

  /** No character of `s` is a digit. */
  predicate NoDigits(s: string) {
    forall i | 0 <= i < |s| :: !IsDigit(s[i])
  }

  /** The text `name="` that opens an attribute value. */
  function Opening(name: string): string {
    name + "=\""
  }

  /** `m` is one match of the pattern `name="\d+"`. */
  predicate IsAttrMatch(name: string, m: string) {
    var k := |Opening(name)|;
    |m| > k + 1 && m[..k] == Opening(name) && m[|m| - 1] == '"' && IsDigits(m[k..|m| - 1])
  }

  /** The digits between the quotes of a match. */
  function AttrValue(name: string, m: string): string
    requires IsAttrMatch(name, m)
  {
    m[|Opening(name)|..|m| - 1]
  }

  /**
    The pattern `name="\d+"` tried at the start of `s`, giving the length of
    the match if there is one.  `\d+` is greedy and must be followed by a
    quote, which no digit is, so only the longest digit run can match.
  */
  function MatchAt(name: string, s: string): (r: Option<nat>)
    ensures r.Some? ==> 0 < r.value <= |s| && IsAttrMatch(name, s[..r.value])
  {
    var k := |Opening(name)|;
    if |s| < k || s[..k] != Opening(name) then None
    else
      var n := RunLength(s[k..], IsDigit);
      if 0 < n && k + n < |s| && s[k + n] == '"' then
        assert s[..k + n + 1][k..k + n] == s[k..][..n];
        Some(k + n + 1)
      else None
  }

  /** Whenever `s` starts with a match, `MatchAt` finds all of it. */
  lemma MatchAtFinds(name: string, m: string, rest: string)
    requires IsAttrMatch(name, m)
    ensures MatchAt(name, m + rest) == Some(|m|)
  {
    var k := |Opening(name)|;
    var s := m + rest;
    var d := m[k..|m| - 1];
    assert s[..k] == m[..k];
    assert s[k..] == d + (['"'] + rest);
    RunLengthOf(d, ['"'] + rest, IsDigit);
    assert s[k + |d|] == m[|m| - 1];
  }

  /**
    Python's `re.findall(name + "=\"\d+\"", s)`: the non-overlapping matches
    of the pattern, scanning `s` from left to right and resuming after each
    match.
  */
  function FindAll(name: string, s: string): (r: seq<string>)
    ensures forall i | 0 <= i < |r| :: IsAttrMatch(name, r[i])
    decreases |s|
  {
    if s == [] then []
    else
      match MatchAt(name, s)
      case Some(n) => [s[..n]] + FindAll(name, s[n..])
      case None => FindAll(name, s[1..])
  }

  /** Python's `s.lstrip(chars)`. */
  function LStrip(chars: string, s: string): (r: string)
    decreases |s|
  {
    if s != [] && s[0] in chars then LStrip(chars, s[1..]) else s
  }

  /** Python's `s.rstrip(chars)`. */
  function RStrip(chars: string, s: string): (r: string)
    decreases |s|
  {
    if s != [] && s[|s| - 1] in chars then RStrip(chars, s[..|s| - 1]) else s
  }

  /** Python's `s.strip(chars)`: `chars` is a set of characters, not a prefix. */
  function Strip(chars: string, s: string): string {
    RStrip(chars, LStrip(chars, s))
  }

  lemma {:induction false} LStripPrefix(chars: string, a: string, b: string)
    requires forall i | 0 <= i < |a| :: a[i] in chars
    ensures LStrip(chars, a + b) == LStrip(chars, b)
    decreases |a|
  {
    if a != [] {
      assert (a + b)[0] == a[0] && a[0] in chars;
      assert LStrip(chars, a + b) == LStrip(chars, (a + b)[1..]);
      assert (a + b)[1..] == a[1..] + b;
      LStripPrefix(chars, a[1..], b);
    } else {
      assert a + b == b;
    }
  }

  /**
    Stripping the characters of `name="` from a match leaves exactly its
    digits, provided the opening holds no digit: the strip stops at the
    first and at the last digit from either side.
  */
  lemma StripMatch(name: string, m: string)
    requires IsAttrMatch(name, m) && NoDigits(Opening(name))
    ensures Strip(Opening(name), m) == AttrValue(name, m)
  {
    var o := Opening(name);
    var d := AttrValue(name, m);
    var tail := d + "\"";
    assert m == o + tail;
    assert forall i | 0 <= i < |o| :: o[i] in o;
    LStripPrefix(o, o, tail);
    forall j | 0 <= j < |o|
      ensures o[j] != d[0] && o[j] != d[|d| - 1]
    {
      assert !IsDigit(o[j]);
    }
    assert tail[0] == d[0];
    assert LStrip(o, tail) == tail;
    assert '"' in o by { assert o[|o| - 1] == '"'; }
    assert tail[..|tail| - 1] == d;
    assert tail[|tail| - 1] == '"';
    assert RStrip(o, tail) == RStrip(o, d);
    assert d[|d| - 1] !in o;
  }

  /**
    `[x.strip(name + "=\"") for x in re.findall(name + "=\"\d+\"", s)]`: the
    values of the attribute `name` in document order.
  */
  function ExtractValues(name: string, s: string): seq<string> {
    var ms := FindAll(name, s);
    seq(|ms|, i requires 0 <= i < |ms| => Strip(Opening(name), ms[i]))
  }

  /** Every extracted value is the digit string of the corresponding match, in the same order. */
  lemma ExtractedValues(name: string, s: string)
    requires NoDigits(Opening(name))
    ensures |ExtractValues(name, s)| == |FindAll(name, s)|
    ensures forall i | 0 <= i < |ExtractValues(name, s)| ::
              && ExtractValues(name, s)[i] == AttrValue(name, FindAll(name, s)[i])
              && IsDigits(ExtractValues(name, s)[i])
  {
    var ms := FindAll(name, s);
    forall i | 0 <= i < |ms|
      ensures Strip(Opening(name), ms[i]) == AttrValue(name, ms[i])
    {
      StripMatch(name, ms[i]);
    }
  }

  /** Markup carrying the attribute `name="d" ` once for each `d` of `ds`, in order. */
  function Render(name: string, ds: seq<string>): string
    decreases |ds|
  {
    if ds == [] then "" else Opening(name) + ds[0] + "\" " + Render(name, ds[1..])
  }

  /** `findall` over rendered markup finds exactly one match per value, in order. */
  lemma {:induction false} FindAllRender(name: string, ds: seq<string>)
    requires name != [] && name[0] != ' '
    requires forall i | 0 <= i < |ds| :: IsDigits(ds[i])
    ensures |FindAll(name, Render(name, ds))| == |ds|
    ensures forall i | 0 <= i < |ds| :: FindAll(name, Render(name, ds))[i] == Opening(name) + ds[i] + "\""
    decreases |ds|
  {
    if ds != [] {
      var m := Opening(name) + ds[0] + "\"";
      var rest := Render(name, ds[1..]);
      var s := Render(name, ds);
      assert s == m + (" " + rest);
      assert m[..|Opening(name)|] == Opening(name);
      assert m[|Opening(name)|..|m| - 1] == ds[0];
      assert IsAttrMatch(name, m);
      MatchAtFinds(name, m, " " + rest);
      assert s[..|m|] == m;
      assert s[|m|..] == " " + rest;
      assert MatchAt(name, " " + rest) == None by {
        var t := " " + rest;
        if |t| >= |Opening(name)| {
          assert t[..|Opening(name)|][0] == ' ';
          assert Opening(name)[0] == name[0];
        }
      }
      assert (" " + rest)[1..] == rest;
      FindAllRender(name, ds[1..]);
    }
  }

  /** Extracting the attribute values from rendered markup gives back the values. */
  lemma ExtractRender(name: string, ds: seq<string>)
    requires name != [] && name[0] != ' ' && NoDigits(Opening(name))
    requires forall i | 0 <= i < |ds| :: IsDigits(ds[i])
    ensures ExtractValues(name, Render(name, ds)) == ds
  {
    var s := Render(name, ds);
    FindAllRender(name, ds);
    ExtractedValues(name, s);
    forall i | 0 <= i < |ds|
      ensures ExtractValues(name, s)[i] == ds[i]
    {
      var m := FindAll(name, s)[i];
      assert m == Opening(name) + ds[i] + "\"";
      assert AttrValue(name, m) == ds[i];
    }
  }
}
