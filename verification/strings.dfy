/** Character-level helpers for the text handling the model needs: ASCII
    lower-casing, substring search, the Unicode whitespace and digit classes
    of Python's `str.strip()` and `\d`, and decimal rendering of naturals. */
module Strings {

  /** Python's `str.isspace()`, the characters `str.strip()` removes, as of
      Unicode 15.0 (Python 3.12). */
  predicate IsSpace(c: char) {
    var x := c as int;
    || (9 <= x <= 13) || (28 <= x <= 32) || x == 0x85 || x == 0xA0 || x == 0x1680
    || (0x2000 <= x <= 0x200A) || x == 0x2028 || x == 0x2029 || x == 0x202F || x == 0x205F
    || x == 0x3000
  }

  /** An ASCII digit, `[0-9]`. */
  predicate IsDigit(c: char) {
    '0' <= c <= '9'
  }

  /** A decimal digit of any script (Unicode general category Nd, version
      15.0): what `\d` matches in a Python regular expression on text. */
  predicate IsDecimal(c: char) {
    var x := c as int;
    (0x30 <= x <= 0x39) || (0x660 <= x <= 0x669) || (0x6F0 <= x <= 0x6F9) || (0x7C0 <= x <= 0x7C9)
    || (0x966 <= x <= 0x96F) || (0x9E6 <= x <= 0x9EF) || (0xA66 <= x <= 0xA6F)
    || (0xAE6 <= x <= 0xAEF) || (0xB66 <= x <= 0xB6F) || (0xBE6 <= x <= 0xBEF)
    || (0xC66 <= x <= 0xC6F) || (0xCE6 <= x <= 0xCEF) || (0xD66 <= x <= 0xD6F)
    || (0xDE6 <= x <= 0xDEF) || (0xE50 <= x <= 0xE59) || (0xED0 <= x <= 0xED9)
    || (0xF20 <= x <= 0xF29) || (0x1040 <= x <= 0x1049) || (0x1090 <= x <= 0x1099)
    || (0x17E0 <= x <= 0x17E9) || (0x1810 <= x <= 0x1819) || (0x1946 <= x <= 0x194F)
    || (0x19D0 <= x <= 0x19D9) || (0x1A80 <= x <= 0x1A89) || (0x1A90 <= x <= 0x1A99)
    || (0x1B50 <= x <= 0x1B59) || (0x1BB0 <= x <= 0x1BB9) || (0x1C40 <= x <= 0x1C49)
    || (0x1C50 <= x <= 0x1C59) || (0xA620 <= x <= 0xA629) || (0xA8D0 <= x <= 0xA8D9)
    || (0xA900 <= x <= 0xA909) || (0xA9D0 <= x <= 0xA9D9) || (0xA9F0 <= x <= 0xA9F9)
    || (0xAA50 <= x <= 0xAA59) || (0xABF0 <= x <= 0xABF9) || (0xFF10 <= x <= 0xFF19)
    || (0x104A0 <= x <= 0x104A9) || (0x10D30 <= x <= 0x10D39) || (0x11066 <= x <= 0x1106F)
    || (0x110F0 <= x <= 0x110F9) || (0x11136 <= x <= 0x1113F) || (0x111D0 <= x <= 0x111D9)
    || (0x112F0 <= x <= 0x112F9) || (0x11450 <= x <= 0x11459) || (0x114D0 <= x <= 0x114D9)
    || (0x11650 <= x <= 0x11659) || (0x116C0 <= x <= 0x116C9) || (0x11730 <= x <= 0x11739)
    || (0x118E0 <= x <= 0x118E9) || (0x11950 <= x <= 0x11959) || (0x11C50 <= x <= 0x11C59)
    || (0x11D50 <= x <= 0x11D59) || (0x11DA0 <= x <= 0x11DA9) || (0x11F50 <= x <= 0x11F59)
    || (0x16A60 <= x <= 0x16A69) || (0x16AC0 <= x <= 0x16AC9) || (0x16B50 <= x <= 0x16B59)
    || (0x1D7CE <= x <= 0x1D7FF) || (0x1E140 <= x <= 0x1E149) || (0x1E2F0 <= x <= 0x1E2F9)
    || (0x1E4F0 <= x <= 0x1E4F9) || (0x1E950 <= x <= 0x1E959) || (0x1FBF0 <= x <= 0x1FBF9)
  }

  predicate IsUpperAlnum(c: char) {
    IsDigit(c) || ('A' <= c <= 'Z')
  }

  function LowerChar(c: char): char {
    if 'A' <= c <= 'Z' then (c as int + 32) as char else c
  }

  /** `s.lower()` on ASCII letters; every other character is kept. */
  function ToLower(s: string): (r: string)
    ensures |r| == |s|
    ensures forall i :: 0 <= i < |s| ==> r[i] == LowerChar(s[i])
  {
    if |s| == 0 then "" else [LowerChar(s[0])] + ToLower(s[1..])
  }

  /** `sub` occurs in `s` at position `i`. */
  predicate OccursAt(s: string, sub: string, i: int) {
    0 <= i && i + |sub| <= |s| && s[i..i + |sub|] == sub
  }

  /** Python's `sub in s`. */
  function Contains(s: string, sub: string): (b: bool)
    ensures b <==> exists i :: OccursAt(s, sub, i)
    decreases |s|
  {
    if |sub| <= |s| && s[..|sub|] == sub then
      assert OccursAt(s, sub, 0);
      true
    else if |s| == 0 then
      assert forall i :: !OccursAt(s, sub, i);
      false
    else
      var rest := Contains(s[1..], sub);
      if rest then
        var i :| OccursAt(s[1..], sub, i);
        assert s[i + 1..i + 1 + |sub|] == s[1..][i..i + |sub|];
        assert OccursAt(s, sub, i + 1);
        true
      else
        forall i | OccursAt(s, sub, i) ensures false {
          assert i != 0;
          assert s[1..][i - 1..i - 1 + |sub|] == s[i..i + |sub|];
          assert OccursAt(s[1..], sub, i - 1);
        }
        false
  }

  /** Number of leading whitespace characters. */
  function LeadingSpace(s: string): (n: nat)
    ensures n <= |s|
    ensures forall i :: 0 <= i < n ==> IsSpace(s[i])
    ensures n < |s| ==> !IsSpace(s[n])
  {
    if |s| == 0 || !IsSpace(s[0]) then 0 else 1 + LeadingSpace(s[1..])
  }

  /** Number of trailing whitespace characters. */
  function TrailingSpace(s: string): (n: nat)
    ensures n <= |s|
    ensures forall i :: |s| - n <= i < |s| ==> IsSpace(s[i])
    ensures n < |s| ==> !IsSpace(s[|s| - n - 1])
  {
    if |s| == 0 || !IsSpace(s[|s| - 1]) then 0 else 1 + TrailingSpace(s[..|s| - 1])
  }

  /** `r` is the slice of `s` starting at `i` with only whitespace around it. */
  ghost predicate SliceBetweenSpace(s: string, r: string, i: int) {
    && 0 <= i <= |s| - |r| && r == s[i..i + |r|]
    && (forall k :: 0 <= k < i ==> IsSpace(s[k]))
    && (forall k :: i + |r| <= k < |s| ==> IsSpace(s[k]))
  }

  /** `s.strip()`: the slice between the leading and trailing whitespace runs. */
  function Strip(s: string): (r: string)
    ensures exists i :: SliceBetweenSpace(s, r, i)
    ensures |r| > 0 ==> !IsSpace(r[0]) && !IsSpace(r[|r| - 1])
  {
    var a := LeadingSpace(s);
    if a == |s| then
      assert SliceBetweenSpace(s, "", |s|);
      ""
    else
      var t := s[a..];
      var b := TrailingSpace(t);
      assert !IsSpace(t[0]);
      var r := t[..|t| - b];
      assert r == s[a..a + |r|];
      assert forall k :: a + |r| <= k < |s| ==> s[k] == t[k - a];
      assert SliceBetweenSpace(s, r, a);
      r
  }

  /** Stripping is idempotent. */
  lemma StripIdempotent(s: string)
    ensures Strip(Strip(s)) == Strip(s)
  {
    var r := Strip(s);
    if |r| > 0 {
      assert LeadingSpace(r) == 0;
      assert TrailingSpace(r[0..]) == 0 by {
        assert r[0..] == r;
      }
      assert r[0..][..|r|] == r;
    }
  }

  function DigitChar(d: nat): char
    requires d < 10
  {
    ('0' as int + d) as char
  }

  /** Python's `str(n)` for a natural number. */
  function Decimal(n: nat): (r: string)
    ensures |r| > 0
    ensures forall i :: 0 <= i < |r| ==> IsDigit(r[i])
    ensures n >= 10 ==> r[0] != '0'
  {
    if n < 10 then [DigitChar(n)] else Decimal(n / 10) + [DigitChar(n % 10)]
  }

  /** Reads a run of decimal digits back as a number. */
  function ParseDecimal(s: string): (n: nat)
    requires forall i :: 0 <= i < |s| ==> IsDigit(s[i])
  {
    if |s| == 0 then 0
    else
      assert IsDigit(s[|s| - 1]);
      10 * ParseDecimal(s[..|s| - 1]) + (s[|s| - 1] as int - '0' as int)
  }

  /** Rendering then reading a year (or any natural) gives it back. */
  lemma {:induction false} DecimalRoundTrip(n: nat)
    ensures ParseDecimal(Decimal(n)) == n
  {
    if n >= 10 {
      DecimalRoundTrip(n / 10);
      var r := Decimal(n);
      assert r[..|r| - 1] == Decimal(n / 10);
    }
  }

  /** Distinct naturals render to distinct strings. */
  lemma DecimalInjective(m: nat, n: nat)
    requires Decimal(m) == Decimal(n)
    ensures m == n
  {
    DecimalRoundTrip(m);
    DecimalRoundTrip(n);
  }
}
