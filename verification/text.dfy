/** The string operations the scraper borrows from Python: strip, lower, `in`, int() and str(). */
module Text {
  import opened Outcomes

  /** Python's `str.isspace()` for one character. */
  predicate IsSpace(c: char) {
    ('\t' <= c <= '\r') || ('\U{1C}' <= c <= '\U{1F}') || c == ' ' || c == '\U{85}' || c == '\U{A0}'
    || c == '\U{1680}' || ('\U{2000}' <= c <= '\U{200A}') || c == '\U{2028}' || c == '\U{2029}'
    || c == '\U{202F}' || c == '\U{205F}' || c == '\U{3000}'
  }

  /** The number of whitespace characters at the front of `s`. */
  function LeadingSpaces(s: string): (n: nat)
    ensures n <= |s|
    ensures forall i :: 0 <= i < n ==> IsSpace(s[i])
    ensures n < |s| ==> !IsSpace(s[n])
  {
    if |s| > 0 && IsSpace(s[0]) then 1 + LeadingSpaces(s[1..]) else 0
  }

  /** The number of whitespace characters at the back of `s`. */
  function TrailingSpaces(s: string): (n: nat)
    ensures n <= |s|
    ensures forall i :: |s| - n <= i < |s| ==> IsSpace(s[i])
    ensures n < |s| ==> !IsSpace(s[|s| - 1 - n])
  {
    if |s| > 0 && IsSpace(s[|s| - 1]) then 1 + TrailingSpaces(s[..|s| - 1]) else 0
  }

  /** Python's `str.strip()` with no argument. */
  function Strip(s: string): (r: string)
    ensures |r| <= |s|
    ensures r == [] || (!IsSpace(r[0]) && !IsSpace(r[|r| - 1]))
    ensures (forall i :: 0 <= i < |s| ==> IsSpace(s[i])) ==> r == []
    ensures |s| > 0 && !IsSpace(s[0]) && !IsSpace(s[|s| - 1]) ==> r == s
    ensures Trimmed(s, r)
  {
    var a := LeadingSpaces(s);
    var t := s[a..];
    var b := |t| - TrailingSpaces(t);
    assert t[..b] == s[a..a + b];
    assert Around(s, a, a + b);
    t[..b]
  }

  /** Everything in `s` before position `i` and from position `j` on is whitespace. */
  predicate Around(s: string, i: nat, j: nat)
    requires i <= j <= |s|
  {
    (forall k :: 0 <= k < i ==> IsSpace(s[k])) && (forall k :: j <= k < |s| ==> IsSpace(s[k]))
  }

  /** `r` is a contiguous piece of `s`, and only whitespace of `s` lies outside it. */
  predicate Trimmed(s: string, r: string) {
    exists i, j :: 0 <= i <= j <= |s| && r == s[i..j] && Around(s, i, j)
  }

  /** Python's `str.lower()` on one character (ASCII letters only). */
  function LowerChar(c: char): char {
    if 'A' <= c <= 'Z' then (c as int + 32) as char else c
  }

  /** Python's `str.lower()` (ASCII letters only). */
  function Lower(s: string): string {
    seq(|s|, i requires 0 <= i < |s| => LowerChar(s[i]))
  }

  /** Python's `sub in s` on strings: `sub` occurs at some position of `s`. */
  predicate Contains(s: string, sub: string)
    decreases |s|
  {
    sub <= s || (|s| > 0 && Contains(s[1..], sub))
  }

  predicate IsDigit(c: char) {
    '0' <= c <= '9'
  }

  predicate AllDigits(s: string) {
    forall i :: 0 <= i < |s| ==> IsDigit(s[i])
  }

  function DigitValue(c: char): nat
    requires IsDigit(c)
  {
    c as int - '0' as int
  }

  function DigitChar(d: nat): (c: char)
    requires d < 10
    ensures IsDigit(c) && DigitValue(c) == d
  {
    ('0' as int + d) as char
  }

  /** The number a string of decimal digits denotes. */
  function DigitsValue(s: string): nat
    requires AllDigits(s)
  {
    if s == [] then 0 else 10 * DigitsValue(s[..|s| - 1]) + DigitValue(s[|s| - 1])
  }

  /** Python's `str(n)` for a natural number. */
  function Decimal(n: nat): (r: string)
    ensures |r| >= 1 && AllDigits(r)
  {
    if n < 10 then [DigitChar(n)] else Decimal(n / 10) + [DigitChar(n % 10)]
  }

  /** Python's `f"{n:02d}"`: at least two digits, zero-padded. */
  function ZeroPad2(n: nat): (r: string)
    ensures AllDigits(r)
  {
    if n < 10 then "0" + Decimal(n) else Decimal(n)
  }

  lemma {:induction false} DecimalValue(n: nat)
    ensures DigitsValue(Decimal(n)) == n
  {
    if n >= 10 {
      DecimalValue(n / 10);
      var r := Decimal(n);
      assert r[..|r| - 1] == Decimal(n / 10);
    }
  }

  /** Below 100, `02d` gives exactly two digits and they read back as `n`. */
  lemma ZeroPad2Value(n: nat)
    requires n < 100
    ensures |ZeroPad2(n)| == 2 && DigitsValue(ZeroPad2(n)) == n
  {
    var r := ZeroPad2(n);
    if n < 10 {
      assert r == ['0', DigitChar(n)];
      assert DigitsValue(r[..1]) == 0 by {
        assert r[..1][..0] == [];
      }
    } else {
      assert Decimal(n / 10) == [DigitChar(n / 10)];
      assert r == [DigitChar(n / 10), DigitChar(n % 10)];
      assert r[..1] == [DigitChar(n / 10)];
      assert DigitsValue(r[..1]) == n / 10 by {
        assert r[..1][..0] == [];
      }
    }
  }

  /**
   * The digits of Python's int() literal: one or more decimal digits, where a single
   * underscore may separate two digits ("1_000"). Read from the back.
   */
  function DigitGroups(s: string): Option<nat>
    decreases |s|
  {
    if |s| == 0 || !IsDigit(s[|s| - 1]) then None
    else
      var init := s[..|s| - 1];
      if |init| == 0 then Some(DigitValue(s[|s| - 1]))
      else
        var body := if init[|init| - 1] == '_' then init[..|init| - 1] else init;
        match DigitGroups(body)
        case None => None
        case Some(v) => Some(10 * v + DigitValue(s[|s| - 1]))
  }

  /** Python's `int(s)` on a base-10 string: surrounding whitespace, an optional sign, digit groups. */
  function ParseInt(s: string): Option<int> {
    var t := Strip(s);
    if |t| > 0 && (t[0] == '+' || t[0] == '-') then
      match DigitGroups(t[1..])
      case None => None
      case Some(v) =>
        var signed: int := if t[0] == '-' then -(v as int) else v as int;
        Some(signed)
    else
      match DigitGroups(t)
      case None => None
      case Some(v) => Some(v)
  }

  lemma {:induction false} DigitGroupsDecimal(n: nat)
    ensures DigitGroups(Decimal(n)) == Some(n)
  {
    if n >= 10 {
      DigitGroupsDecimal(n / 10);
      var r := Decimal(n);
      assert r[..|r| - 1] == Decimal(n / 10);
    }
  }

  /** int(str(n)) == n: the parser reads back what str() writes. */
  lemma ParseIntDecimal(n: nat)
    ensures ParseInt(Decimal(n)) == Some(n)
  {
    var r := Decimal(n);
    assert !IsSpace(r[0]) && !IsSpace(r[|r| - 1]);
    assert Strip(r) == r;
    DigitGroupsDecimal(n);
  }

  /** int(s) fails on the empty string and on strings made only of whitespace. */
  lemma ParseIntBlank(s: string)
    requires forall i :: 0 <= i < |s| ==> IsSpace(s[i])
    ensures ParseInt(s) == None
  {
    assert Strip(s) == [];
  }
}
