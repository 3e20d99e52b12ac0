/**
 * The pieces of JavaScript string semantics the guestbook relies on:
 * `String.prototype.trim`, `String.prototype.length` (which counts UTF-16
 * code units, not characters) and the decimal rendering of a whole number
 * inside a template literal.  A Dafny `char` is a Unicode scalar value.
 */
module JsText {

  /** ECMAScript WhiteSpace and LineTerminator code points, the set `trim` strips. */
  predicate IsWhite(c: char)
  {
    c == '\t' || c == '\n' || c == '\U{B}' || c == '\U{C}' || c == '\r' || c == ' ' ||
    c == '\U{A0}' || c == '\U{1680}' || ('\U{2000}' <= c <= '\U{200A}') ||
    c == '\U{2028}' || c == '\U{2029}' || c == '\U{202F}' || c == '\U{205F}' ||
    c == '\U{3000}' || c == '\U{FEFF}'
  }

  predicate AllWhite(s: string)
  {
    forall i :: 0 <= i < |s| ==> IsWhite(s[i])
  }

  /** The index of the first character at or after `i` that is not white space (or `|s|`). */
  function TextStart(s: string, i: nat): (a: nat)
    requires i <= |s|
    ensures i <= a <= |s|
    ensures forall k :: i <= k < a ==> IsWhite(s[k])
    ensures a < |s| ==> !IsWhite(s[a])
    decreases |s| - i
  {
    if i == |s| || !IsWhite(s[i]) then i else TextStart(s, i + 1)
  }

  /** The index just after the last character before `j` and not before `lo` that is not white space (or `lo`). */
  function TextEnd(s: string, lo: nat, j: nat): (b: nat)
    requires lo <= j <= |s|
    ensures lo <= b <= j
    ensures forall k :: b <= k < j ==> IsWhite(s[k])
    ensures b > lo ==> !IsWhite(s[b - 1])
  {
    if j == lo || !IsWhite(s[j - 1]) then j else TextEnd(s, lo, j - 1)
  }

  /** `s.trim()`: white space cut off at both ends. */
  function Trim(s: string): (r: string)
    ensures |r| <= |s|
    ensures r != [] ==> !IsWhite(r[0]) && !IsWhite(r[|r| - 1])
  {
    var a := TextStart(s, 0);
    s[a..TextEnd(s, a, |s|)]
  }

  /**
   * The trimmed string is the contiguous middle part of `s`, and everything
   * cut off on either side of it is white space.
   */
  lemma TrimCutsOnlyWhite(s: string)
    ensures var r, a := Trim(s), TextStart(s, 0);
            a + |r| <= |s| && r == s[a..a + |r|] &&
            forall i :: 0 <= i < |s| && (i < a || a + |r| <= i) ==> IsWhite(s[i])
  {
  }

  /** Trimming twice is trimming once. */
  lemma TrimIdempotent(s: string)
    ensures Trim(Trim(s)) == Trim(s)
  {
    var r := Trim(s);
    if r != [] {
      assert TextStart(r, 0) == 0;
      assert TextEnd(r, 0, |r|) == |r|;
      assert r[0..|r|] == r;
    }
  }

  /** `s.trim()` is empty exactly when `s` is made of white space only. */
  lemma TrimEmptyIffAllWhite(s: string)
    ensures Trim(s) == [] <==> AllWhite(s)
  {
    var a := TextStart(s, 0);
    var b := TextEnd(s, a, |s|);
    assert |Trim(s)| == b - a;
  }

  /** Number of UTF-16 code units of one character: two for a character outside the BMP. */
  function Utf16Units(c: char): nat
  {
    if c as int >= 0x1_0000 then 2 else 1
  }

  /** `s.length`: the number of UTF-16 code units of `s`. */
  function Utf16Length(s: string): (n: nat)
    ensures |s| <= n <= 2 * |s|
  {
    if s == [] then 0 else Utf16Units(s[0]) + Utf16Length(s[1..])
  }

  /** A string of characters from the Basic Multilingual Plane has as many code units as characters. */
  lemma {:induction false} Utf16LengthOfBmp(s: string)
    requires forall i :: 0 <= i < |s| ==> s[i] as int < 0x1_0000
    ensures Utf16Length(s) == |s|
  {
    if s != [] {
      Utf16LengthOfBmp(s[1..]);
    }
  }

  predicate IsDigit(c: char)
  {
    '0' <= c <= '9'
  }

  function DigitValue(c: char): nat
    requires IsDigit(c)
  {
    (c as int) - ('0' as int)
  }

  function DigitChar(d: nat): (c: char)
    requires d < 10
    ensures IsDigit(c) && DigitValue(c) == d
  {
    (('0' as int) + d) as char
  }

  /** `${n}` for a whole number: decimal digits without a leading zero. */
  function Decimal(n: nat): (s: string)
    ensures |s| >= 1 && (|s| > 1 ==> s[0] != '0')
    ensures forall i :: 0 <= i < |s| ==> IsDigit(s[i])
  {
    if n < 10 then [DigitChar(n)] else Decimal(n / 10) + [DigitChar(n % 10)]
  }

  /** The number a string of decimal digits denotes. */
  function DecimalValue(s: string): nat
    requires forall i :: 0 <= i < |s| ==> IsDigit(s[i])
  {
    if s == [] then 0
    else 10 * DecimalValue(s[..|s| - 1]) + DigitValue(s[|s| - 1])
  }

  /** Reading back the digits gives the number again, so `Decimal` loses nothing. */
  lemma {:induction false} DecimalRoundTrip(n: nat)
    ensures DecimalValue(Decimal(n)) == n
  {
    if n >= 10 {
      DecimalRoundTrip(n / 10);
      var s := Decimal(n);
      assert s[..|s| - 1] == Decimal(n / 10);
    }
  }
}
