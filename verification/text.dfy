/**
 * Text helpers shared by the model: the whitespace class used by
 * `string.IsNullOrWhiteSpace` and by the regular expression class `\s`,
 * joining of path segments, and the base-10 rendering of non-negative
 * integers done by `int.ToString()` and by string interpolation.
 */
module Text {

  /**
   * `char.IsWhiteSpace`: U+0009..U+000D, U+0085 and the Unicode separator
   * categories (space, line and paragraph separators).
   */
  predicate IsWhiteSpace(c: char) {
    || c == ' ' || ('\t' <= c <= '\r') || c == '\U{0085}' || c == '\U{00A0}' || c == '\U{1680}'
    || ('\U{2000}' <= c <= '\U{200A}') || c == '\U{2028}' || c == '\U{2029}' || c == '\U{202F}'
    || c == '\U{205F}' || c == '\U{3000}'
  }

  /** `string.Join(separator, segments)`. */
  function Join(segments: seq<string>, separator: string): string {
    if segments == [] then ""
    else if |segments| == 1 then segments[0]
    else Join(segments[..|segments| - 1], separator) + separator + segments[|segments| - 1]
  }

  predicate IsDigit(c: char) {
    '0' <= c <= '9'
  }

  predicate AllDigits(s: string) {
    forall i | 0 <= i < |s| :: IsDigit(s[i])
  }

  function DigitChar(d: nat): (c: char)
    requires d < 10
    ensures IsDigit(c)
  {
    ('0' as int + d) as char
  }

  function DigitValue(c: char): (d: nat)
    requires IsDigit(c)
    ensures d < 10
  {
    c as int - '0' as int
  }

  /** The canonical decimal text of `n`: digits only, no leading zero. */
  function DecimalString(n: nat): (s: string)
    ensures 1 <= |s|
    ensures AllDigits(s)
    ensures |s| > 1 ==> s[0] != '0'
    ensures n < 10 <==> |s| == 1
  {
    if n < 10 then [DigitChar(n)] else DecimalString(n / 10) + [DigitChar(n % 10)]
  }

  /** The value denoted by a string of decimal digits. */
  function DecimalValue(s: string): nat
    requires AllDigits(s)
  {
    if s == [] then 0 else 10 * DecimalValue(s[..|s| - 1]) + DigitValue(s[|s| - 1])
  }

  /** Reading back the rendered text of `n` gives `n`. */
  lemma {:induction false} DecimalRoundTrip(n: nat)
    ensures DecimalValue(DecimalString(n)) == n
  {
    var s := DecimalString(n);
    if n >= 10 {
      DecimalRoundTrip(n / 10);
      assert s[..|s| - 1] == DecimalString(n / 10);
    }
  }

  /** Distinct numbers have distinct renderings. */
  lemma DecimalStringInjective(a: nat, b: nat)
    requires DecimalString(a) == DecimalString(b)
    ensures a == b
  {
    DecimalRoundTrip(a);
    DecimalRoundTrip(b);
  }

  /**
   * When two digit strings are each followed by text starting with a
   * non-digit, equal concatenations force equal digit strings.
   */
  lemma DigitsPrefixUnique(d1: string, r1: string, d2: string, r2: string)
    requires AllDigits(d1) && AllDigits(d2)
    requires |r1| > 0 && |r2| > 0 && !IsDigit(r1[0]) && !IsDigit(r2[0])
    requires d1 + r1 == d2 + r2
    ensures d1 == d2 && r1 == r2
  {
    var m := if |d1| < |d2| then |d1| else |d2|;
    assert (d1 + r1)[m] == (d2 + r2)[m];
    assert |d1| == |d2|;
    assert d1 == (d1 + r1)[..|d1|];
    assert d2 == (d2 + r2)[..|d2|];
    assert r1 == (d1 + r1)[|d1|..];
    assert r2 == (d2 + r2)[|d2|..];
  }

  /**
   * When two digit strings each follow text ending with a non-digit, equal
   * concatenations force equal digit strings.
   */
  lemma DigitsSuffixUnique(x1: string, d1: string, x2: string, d2: string)
    requires AllDigits(d1) && AllDigits(d2)
    requires |x1| > 0 && |x2| > 0 && !IsDigit(x1[|x1| - 1]) && !IsDigit(x2[|x2| - 1])
    requires x1 + d1 == x2 + d2
    ensures d1 == d2 && x1 == x2
  {
    var s := x1 + d1;
    var m := if |d1| < |d2| then |d1| else |d2|;
    assert s[|s| - 1 - m] == (x2 + d2)[|s| - 1 - m];
    assert |d1| == |d2|;
    assert d1 == s[|x1|..];
    assert d2 == (x2 + d2)[|x2|..];
    assert x1 == s[..|x1|];
    assert x2 == (x2 + d2)[..|x2|];
  }
}
