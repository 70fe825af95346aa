/**
 * `TruncateMessageLayoutRenderer`: a log post-processor that cuts a
 * message at or above the limit so that the kept prefix plus a warning,
 * which records the limit and the original length, is exactly `Limit`
 * characters long.
 */
module TruncateMessageLayoutRenderer {
  import opened Wrappers
  import opened Text

  datatype Renderer = Renderer(truncate: bool, limit: int)

  /** `Truncate` defaults to true and `Limit` to 10000. */
  const DefaultRenderer := Renderer(true, 10000)

  /** `Substring` rejects a negative length. */
  datatype TruncateError = ArgumentOutOfRange(paramName: string)

  const WarningOpening := "... MESSAGE Truncated=True DUE TO EXCEEDING MaxAllowedCharacterLength="
  const WarningMiddle := ", ActualCharacterLength="

  /** `GenerateWarningMessage`; it is only reached with a positive limit. */
  function GenerateWarningMessage(limit: nat, actualLength: nat): string {
    WarningOpening + DecimalString(limit) + WarningMiddle + DecimalString(actualLength)
  }

  /** Two digit strings between fixed texts, the middle one starting with a non-digit, can be read back. */
  lemma DigitsBetween(opening: string, middle: string, d1: string, e1: string, d2: string, e2: string)
    requires AllDigits(d1) && AllDigits(e1) && AllDigits(d2) && AllDigits(e2)
    requires middle != [] && !IsDigit(middle[0])
    requires opening + d1 + middle + e1 == opening + d2 + middle + e2
    ensures d1 == d2 && e1 == e2
  {
    var w := opening + d1 + middle + e1;
    assert w == opening + (d1 + (middle + e1));
    assert w == opening + (d2 + (middle + e2));
    assert d1 + (middle + e1) == w[|opening|..] == d2 + (middle + e2);
    DigitsPrefixUnique(d1, middle + e1, d2, middle + e2);
    assert e1 == (middle + e1)[|middle|..];
    assert e2 == (middle + e2)[|middle|..];
  }

  lemma NumbersBetween(opening: string, middle: string, l1: nat, n1: nat, l2: nat, n2: nat)
    requires middle != [] && !IsDigit(middle[0])
    requires opening + DecimalString(l1) + middle + DecimalString(n1) == opening + DecimalString(l2) + middle + DecimalString(n2)
    ensures l1 == l2 && n1 == n2
  {
    DigitsBetween(opening, middle, DecimalString(l1), DecimalString(n1), DecimalString(l2), DecimalString(n2));
    DecimalStringInjective(l1, l2);
    DecimalStringInjective(n1, n2);
  }

  /** The warning tells both numbers back: different pairs give different warnings. */
  lemma WarningInjective(l1: nat, n1: nat, l2: nat, n2: nat)
    requires GenerateWarningMessage(l1, n1) == GenerateWarningMessage(l2, n2)
    ensures l1 == l2 && n1 == n2
  {
    assert !IsDigit(WarningMiddle[0]);
    NumbersBetween(WarningOpening, WarningMiddle, l1, n1, l2, n2);
  }

  /** The condition under which `Transform` returns the text unchanged. */
  predicate PassesThrough(r: Renderer, text: string) {
    !r.truncate || r.limit <= 0 || |text| < r.limit
  }

  /**
   * `Transform`: a text shorter than the limit (or any text when truncation
   * is off or the limit is not positive) is returned unchanged. Otherwise
   * the result is exactly `Limit` characters: a prefix of the text followed
   * by the warning. A limit shorter than the warning makes `Substring`
   * throw.
   */
  function Transform(r: Renderer, text: string): (res: Result<string, TruncateError>)
    ensures PassesThrough(r, text) ==> res == Success(text)
    ensures !PassesThrough(r, text) ==>
      var w := GenerateWarningMessage(r.limit, |text|);
      && (res.Failure? <==> r.limit < |w|)
      && (res.Success? ==>
            && |res.value| == r.limit
            && res.value[..r.limit - |w|] == text[..r.limit - |w|]
            && res.value[r.limit - |w|..] == w)
    ensures res.Success? ==> |res.value| <= |text|
  {
    if !r.truncate || r.limit <= 0 || |text| < r.limit then Success(text)
    else
      var warningMessage := GenerateWarningMessage(r.limit, |text|);
      var keep := r.limit - |warningMessage|;
      if keep < 0 then Failure(ArgumentOutOfRange("length"))
      else Success(text[..keep] + warningMessage)
  }

  /**
   * Two texts cut by the same renderer to the same result had the same
   * length and the same kept prefix: the output records the original
   * length.
   */
  lemma TruncationRecordsLength(r: Renderer, t1: string, t2: string)
    requires !PassesThrough(r, t1) && !PassesThrough(r, t2)
    requires Transform(r, t1).Success? && Transform(r, t1) == Transform(r, t2)
    ensures |t1| == |t2|
    ensures var keep := r.limit - |GenerateWarningMessage(r.limit, |t1|)|; t1[..keep] == t2[..keep]
  {
    var out := Transform(r, t1).value;
    var w1 := GenerateWarningMessage(r.limit, |t1|);
    var w2 := GenerateWarningMessage(r.limit, |t2|);
    var k1 := r.limit - |w1|;
    var k2 := r.limit - |w2|;
    assert out == t1[..k1] + w1;
    assert out == t2[..k2] + w2;
    var p := WarningOpening + DecimalString(r.limit) + WarningMiddle;
    assert w1 == p + DecimalString(|t1|);
    assert w2 == p + DecimalString(|t2|);
    var x1 := t1[..k1] + p;
    var x2 := t2[..k2] + p;
    assert out == x1 + DecimalString(|t1|);
    assert out == x2 + DecimalString(|t2|);
    DigitsSuffixUnique(x1, DecimalString(|t1|), x2, DecimalString(|t2|));
    DecimalStringInjective(|t1|, |t2|);
    assert t1[..k1] == x1[..k1];
  }

  /** Under the defaults, a text of exactly 10000 characters is cut, to 10000 characters. */
  lemma ExactLimitIsTruncated(text: string)
    requires |text| == 10000
    ensures Transform(DefaultRenderer, text).Success?
    ensures |Transform(DefaultRenderer, text).value| == 10000
  {
    assert DecimalString(10000) == "10000";
    var w := GenerateWarningMessage(10000, 10000);
    assert |w| == |WarningOpening| + 5 + |WarningMiddle| + 5;
  }
}
