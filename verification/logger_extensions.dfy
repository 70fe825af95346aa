/**
 * `LoggerExtensions`: the string helpers used when tracing HTTP traffic.
 * `Limit` caps a string at a size and marks the cut; `ReplaceLineBreaksWithSpaces`
 * replaces every run of whitespace (the regular expression `\s+`) by one
 * space.
 */
module LoggerExtensions {
  import opened Wrappers
  import opened Text

  /** `Substring` rejects a negative length. */
  datatype LimitError = ArgumentOutOfRange(paramName: string)

  const LimitedOpening := " ***** LIMITED TO "
  const LimitedClosing := " BYTES *****"

  /** The marker that follows a cut string. */
  function LimitMarker(maxSize: nat): string {
    LimitedOpening + DecimalString(maxSize) + LimitedClosing
  }

  /**
   * `Limit`: null and empty give the empty string; a string no longer than
   * `maxSize` is returned as is; a longer one keeps its first `maxSize`
   * characters followed by the marker. A negative `maxSize` with a
   * non-empty input makes `Substring` throw.
   */
  function Limit(input: Option<string>, maxSize: int): (r: Result<string, LimitError>)
    ensures input.None? || input.value == [] ==> r == Success("")
    ensures input.Some? && input.value != [] && |input.value| <= maxSize ==> r == Success(input.value)
    ensures r.Failure? <==> input.Some? && input.value != [] && maxSize < 0
    ensures input.Some? && 0 <= maxSize < |input.value| ==>
      && r.Success?
      && |r.value| == maxSize + |LimitMarker(maxSize)|
      && r.value[..maxSize] == input.value[..maxSize]
      && r.value[maxSize..] == LimitMarker(maxSize)
  {
    match input
    case None => Success("")
    case Some(s) =>
      if s == [] then Success("")
      else if |s| <= maxSize then Success(s)
      else if maxSize < 0 then Failure(ArgumentOutOfRange("length"))
      else Success(s[..maxSize] + LimitMarker(maxSize))
  }

  /**
   * A cut string tells its size: two cut results that are equal were cut
   * at the same size from inputs with the same kept prefix.
   */
  lemma LimitRecoversSize(s1: string, m1: nat, s2: string, m2: nat)
    requires m1 < |s1| && m2 < |s2|
    requires Limit(Some(s1), m1) == Limit(Some(s2), m2)
    ensures m1 == m2 && s1[..m1] == s2[..m2]
  {
    var out := Limit(Some(s1), m1).value;
    var x1 := s1[..m1] + LimitedOpening;
    var x2 := s2[..m2] + LimitedOpening;
    assert out == x1 + DecimalString(m1) + LimitedClosing;
    assert out == x2 + DecimalString(m2) + LimitedClosing;
    var body := out[..|out| - |LimitedClosing|];
    assert body == x1 + DecimalString(m1);
    assert body == x2 + DecimalString(m2);
    DigitsSuffixUnique(x1, DecimalString(m1), x2, DecimalString(m2));
    DecimalStringInjective(m1, m2);
    assert s1[..m1] == x1[..m1];
  }

  /** A string that is not cut is left alone whatever the size cap above its length. */
  lemma LimitFixedPointAboveLength(s: string, m1: int, m2: int)
    requires |s| <= m1 && |s| <= m2
    ensures Limit(Some(s), m1) == Limit(Some(s), m2)
  {
  }

  // ---------------------------------------------------------------------
  // ReplaceLineBreaksWithSpaces
  // ---------------------------------------------------------------------

  /** The longest whitespace-free suffix start: the text after a leading whitespace run. */
  function DropWhiteSpace(s: string): (r: string)
    ensures |r| <= |s| && r == s[|s| - |r|..]
    ensures r == [] || !IsWhiteSpace(r[0])
    ensures forall i | 0 <= i < |s| - |r| :: IsWhiteSpace(s[i])
  {
    if s == [] || !IsWhiteSpace(s[0]) then s else DropWhiteSpace(s[1..])
  }

  /** No two adjacent whitespace characters, and the only whitespace is the space. */
  predicate Normalized(s: string) {
    && (forall i | 0 <= i < |s| :: IsWhiteSpace(s[i]) ==> s[i] == ' ')
    && (forall i | 0 <= i < |s| - 1 :: !(IsWhiteSpace(s[i]) && IsWhiteSpace(s[i + 1])))
  }

  /** The non-whitespace characters of a string, in order. */
  function Visible(s: string): string {
    if s == [] then [] else (if IsWhiteSpace(s[0]) then [] else [s[0]]) + Visible(s[1..])
  }

  /** `Regex.Replace(s, @"\s+", " ")`: every maximal whitespace run becomes one space. */
  function Collapse(s: string): (r: string)
    ensures Normalized(r)
    ensures Visible(r) == Visible(s)
    ensures |r| <= |s|
    ensures r == [] <==> s == []
    ensures r != [] ==> (r[0] == ' ' <==> IsWhiteSpace(s[0]))
    decreases |s|
  {
    if s == [] then []
    else if IsWhiteSpace(s[0]) then
      var rest := DropWhiteSpace(s);
      VisibleOfWhiteSpacePrefix(s, rest);
      " " + Collapse(rest)
    else
      [s[0]] + Collapse(s[1..])
  }

  /** Whitespace adds nothing to the visible characters. */
  lemma {:induction false} VisibleOfWhiteSpacePrefix(s: string, rest: string)
    requires |rest| <= |s| && rest == s[|s| - |rest|..]
    requires forall i | 0 <= i < |s| - |rest| :: IsWhiteSpace(s[i])
    ensures Visible(s) == Visible(rest)
    decreases |s|
  {
    if |s| > |rest| {
      assert s[1..][|s| - 1 - |rest|..] == rest;
      VisibleOfWhiteSpacePrefix(s[1..], rest);
    }
  }

  /** `ReplaceLineBreaksWithSpaces`: null and empty are returned as they are. */
  function ReplaceLineBreaksWithSpaces(str: Option<string>): (r: Option<string>)
    ensures r.None? <==> str.None?
    ensures str == Some("") ==> r == Some("")
    ensures r.Some? ==> Normalized(r.value) && Visible(r.value) == Visible(str.value)
  {
    match str
    case None => None
    case Some(s) => if s == [] then Some(s) else Some(Collapse(s))
  }

  /** An already normalised string is its own collapse. */
  lemma {:induction false} CollapseNormalized(s: string)
    requires Normalized(s)
    ensures Collapse(s) == s
    decreases |s|
  {
    if s != [] {
      var rest := s[1..];
      NormalizedTail(s);
      CollapseNormalized(rest);
      if IsWhiteSpace(s[0]) {
        assert DropWhiteSpace(s) == rest;
        assert Collapse(s) == " " + Collapse(rest);
      } else {
        assert Collapse(s) == [s[0]] + Collapse(rest);
      }
    }
  }

  lemma NormalizedTail(s: string)
    requires s != [] && Normalized(s)
    ensures Normalized(s[1..])
    ensures IsWhiteSpace(s[0]) ==> s[0] == ' ' && (|s| == 1 || !IsWhiteSpace(s[1]))
  {
    forall i | 0 <= i < |s[1..]| - 1
      ensures !(IsWhiteSpace(s[1..][i]) && IsWhiteSpace(s[1..][i + 1]))
    {
      assert s[1..][i] == s[i + 1] && s[1..][i + 1] == s[i + 2];
    }
  }

  /** The fixed points of the collapse are exactly the normalised strings. */
  lemma CollapseFixedPoints(s: string)
    ensures Collapse(s) == s <==> Normalized(s)
  {
    if Normalized(s) {
      CollapseNormalized(s);
    }
  }

  /** `ReplaceLineBreaksWithSpaces` is idempotent. */
  lemma ReplaceIdempotent(str: Option<string>)
    ensures ReplaceLineBreaksWithSpaces(ReplaceLineBreaksWithSpaces(str)) == ReplaceLineBreaksWithSpaces(str)
  {
    if str.Some? && str.value != [] {
      CollapseNormalized(Collapse(str.value));
    }
  }

  /** A run made only of whitespace becomes a single space. */
  lemma CollapseWhiteSpaceRun(w: string)
    requires w != [] && forall i | 0 <= i < |w| :: IsWhiteSpace(w[i])
    ensures Collapse(w) == " "
  {
    assert DropWhiteSpace(w) == [];
  }

  /** Skipping whitespace stops at the first non-whitespace character, wherever the tail begins. */
  lemma {:induction false} DropWhiteSpaceAppend(a: string, t: string)
    requires t != [] && !IsWhiteSpace(t[0])
    ensures DropWhiteSpace(a + t) == DropWhiteSpace(a) + t
    decreases |a|
  {
    if a != [] && IsWhiteSpace(a[0]) {
      assert (a + t)[1..] == a[1..] + t;
      DropWhiteSpaceAppend(a[1..], t);
    } else if a == [] {
      assert a + t == t;
    }
  }

  /**
   * A non-whitespace character splits the collapse: runs on either side are
   * collapsed independently. With `CollapseWhiteSpaceRun` this says every
   * maximal whitespace run becomes one space and nothing else changes.
   */
  lemma {:induction false} CollapseSplitsAtVisible(a: string, c: char, b: string)
    requires !IsWhiteSpace(c)
    ensures Collapse(a + [c] + b) == Collapse(a) + [c] + Collapse(b)
    decreases |a|
  {
    if a == [] {
      assert a + [c] + b == [c] + b;
      CollapseVisibleHead(c, b);
    } else if !IsWhiteSpace(a[0]) {
      var x, rest := a[0], a[1..];
      assert Collapse(a + [c] + b) == [x] + Collapse(rest + [c] + b) by {
        assert a + [c] + b == [x] + (rest + [c] + b);
        CollapseVisibleHead(x, rest + [c] + b);
      }
      assert Collapse(a) == [x] + Collapse(rest) by {
        assert a == [x] + rest;
        CollapseVisibleHead(x, rest);
      }
      CollapseSplitsAtVisible(rest, c, b);
      Regroup(Collapse(a + [c] + b), [x], Collapse(rest + [c] + b), Collapse(rest), c, Collapse(b));
    } else {
      var d := DropWhiteSpace(a);
      assert Collapse(a + [c] + b) == " " + Collapse(d + [c] + b) by {
        var t := [c] + b;
        assert a + [c] + b == a + t && d + t == d + [c] + b;
        DropWhiteSpaceAppend(a, t);
      }
      assert |d| < |a|;
      assert Collapse(a) == " " + Collapse(d);
      CollapseSplitsAtVisible(d, c, b);
      Regroup(Collapse(a + [c] + b), " ", Collapse(d + [c] + b), Collapse(d), c, Collapse(b));
    }
  }

  /** Regrouping `h + (r + [c] + t)` as `(h + r) + [c] + t`. */
  lemma Regroup(whole: string, h: string, m: string, r: string, c: char, t: string)
    requires whole == h + m && m == r + [c] + t
    ensures whole == (h + r) + [c] + t
  {
  }

  /** A leading non-whitespace character is kept as it is. */
  lemma CollapseVisibleHead(x: char, rest: string)
    requires !IsWhiteSpace(x)
    ensures Collapse([x] + rest) == [x] + Collapse(rest)
  {
    assert ([x] + rest)[1..] == rest;
  }
}
