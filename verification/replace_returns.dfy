/**
 * `ReplaceReturnsLayoutRenderer`: a log post-processor that turns every
 * carriage return (code point 13) into a space (code point 32), leaving
 * the text untouched when it holds none.
 */
module ReplaceReturnsLayoutRenderer {

  const Return: char := 13 as char
  const Space: char := 32 as char

  /** `string.IndexOf(value, StringComparison.Ordinal)` for a one-character value. */
  function IndexOf(s: string, c: char): (r: int)
    ensures -1 <= r < |s|
    ensures r >= 0 ==> s[r] == c
    ensures forall j | 0 <= j < |s| && (r < 0 || j < r) :: s[j] != c
  {
    if s == [] then -1
    else if s[0] == c then 0
    else
      var k := IndexOf(s[1..], c);
      if k < 0 then -1 else k + 1
  }

  /** `string.Replace(oldValue, newValue)` for one-character values: every occurrence, left to right. */
  function ReplaceAll(s: string, from: char, to: char): (r: string)
    ensures |r| == |s|
    ensures forall i | 0 <= i < |s| :: r[i] == (if s[i] == from then to else s[i])
  {
    if s == [] then [] else [if s[0] == from then to else s[0]] + ReplaceAll(s[1..], from, to)
  }

  /**
   * `Transform`: same length, every carriage return becomes a space, every
   * other character stays where it was.
   */
  function Transform(text: string): (r: string)
    ensures |r| == |text|
    ensures forall i | 0 <= i < |text| :: r[i] == (if text[i] == Return then Space else text[i])
    ensures Return !in r
    ensures Return !in text ==> r == text
  {
    if IndexOf(text, Return) >= 0 then ReplaceAll(text, Return, Space) else text
  }

  /** Transforming twice is transforming once. */
  lemma TransformIdempotent(text: string)
    ensures Transform(Transform(text)) == Transform(text)
  {
  }

  /** The guard on `IndexOf` is only a shortcut: the result is the full replacement either way. */
  lemma TransformIsReplace(text: string)
    ensures Transform(text) == ReplaceAll(text, Return, Space)
  {
  }
}
