/**
 * `CategoryNameLayoutRenderer`: renders a logger's category name, by
 * default compressed: every dot-separated segment but the last two is cut
 * to its first character, as in `A.Bb.Cc.Dd` to `A.B.Cc.Dd`. The result is
 * appended to a string builder, modelled as the text it holds.
 *
 * The name search uses `string.LastIndexOf(char, startIndex)`, which on a
 * non-empty string throws when `startIndex` is outside `[0, Length)`. A
 * name whose only dot is its first character reaches it with
 * `startIndex == -1`; `CompressAsWritten` keeps that behaviour and
 * `Compress` is the corrected definition the renderer methods use.
 */
module CategoryNameLayoutRenderer {
  import opened Wrappers

  datatype NameError = ArgumentOutOfRange(paramName: string)

  /** `string.LastIndexOf(char)`: the last position holding `c`, or -1. */
  function LastIndexOf(s: string, c: char): (r: int)
    ensures -1 <= r < |s|
    ensures r >= 0 ==> s[r] == c
    ensures forall j | r < j < |s| :: s[j] != c
  {
    if s == [] then -1
    else if s[|s| - 1] == c then |s| - 1
    else LastIndexOf(s[..|s| - 1], c)
  }

  /**
   * `string.LastIndexOf(char, startIndex)`: the last position at or before
   * `startIndex` holding `c`. An empty string gives -1 for any start; on a
   * non-empty string a start outside the string throws.
   */
  function LastIndexOfFrom(s: string, c: char, startIndex: int): (r: Result<int, NameError>)
    ensures r.Failure? <==> s != [] && !(0 <= startIndex < |s|)
    ensures r.Success? ==> -1 <= r.value < |s|
    ensures r.Success? && r.value >= 0 ==> r.value <= startIndex && s[r.value] == c
    ensures r.Success? ==> forall j | r.value < j < |s| && j <= startIndex :: s[j] != c
  {
    if s == [] then Success(-1)
    else if startIndex < 0 || startIndex >= |s| then Failure(ArgumentOutOfRange("startIndex"))
    else Success(LastIndexOf(s[..startIndex + 1], c))
  }

  /** `string.IndexOf(char, startIndex)`: the first position at or after `startIndex` holding `c`, or -1. */
  function IndexOfFrom(s: string, c: char, startIndex: nat): (r: int)
    requires startIndex <= |s|
    ensures r == -1 || startIndex <= r < |s|
    ensures r >= 0 ==> s[r] == c
    ensures forall j | startIndex <= j < |s| && (r < 0 || j < r) :: s[j] != c
    decreases |s| - startIndex
  {
    if startIndex == |s| then -1
    else if s[startIndex] == c then startIndex
    else IndexOfFrom(s, c, startIndex + 1)
  }

  /**
   * The loop of the renderer, from `startPoint == start`: while the start
   * is before `second`, emit the character there and a dot, then move past
   * the next dot.
   */
  function Initials(name: string, start: int, second: int): string
    requires 0 <= second < |name| && name[second] == '.'
    decreases second - start
  {
    if start >= 0 && start < second then
      var next := IndexOfFrom(name, '.', start + 1) + 1;
      [name[start], '.'] + Initials(name, next, second)
    else ""
  }

  /** Lines 40-45: the loop appends the initials to the builder. */
  method AppendInitials(builder: string, name: string, second: int) returns (b: string)
    requires 0 <= second < |name| && name[second] == '.'
    ensures b == builder + Initials(name, 0, second)
  {
    b := builder;
    var startPoint := 0;
    while startPoint >= 0 && startPoint < second
      invariant 0 <= startPoint <= second + 1
      invariant b + Initials(name, startPoint, second) == builder + Initials(name, 0, second)
      decreases second - startPoint
    {
      b := b + [name[startPoint], '.'];
      startPoint := IndexOfFrom(name, '.', startPoint + 1) + 1;
    }
  }

  /** The compressed name as the source computes it, exception included. */
  function CompressAsWritten(name: string): Result<string, NameError> {
    var firstPointIndex := LastIndexOf(name, '.');
    if firstPointIndex < 0 then Success(name)
    else
      match LastIndexOfFrom(name, '.', firstPointIndex - 1)
      case Failure(e) => Failure(e)
      case Success(secondPointIndex) =>
        if secondPointIndex < 0 then Success(name)
        else Success(Initials(name, 0, secondPointIndex) + name[secondPointIndex + 1..])
  }

  /** The compressed name: a name with fewer than two dots is kept as it is. */
  function Compress(name: string): string {
    var firstPointIndex := LastIndexOf(name, '.');
    if firstPointIndex <= 0 then name
    else
      var secondPointIndex := LastIndexOf(name[..firstPointIndex], '.');
      if secondPointIndex < 0 then name
      else Initials(name, 0, secondPointIndex) + name[secondPointIndex + 1..]
  }

  /** `StringBuilder.Append(string)`: a null string appends nothing. */
  function Text(name: Option<string>): string {
    if name.Some? then name.value else ""
  }

  /** Appending two pieces to the builder is appending their concatenation, and keeps the builder in front. */
  lemma GrowsBuilder(builder: string, x: string, y: string)
    ensures builder + x + y == builder + (x + y)
    ensures (builder + (x + y))[..|builder|] == builder
  {
  }

  /**
   * `AppendConvertedFullTypeName` as written: the builder only grows; it
   * throws exactly when compression is on and the name's only dot is its
   * first character.
   */
  method AppendConvertedFullTypeNameAsWritten(builder: string, name: Option<string>, compressedName: bool)
    returns (r: Result<string, NameError>)
    ensures r.Success? ==> |r.value| >= |builder| && r.value[..|builder|] == builder
    ensures r.Failure? <==> compressedName && name.Some? && name.value != [] && CompressAsWritten(name.value).Failure?
    ensures r.Success? && compressedName && name.Some? ==> r.value == builder + CompressAsWritten(name.value).value
    ensures !compressedName ==> r == Success(builder + Text(name))
  {
    if compressedName && name.Some? && name.value != [] {
      var s := name.value;
      var firstPointIndex := LastIndexOf(s, '.');
      if firstPointIndex >= 0 {
        var second := LastIndexOfFrom(s, '.', firstPointIndex - 1);
        if second.Failure? {
          assert CompressAsWritten(s) == Failure(second.error);
          return Failure(second.error);
        }
        var secondPointIndex := second.value;
        if secondPointIndex >= 0 {
          var endName := s[secondPointIndex + 1..];
          var b := AppendInitials(builder, s, secondPointIndex);
          assert CompressAsWritten(s) == Success(Initials(s, 0, secondPointIndex) + endName);
          GrowsBuilder(builder, Initials(s, 0, secondPointIndex), endName);
          return Success(b + endName);
        }
        assert CompressAsWritten(s) == Success(s);
      } else {
        assert CompressAsWritten(s) == Success(s);
      }
    }
    return Success(builder + Text(name));
  }

  /**
   * `AppendConvertedFullTypeName` with the leading-dot case corrected:
   * never throws, the builder only grows, and what is appended is the
   * compressed name.
   */
  method AppendConvertedFullTypeName(builder: string, name: Option<string>, compressedName: bool)
    returns (r: string)
    ensures |r| >= |builder| && r[..|builder|] == builder
    ensures compressedName && name.Some? ==> r == builder + Compress(name.value)
    ensures !compressedName || name.None? ==> r == builder + Text(name)
  {
    if compressedName && name.Some? && name.value != [] {
      var s := name.value;
      var firstPointIndex := LastIndexOf(s, '.');
      if firstPointIndex > 0 {
        var secondPointIndex := LastIndexOf(s[..firstPointIndex], '.');
        if secondPointIndex >= 0 {
          var endName := s[secondPointIndex + 1..];
          var b := AppendInitials(builder, s, secondPointIndex);
          assert Compress(s) == Initials(s, 0, secondPointIndex) + endName;
          GrowsBuilder(builder, Initials(s, 0, secondPointIndex), endName);
          return b + endName;
        }
      }
    }
    return builder + Text(name);
  }

  // ---------------------------------------------------------------------
  // Dots and segments.
  // ---------------------------------------------------------------------

  function DotCount(s: string): nat {
    if s == [] then 0 else DotCount(s[..|s| - 1]) + (if s[|s| - 1] == '.' then 1 else 0)
  }

  lemma {:induction false} DotCountAppend(a: string, b: string)
    ensures DotCount(a + b) == DotCount(a) + DotCount(b)
    decreases |b|
  {
    if b == [] {
      assert a + b == a;
    } else {
      assert (a + b)[..|a + b| - 1] == a + b[..|b| - 1];
      DotCountAppend(a, b[..|b| - 1]);
    }
  }

  /** The last dot splits the count: one dot there, none after it. */
  lemma {:induction false} LastDot(s: string)
    ensures LastIndexOf(s, '.') < 0 ==> DotCount(s) == 0
    ensures var r := LastIndexOf(s, '.');
      r >= 0 ==> DotCount(s) == DotCount(s[..r]) + 1 && DotCount(s[r + 1..]) == 0
  {
    if s != [] && s[|s| - 1] != '.' {
      var init := s[..|s| - 1];
      LastDot(init);
      var r := LastIndexOf(init, '.');
      if r >= 0 {
        assert s[..r] == init[..r];
        assert s[r + 1..][..|s[r + 1..]| - 1] == init[r + 1..];
      }
    }
  }

  /** The text after the second-to-last dot holds exactly one dot. */
  lemma LastTwoSegmentsOneDot(name: string, first: int, second: int)
    requires first == LastIndexOf(name, '.') && first > 0
    requires second == LastIndexOf(name[..first], '.') && second >= 0
    ensures DotCount(name[second + 1..]) == 1
    ensures DotCount(name) >= 2
  {
    var head := name[..first];
    LastDot(name);
    LastDot(head);
    var between := name[second + 1..first];
    var after := name[first + 1..];
    assert between == head[second + 1..];
    assert name[second + 1..] == between + ("." + after);
    DotCountAppend(between, "." + after);
    DotCountAppend(".", after);
    assert DotCount(".") == 1 by {
      assert "."[..0] == [];
    }
  }

  /**
   * Names with fewer than two dots are kept whole; otherwise the result is
   * the initials of the segments before the second-to-last dot followed by
   * the text after that dot, which holds exactly one dot: the last two
   * segments, unabbreviated.
   */
  lemma CompressShape(name: string)
    ensures DotCount(name) < 2 ==> Compress(name) == name
    ensures DotCount(name) >= 2 ==>
      exists k :: 0 <= k < |name| && name[k] == '.' && DotCount(name[k + 1..]) == 1 &&
        Compress(name) == Initials(name, 0, k) + name[k + 1..]
  {
    CompressFewDots(name);
    if DotCount(name) >= 2 {
      var k := SecondToLastDot(name);
    }
  }

  lemma CompressFewDots(name: string)
    ensures DotCount(name) < 2 ==> Compress(name) == name
  {
    LastDot(name);
    var first := LastIndexOf(name, '.');
    if first > 0 {
      var head := name[..first];
      LastDot(head);
      var second := LastIndexOf(head, '.');
      if second >= 0 {
        LastTwoSegmentsOneDot(name, first, second);
      }
    }
  }

  /** A name with at least two dots is cut at its second-to-last dot `k`. */
  lemma SecondToLastDot(name: string) returns (k: nat)
    requires DotCount(name) >= 2
    ensures k < |name| && name[k] == '.' && DotCount(name[k + 1..]) == 1
    ensures Compress(name) == Initials(name, 0, k) + name[k + 1..]
  {
    LastDot(name);
    var first := LastIndexOf(name, '.');
    assert first > 0;
    var head := name[..first];
    LastDot(head);
    var second := LastIndexOf(head, '.');
    LastTwoSegmentsOneDot(name, first, second);
    k := second;
    assert name[k] == head[k];
  }

  /** The as-written renderer throws exactly when the name's only dot is its first character. */
  lemma AsWrittenFailsIff(name: string)
    ensures CompressAsWritten(name).Failure? <==> name != [] && name[0] == '.' && DotCount(name) == 1
  {
    LastDot(name);
    var first := LastIndexOf(name, '.');
    if first > 0 && name[0] == '.' {
      LastDot(name[..first]);
    }
  }

  /** Wherever the as-written renderer does not throw, it agrees with the corrected one. */
  lemma AsWrittenAgrees(name: string)
    ensures CompressAsWritten(name).Success? ==> CompressAsWritten(name).value == Compress(name)
  {
  }

  /** The counterexample: `.Logger` has one dot, at position 0, and the as-written renderer throws on it. */
  lemma LeadingDotThrows()
    ensures CompressAsWritten(".Logger") == Failure(ArgumentOutOfRange("startIndex"))
    ensures Compress(".Logger") == ".Logger"
  {
    var name := ".Logger";
    assert name[0] == '.';
    assert forall j | 0 < j < |name| :: name[j] != '.';
    assert LastIndexOf(name, '.') == 0;
  }

  // ---------------------------------------------------------------------
  // The reference: a name built from non-empty, dot-free segments.
  // ---------------------------------------------------------------------

  predicate ProperSegment(s: string) {
    s != [] && forall i | 0 <= i < |s| :: s[i] != '.'
  }

  /** `string.Join(".", segments)`. */
  function JoinDots(segments: seq<string>): string {
    if segments == [] then ""
    else if |segments| == 1 then segments[0]
    else JoinDots(segments[..|segments| - 1]) + "." + segments[|segments| - 1]
  }

  lemma {:induction false} JoinDotsCons(h: string, t: seq<string>)
    requires t != []
    ensures JoinDots([h] + t) == h + "." + JoinDots(t)
    decreases |t|
  {
    if |t| == 1 {
      assert ([h] + t)[..1] == [h];
    } else {
      var init := t[..|t| - 1];
      assert ([h] + t)[..|t|] == [h] + init;
      JoinDotsCons(h, init);
    }
  }

  /** A name of proper segments holds exactly one dot less than it has segments. */
  lemma {:induction false} JoinDotsCount(segments: seq<string>)
    requires segments != []
    requires forall i | 0 <= i < |segments| :: ProperSegment(segments[i])
    ensures DotCount(JoinDots(segments)) == |segments| - 1
    ensures |JoinDots(segments)| > 0 && JoinDots(segments)[|JoinDots(segments)| - 1] != '.'
    decreases |segments|
  {
    var last := segments[|segments| - 1];
    LastDot(last);
    if |segments| > 1 {
      var init := segments[..|segments| - 1];
      JoinDotsCount(init);
      DotCountAppend(JoinDots(init) + ".", last);
      DotCountAppend(JoinDots(init), ".");
      assert DotCount(".") == 1 by {
        assert "."[..0] == [];
      }
    }
  }

  /** The first character of each (proper) segment, each followed by a dot. */
  function SegmentInitials(segments: seq<string>): string {
    if segments == [] then ""
    else (if segments[0] == [] then "" else [segments[0][0]]) + "." + SegmentInitials(segments[1..])
  }

  /** From inside a segment, the next dot is the one that ends it. */
  lemma NextDotEndsSegment(name: string, p: nat, h: string)
    requires ProperSegment(h) && p + |h| < |name|
    requires name[p..p + |h|] == h && name[p + |h|] == '.'
    ensures IndexOfFrom(name, '.', p + 1) == p + |h|
  {
    forall j | p + 1 <= j < p + |h|
      ensures name[j] != '.'
    {
      assert name[j] == name[p..p + |h|][j - p];
    }
  }

  /**
   * The loop walks the proper segments written between position `p` and the
   * dot at `second`, one by one.
   */
  lemma {:induction false} InitialsOfSegments(name: string, p: nat, second: nat, heads: seq<string>)
    requires heads != [] && forall i | 0 <= i < |heads| :: ProperSegment(heads[i])
    requires p <= second < |name| && name[second] == '.'
    requires name[p..second] == JoinDots(heads)
    ensures Initials(name, p, second) == SegmentInitials(heads)
    decreases |heads|
  {
    if |heads| == 1 {
      InitialsOfOneSegment(name, p, second, heads);
    } else {
      InitialsStep(name, p, second, heads);
      InitialsOfSegments(name, p + |heads[0]| + 1, second, heads[1..]);
      InitialsOfMoreSegments(name, p, second, heads);
    }
  }

  lemma InitialsOfOneSegment(name: string, p: nat, second: nat, heads: seq<string>)
    requires |heads| == 1 && ProperSegment(heads[0])
    requires p <= second < |name| && name[second] == '.'
    requires name[p..second] == JoinDots(heads)
    ensures Initials(name, p, second) == SegmentInitials(heads)
  {
    var h := heads[0];
    assert JoinDots(heads) == h;
    InitialsOfLastSegment(name, p, h);
    assert heads[1..] == [];
    assert SegmentInitials(heads) == [h[0]] + "." + SegmentInitials([]);
    InitialThenDot(h[0], SegmentInitials([]));
  }

  /** The step of the induction: the first segment's initial, then the rest's. */
  lemma InitialsOfMoreSegments(name: string, p: nat, second: nat, heads: seq<string>)
    requires |heads| >= 2 && forall i | 0 <= i < |heads| :: ProperSegment(heads[i])
    requires p <= second < |name| && name[second] == '.'
    requires name[p..second] == JoinDots(heads)
    requires Initials(name, p + |heads[0]| + 1, second) == SegmentInitials(heads[1..])
    ensures Initials(name, p, second) == SegmentInitials(heads)
  {
    var h, tail := heads[0], heads[1..];
    InitialsStep(name, p, second, heads);
    assert SegmentInitials(heads) == [h[0]] + "." + SegmentInitials(tail);
    InitialThenDot(h[0], SegmentInitials(tail));
  }

  lemma InitialThenDot(c: char, rest: string)
    ensures [c] + "." + rest == [c, '.'] + rest
  {
    assert [c] + "." == [c, '.'];
  }

  /** The last segment before the stopping dot contributes its initial and ends the loop. */
  lemma InitialsOfLastSegment(name: string, p: nat, h: string)
    requires ProperSegment(h) && p + |h| < |name|
    requires name[p..p + |h|] == h && name[p + |h|] == '.'
    ensures Initials(name, p, p + |h|) == [h[0], '.']
  {
    NextDotEndsSegment(name, p, h);
    assert name[p] == name[p..p + |h|][0];
    assert Initials(name, p + |h| + 1, p + |h|) == "";
  }

  /** One turn of the loop over `h.tail`: emit `h`'s initial and jump to the start of `tail`. */
  lemma InitialsStep(name: string, p: nat, second: nat, heads: seq<string>)
    requires |heads| >= 2 && forall i | 0 <= i < |heads| :: ProperSegment(heads[i])
    requires p <= second < |name| && name[second] == '.'
    requires name[p..second] == JoinDots(heads)
    ensures var h, tail := heads[0], heads[1..];
      && (forall i | 0 <= i < |tail| :: ProperSegment(tail[i]))
      && p + |h| + 1 <= second
      && name[p + |h| + 1..second] == JoinDots(tail)
      && h != []
      && Initials(name, p, second) == [h[0], '.'] + Initials(name, p + |h| + 1, second)
  {
    var h, tail := heads[0], heads[1..];
    assert ProperSegment(h);
    assert JoinDots(heads) == h + "." + JoinDots(tail) by {
      assert heads == [h] + tail;
      JoinDotsCons(h, tail);
    }
    ConsSlices(name, p, second, h, JoinDots(tail));
    NextDotEndsSegment(name, p, h);
    ProperTail(heads);
    assert name[p] == h[0] by {
      assert name[p] == name[p..p + |h|][0];
    }
  }

  /** Reading `h.rest`, written between `p` and `q`, piece by piece. */
  lemma ConsSlices(name: string, p: nat, q: nat, h: string, rest: string)
    requires p <= q <= |name| && name[p..q] == h + "." + rest
    ensures p + |h| + 1 <= q
    ensures name[p..p + |h|] == h && name[p + |h|] == '.'
    ensures name[p + |h| + 1..q] == rest
  {
    var w := name[p..q];
    assert name[p..p + |h|] == w[..|h|];
    assert name[p + |h|] == w[|h|];
    assert name[p + |h| + 1..q] == w[|h| + 1..];
  }

  lemma ProperTail(heads: seq<string>)
    requires heads != [] && forall i | 0 <= i < |heads| :: ProperSegment(heads[i])
    ensures forall i | 0 <= i < |heads[1..]| :: ProperSegment(heads[1..][i])
  {
    forall i | 0 <= i < |heads[1..]|
      ensures ProperSegment(heads[1..][i])
    {
      assert heads[1..][i] == heads[i + 1];
    }
  }

  /** A position holding `c` with no `c` after it is the last one. */
  lemma LastIndexOfAt(s: string, c: char, k: nat)
    requires k < |s| && s[k] == c
    requires forall j | k < j < |s| :: s[j] != c
    ensures LastIndexOf(s, c) == k
  {
  }

  lemma TailAfterDot(u: string, a: string, z: string)
    ensures (u + "." + a + "." + z)[|u| + 1..] == a + "." + z
  {
  }

  /** The last dot of `x.a`, for a proper segment `a`, is the one before `a`. */
  lemma DotBeforeSegment(x: string, a: string)
    requires ProperSegment(a)
    ensures LastIndexOf(x + "." + a, '.') == |x|
  {
    var s := x + "." + a;
    assert s[|x|] == '.';
    assert s[|x| + 1..] == a;
    forall j | |x| < j < |s|
      ensures s[j] != '.'
    {
      assert s[j] == s[|x| + 1..][j - |x| - 1];
    }
    LastIndexOfAt(s, '.', |x|);
  }

  /** A name `u.a.z` with proper `a` and `z` keeps `a.z` and abbreviates `u`. */
  lemma CompressThreeParts(u: string, a: string, z: string)
    requires ProperSegment(a) && ProperSegment(z)
    ensures var name := u + "." + a + "." + z;
      && |u| < |name| && name[|u|] == '.' && name[0..|u|] == u
      && Compress(name) == Initials(name, 0, |u|) + (a + "." + z)
  {
    var init := u + "." + a;
    var name := init + "." + z;
    DotBeforeSegment(init, z);
    assert name[..|init|] == init;
    assert init[..|u|] == u;
    DotBeforeSegment(u, a);
    TailAfterDot(u, a, z);
  }

  /**
   * For a name made of at least three proper segments, the compressed name
   * is the initials of all segments but the last two, then the last two
   * segments joined by a dot.
   */
  lemma CompressSegments(segments: seq<string>)
    requires |segments| >= 3
    requires forall i | 0 <= i < |segments| :: ProperSegment(segments[i])
    ensures var n := |segments|;
      Compress(JoinDots(segments)) == SegmentInitials(segments[..n - 2]) + (segments[n - 2] + "." + segments[n - 1])
  {
    var n := |segments|;
    var heads := segments[..n - 2];
    var a := segments[n - 2];
    var z := segments[n - 1];
    var u := JoinDots(heads);
    var name := JoinDots(segments);
    assert name == u + "." + a + "." + z by {
      JoinDotsLastTwo(segments);
    }
    assert |u| < |name| && name[|u|] == '.' && name[0..|u|] == u
        && Compress(name) == Initials(name, 0, |u|) + (a + "." + z) by {
      CompressThreeParts(u, a, z);
    }
    assert Initials(name, 0, |u|) == SegmentInitials(heads) by {
      ProperPrefix(segments, n - 2);
      InitialsOfSegments(name, 0, |u|, heads);
    }
  }

  /** Splitting off the last two segments. */
  lemma JoinDotsLastTwo(segments: seq<string>)
    requires |segments| >= 3
    ensures var n := |segments|;
      JoinDots(segments) == JoinDots(segments[..n - 2]) + "." + segments[n - 2] + "." + segments[n - 1]
  {
    var n := |segments|;
    assert segments[..n - 1][..n - 2] == segments[..n - 2];
  }

  lemma ProperPrefix(segments: seq<string>, k: nat)
    requires k <= |segments|
    requires forall i | 0 <= i < |segments| :: ProperSegment(segments[i])
    ensures forall i | 0 <= i < k :: ProperSegment(segments[..k][i])
  {
  }

  /** The documented example: `A.Bb.Cc.Dd` compresses to `A.B.Cc.Dd`. */
  lemma CompressExample(name: string)
    requires name == "A.Bb.Cc.Dd"
    ensures Compress(name) == "A.B.Cc.Dd"
  {
    SplitExample(name);
    InitialsExample(name);
  }

  /** The example is `A.Bb` followed by the two segments it keeps. */
  lemma SplitExample(name: string)
    requires name == "A.Bb.Cc.Dd"
    ensures name[4] == '.' && Compress(name) == Initials(name, 0, 4) + "Cc.Dd"
  {
    var u, a, z := "A.Bb", "Cc", "Dd";
    assert name == u + "." + a + "." + z;
    assert a + "." + z == "Cc.Dd";
    assert ProperSegment(a) && ProperSegment(z);
    CompressThreeParts(u, a, z);
  }

  /** The loop on the example emits `A.` and `B.` and stops at the second-to-last dot. */
  lemma InitialsExample(name: string)
    requires name == "A.Bb.Cc.Dd"
    ensures name[4] == '.' && Initials(name, 0, 4) == "A.B."
  {
    assert IndexOfFrom(name, '.', 3) == 4;
    assert Initials(name, 2, 4) == "B.";
    assert IndexOfFrom(name, '.', 1) == 1;
  }
}
