/**
 * Case-insensitive string keys and the flat key/value maps built on them.
 *
 * `StringComparer.OrdinalIgnoreCase` compares two keys after mapping each
 * character to upper case. `Fold` does that for the ASCII letters; case
 * mapping of other letters is not part of this model.
 *
 * A flat map (`Entries`) is a sequence of key/value pairs in enumeration
 * order. Lookups go through the comparer, so the FIRST pair whose key folds
 * to the folded probe answers it.
 */
module CaseInsensitive {
  import opened Wrappers

  type Entries = seq<(string, string)>

  function FoldChar(c: char): char {
    if 'a' <= c <= 'z' then (c as int - 32) as char else c
  }

  function Fold(s: string): (f: string)
    ensures |f| == |s|
  {
    seq(|s|, i requires 0 <= i < |s| => FoldChar(s[i]))
  }

  /** Key equality under the ordinal ignore-case comparer. */
  predicate SameKey(a: string, b: string) {
    Fold(a) == Fold(b)
  }

  /** The first pair of `e` whose key is comparer-equal to `k`. */
  function FindPair(e: Entries, k: string): (r: Option<(string, string)>)
    ensures r.Some? ==> r.value in e && SameKey(r.value.0, k)
    ensures r.None? <==> forall i | 0 <= i < |e| :: !SameKey(e[i].0, k)
  {
    if e == [] then None
    else if SameKey(e[0].0, k) then Some(e[0])
    else FindPair(e[1..], k)
  }

  /** `TryGetValue` through the comparer. */
  function Lookup(e: Entries, k: string): Option<string> {
    match FindPair(e, k)
    case Some(p) => Some(p.1)
    case None => None
  }

  predicate HasKey(e: Entries, k: string) {
    FindPair(e, k).Some?
  }

  /** The keys of `e`, taken modulo the comparer (as folded strings). */
  ghost function KeySet(e: Entries): set<string> {
    set i | 0 <= i < |e| :: Fold(e[i].0)
  }

  /** No two keys of `e` are comparer-equal. */
  predicate CaseDistinct(e: Entries) {
    forall i, j | 0 <= i < j < |e| :: !SameKey(e[i].0, e[j].0)
  }

  lemma HasKeyIffInKeySet(e: Entries, k: string)
    ensures HasKey(e, k) <==> Fold(k) in KeySet(e)
  {
    if HasKey(e, k) {
      var p := FindPair(e, k).value;
      var i :| 0 <= i < |e| && e[i] == p;
      assert Fold(e[i].0) in KeySet(e);
    }
  }

  /** Lookup in a concatenation asks the left part first. */
  lemma {:induction false} FindPairAppend(a: Entries, b: Entries, k: string)
    ensures FindPair(a + b, k) == if FindPair(a, k).Some? then FindPair(a, k) else FindPair(b, k)
  {
    if a != [] {
      assert (a + b)[0] == a[0];
      assert (a + b)[1..] == a[1..] + b;
      FindPairAppend(a[1..], b, k);
    } else {
      assert a + b == b;
    }
  }

  /** In a case-distinct map every stored pair answers the lookup of its own key. */
  lemma {:induction false} FindOwnPair(e: Entries, i: nat)
    requires CaseDistinct(e)
    requires i < |e|
    ensures FindPair(e, e[i].0) == Some(e[i])
  {
    if i > 0 {
      assert !SameKey(e[0].0, e[i].0);
      assert CaseDistinct(e[1..]) by {
        forall a, b | 0 <= a < b < |e[1..]|
          ensures !SameKey(e[1..][a].0, e[1..][b].0)
        {
          assert e[1..][a] == e[a + 1] && e[1..][b] == e[b + 1];
        }
      }
      FindOwnPair(e[1..], i - 1);
    }
  }

  /** Appending a pair whose key is new keeps a map case-distinct. */
  lemma AppendFreshKey(e: Entries, p: (string, string))
    requires !HasKey(e, p.0)
    ensures CaseDistinct(e) ==> CaseDistinct(e + [p])
  {
    var e' := e + [p];
    forall i, j | CaseDistinct(e) && 0 <= i < j < |e'|
      ensures !SameKey(e'[i].0, e'[j].0)
    {
      if j == |e| {
        assert e'[i] == e[i];
      } else {
        assert e'[i] == e[i] && e'[j] == e[j];
      }
    }
  }
}
