/**
 * `DictionaryExtensions.Merge`: flattens a map of flat maps into one flat
 * map. The inner maps are concatenated in the outer map's enumeration
 * order (`SelectMany`), grouped by key under the comparer (`ToLookup`),
 * and each group keeps its first pair (`ToDictionary(g => g.Key, g => g.First())`),
 * so the first-seen key casing and the first value win.
 *
 * The outer map's keys play no part, so it is given as the sequence of its
 * inner maps in enumeration order, which the source leaves unspecified.
 */
module DictionaryExtensions {
  import opened Wrappers
  import opened CaseInsensitive

  /** `SelectMany`: every pair of every inner map, in enumeration order. */
  function Flatten(maps: seq<Entries>): (r: Entries)
    ensures forall p | p in r :: exists j :: 0 <= j < |maps| && p in maps[j]
  {
    if maps == [] then [] else maps[0] + Flatten(maps[1..])
  }

  /** One-step preservation fact behind `FirstWins`. */
  lemma FirstWinsStep(init: Entries, last: (string, string), r0: Entries)
    requires CaseDistinct(r0)
    requires forall k :: FindPair(r0, k) == FindPair(init, k)
    requires forall p | p in r0 :: p in init
    ensures var r := if HasKey(r0, last.0) then r0 else r0 + [last];
      && CaseDistinct(r)
      && (forall k :: FindPair(r, k) == FindPair(init + [last], k))
      && (forall p | p in r :: p in init + [last])
  {
    var r := if HasKey(r0, last.0) then r0 else r0 + [last];
    if !HasKey(r0, last.0) {
      AppendFreshKey(r0, last);
    }
    forall k
      ensures FindPair(r, k) == FindPair(init + [last], k)
    {
      FindPairAppend(init, [last], k);
      if !HasKey(r0, last.0) {
        FindPairAppend(r0, [last], k);
      }
    }
  }

  /**
   * `ToLookup` followed by `First()` per group: for every key the first
   * pair, in order, whose key is comparer-equal to it.
   */
  function FirstWins(pairs: Entries): (r: Entries)
    ensures CaseDistinct(r)
    ensures forall k :: FindPair(r, k) == FindPair(pairs, k)
    ensures forall p | p in r :: p in pairs
    decreases |pairs|
  {
    if pairs == [] then []
    else
      var init := pairs[..|pairs| - 1];
      var last := pairs[|pairs| - 1];
      var r0 := FirstWins(init);
      assert init + [last] == pairs;
      FirstWinsStep(init, last, r0);
      if HasKey(r0, last.0) then r0 else r0 + [last]
  }

  /** Merge of a non-null source. */
  function MergeAll(maps: seq<Entries>): (r: Entries)
    ensures CaseDistinct(r)
    ensures forall k :: FindPair(r, k) == FindPair(Flatten(maps), k)
    ensures forall p | p in r :: exists j :: 0 <= j < |maps| && p in maps[j]
  {
    FirstWins(Flatten(maps))
  }

  /** `source?.SelectMany(...).ToLookup(...).ToDictionary(...)`: a null source gives null. */
  function Merge(source: Option<seq<Entries>>): (r: Option<Entries>)
    ensures r.None? <==> source.None?
    ensures r.Some? ==> CaseDistinct(r.value)
    ensures r.Some? ==> forall k :: FindPair(r.value, k) == FindPair(Flatten(source.value), k)
  {
    match source
    case None => None
    case Some(maps) => Some(MergeAll(maps))
  }

  // ---------------------------------------------------------------------
  // Order-independent properties, and first-wins relative to the order.
  // ---------------------------------------------------------------------

  /** A key is found in the concatenation exactly when some inner map has it. */
  lemma {:induction false} FlattenHasKey(maps: seq<Entries>, k: string)
    ensures HasKey(Flatten(maps), k) <==> exists j :: 0 <= j < |maps| && HasKey(maps[j], k)
  {
    if maps != [] {
      FindPairAppend(maps[0], Flatten(maps[1..]), k);
      FlattenHasKey(maps[1..], k);
      if exists j :: 0 <= j < |maps| && HasKey(maps[j], k) {
        var j :| 0 <= j < |maps| && HasKey(maps[j], k);
        if j > 0 {
          assert maps[1..][j - 1] == maps[j];
        }
      }
      if exists j :: 0 <= j < |maps[1..]| && HasKey(maps[1..][j], k) {
        var j :| 0 <= j < |maps[1..]| && HasKey(maps[1..][j], k);
        assert maps[j + 1] == maps[1..][j];
      }
    }
  }

  /**
   * The merged key set is the union of the inner key sets, taken modulo
   * the comparer.
   */
  lemma MergeKeySet(maps: seq<Entries>)
    ensures forall k :: HasKey(MergeAll(maps), k) <==> exists j :: 0 <= j < |maps| && HasKey(maps[j], k)
  {
    forall k
      ensures HasKey(MergeAll(maps), k) <==> exists j :: 0 <= j < |maps| && HasKey(maps[j], k)
    {
      FlattenHasKey(maps, k);
    }
  }

  /**
   * For each key, the merged pair (key casing and value) is the one of the
   * first inner map, in enumeration order, that defines the key.
   */
  lemma {:induction false} MergeFirstMapWins(maps: seq<Entries>, k: string, j: nat)
    requires j < |maps| && HasKey(maps[j], k)
    requires forall i | 0 <= i < j :: !HasKey(maps[i], k)
    ensures FindPair(MergeAll(maps), k) == FindPair(maps[j], k)
  {
    FindPairAppend(maps[0], Flatten(maps[1..]), k);
    if j > 0 {
      assert !HasKey(maps[0], k);
      forall i | 0 <= i < j - 1
        ensures !HasKey(maps[1..][i], k)
      {
        assert maps[1..][i] == maps[i + 1];
      }
      MergeFirstMapWins(maps[1..], k, j - 1);
    }
  }

  /** When some inner map defines a key, a first such map exists. */
  lemma {:induction false} FirstDefiningMap(maps: seq<Entries>, k: string, j: nat) returns (f: nat)
    requires j < |maps| && HasKey(maps[j], k)
    ensures f <= j && HasKey(maps[f], k)
    ensures forall i | 0 <= i < f :: !HasKey(maps[i], k)
    decreases j
  {
    if i :| 0 <= i < j && HasKey(maps[i], k) {
      f := FirstDefiningMap(maps, k, i);
    } else {
      f := j;
    }
  }

  /** No two inner maps share a key under the comparer. */
  ghost predicate PairwiseDisjoint(maps: seq<Entries>) {
    forall i, j, k | 0 <= i < j < |maps| :: !(HasKey(maps[i], k) && HasKey(maps[j], k))
  }

  /**
   * With pairwise-disjoint inner maps the merge is their union: every key
   * keeps the pair of the one map that defines it.
   */
  lemma MergeDisjoint(maps: seq<Entries>)
    requires PairwiseDisjoint(maps)
    ensures forall j, k | 0 <= j < |maps| && HasKey(maps[j], k) :: FindPair(MergeAll(maps), k) == FindPair(maps[j], k)
  {
    forall j, k | 0 <= j < |maps| && HasKey(maps[j], k)
      ensures FindPair(MergeAll(maps), k) == FindPair(maps[j], k)
    {
      var f := FirstDefiningMap(maps, k, j);
      MergeFirstMapWins(maps, k, f);
    }
  }

  /** With pairwise-disjoint inner maps, the enumeration order does not matter. */
  lemma MergeOrderIndependent(maps: seq<Entries>, other: seq<Entries>)
    requires PairwiseDisjoint(maps)
    requires multiset(maps) == multiset(other)
    ensures forall k :: FindPair(MergeAll(maps), k) == FindPair(MergeAll(other), k)
  {
    MergeKeySet(maps);
    MergeKeySet(other);
    forall k
      ensures FindPair(MergeAll(maps), k) == FindPair(MergeAll(other), k)
    {
      if j :| 0 <= j < |maps| && HasKey(maps[j], k) {
        var f := FirstDefiningMap(maps, k, j);
        MergeFirstMapWins(maps, k, f);
        assert maps[f] in multiset(other);
        var j' :| 0 <= j' < |other| && other[j'] == maps[f];
        var f' := FirstDefiningMap(other, k, j');
        MergeFirstMapWins(other, k, f');
        assert other[f'] in multiset(maps);
        var g :| 0 <= g < |maps| && maps[g] == other[f'];
        assert g == f;
      } else {
        forall j' | 0 <= j' < |other|
          ensures !HasKey(other[j'], k)
        {
          assert other[j'] in multiset(maps);
        }
      }
    }
  }
}
