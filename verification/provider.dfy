/**
 * `RestApiConfigurationProvider`: cache-aside loading of every configured
 * configuration set, a retained per-set table, and the merged `Data`
 * snapshot.
 *
 * The provider is a pure state transition. The distributed cache is a
 * store of logical entries (serialisation is an abstract round trip: what
 * is written is what is read back; a payload that does not deserialise
 * reads as a miss), together with the keys on which reading, writing or
 * removing throws. The REST client is a function from a configuration set
 * id to its outcome: a response, null, or a thrown exception. `Task.WhenAll`
 * is modelled as processing the configured ids one after the other, in
 * list order; the enumeration order of the table (a `ConcurrentDictionary`,
 * whose order is unspecified) is a parameter of the reload.
 */
module RestApiConfigurationProvider {
  import opened Wrappers
  import opened CaseInsensitive
  import Parser = JsonConfigurationParser
  import DictionaryExtensions
  import Text

  datatype Settings = Settings(configurationKeys: seq<string>, cacheDurationMinutes: int, cacheKeyPrefix: string)

  /** The fields of a configuration response the provider reads. */
  datatype Response = Response(configurationSetId: Option<string>, configurationValue: Parser.Lexed)

  datatype FetchOutcome = Returned(response: Response) | ReturnedNull | Threw

  /** A cache record: the stored map (None when it does not deserialise) and its lifetime. */
  datatype CacheEntry = CacheEntry(payload: Option<Entries>, ttlMinutes: int)

  datatype CacheStore = CacheStore(
    entries: map<string, CacheEntry>,
    failingReads: set<string>,
    failingWrites: set<string>,
    failingRemoves: set<string>)

  /** Calls the provider makes on its collaborators. */
  datatype Effect =
    | CacheGet(key: string)
    | Fetch(id: string)
    | CacheSet(key: string, value: Entries, ttlMinutes: int)
    | CacheRemove(key: string)

  datatype Provider = Provider(settings: Settings, table: map<string, Entries>, data: Entries, reloads: nat)

  datatype ConstructionError = ArgumentNull(paramName: string)

  /** The state after an operation, and whether it ended by throwing. */
  datatype Outcome = Outcome(provider: Provider, cache: CacheStore, effects: seq<Effect>, faulted: bool)

  /** The state after loading one or more configuration sets. */
  datatype Step = Step(cache: CacheStore, table: map<string, Entries>, effects: seq<Effect>, faulted: bool)

  /** The constructor: a null settings object throws, otherwise the table and `Data` start empty. */
  function New(settings: Option<Settings>): (r: Result<Provider, ConstructionError>)
    ensures r.Failure? <==> settings.None?
    ensures r.Failure? ==> r.error == ArgumentNull("restApiConfigurationProviderSettings")
    ensures r.Success? ==> r.value.settings == settings.value && r.value.table == map[] && r.value.data == []
  {
    match settings
    case None => Failure(ArgumentNull("restApiConfigurationProviderSettings"))
    case Some(s) => Success(Provider(s, map[], [], 0))
  }

  /** `BuildCacheKey`: the prefix, an underscore, then the configuration key. */
  function BuildCacheKey(prefix: string, id: string): (key: string)
    ensures |key| == |prefix| + 1 + |id|
    ensures key[..|prefix|] == prefix && key[|prefix|] == '_' && key[|prefix| + 1..] == id
  {
    prefix + "_" + id
  }

  /** Under one prefix, distinct configuration keys never share a cache key. */
  lemma CacheKeyInjective(prefix: string, a: string, b: string)
    requires BuildCacheKey(prefix, a) == BuildCacheKey(prefix, b)
    ensures a == b
  {
    assert a == BuildCacheKey(prefix, a)[|prefix| + 1..];
  }

  /** `GetAsync<IDictionary<string, string>>`: the stored map, or None on a miss. */
  function ReadCache(cache: CacheStore, key: string): Option<Entries> {
    if key in cache.entries then cache.entries[key].payload else None
  }

  /**
   * `GetFromRestApiAsync`: a thrown exception, a null response or a payload
   * that does not parse gives no map; otherwise the payload is parsed with
   * the response's own `ConfigurationSetId` as the section.
   */
  function GetFromRestApi(outcome: FetchOutcome): (r: Option<Entries>)
    ensures r.Some? ==> outcome.Returned?
    ensures r.Some? ==> CaseDistinct(r.value)
    ensures outcome.Returned? ==>
      (r.Some? <==> Parser.Parse(outcome.response.configurationValue, outcome.response.configurationSetId).Success?)
  {
    match outcome
    case Threw => None
    case ReturnedNull => None
    case Returned(resp) =>
      Parser.ParsedKeysDistinct(resp.configurationValue, resp.configurationSetId);
      match Parser.Parse(resp.configurationValue, resp.configurationSetId)
      case Failure(_) => None
      case Success(m) => Some(m)
  }

  /** Same presence and same value at one key. */
  predicate AgreeAt<K, V(==)>(m1: map<K, V>, m2: map<K, V>, k: K) {
    (k in m1 <==> k in m2) && (k in m1 ==> m1[k] == m2[k])
  }

  /** The two stores differ at most in the entry under `key`. */
  ghost predicate CacheAgreesExcept(c1: CacheStore, c2: CacheStore, key: string) {
    && c1.failingReads == c2.failingReads
    && c1.failingWrites == c2.failingWrites
    && c1.failingRemoves == c2.failingRemoves
    && (forall k | k in c1.entries || k in c2.entries :: k != key ==> AgreeAt(c1.entries, c2.entries, k))
  }

  ghost predicate TableAgreesExcept(t1: map<string, Entries>, t2: map<string, Entries>, id: string) {
    forall k | k in t1 || k in t2 :: k != id ==> AgreeAt(t1, t2, k)
  }

  /**
   * `LoadConfigurationAsync` for one configuration key: read the cache; on
   * a hit use the cached map; on a miss fetch and parse, write the result
   * back with the configured lifetime, and store it in the table. A failing
   * fetch or parse leaves everything as it was. A throwing cache read or
   * write is not caught: the step faults and the table is not updated.
   * `TimeSpan.FromMinutes` of a non-positive lifetime makes the cache entry
   * options reject it, so the write throws before reaching the store.
   */
  function LoadConfiguration(settings: Settings, fetch: string -> FetchOutcome, cache: CacheStore,
                             table: map<string, Entries>, id: string): (s: Step)
    ensures var key := BuildCacheKey(settings.cacheKeyPrefix, id);
      && |s.effects| > 0 && s.effects[0] == CacheGet(key)
      && TableAgreesExcept(table, s.table, id)
      && CacheAgreesExcept(cache, s.cache, key)
    // a throwing read: nothing else happens
    ensures var key := BuildCacheKey(settings.cacheKeyPrefix, id);
      key in cache.failingReads ==> s == Step(cache, table, [CacheGet(key)], true)
    // a hit: the cached map is stored, with no fetch and no write
    ensures var key := BuildCacheKey(settings.cacheKeyPrefix, id);
      key !in cache.failingReads && ReadCache(cache, key).Some? ==>
        s == Step(cache, table[id := ReadCache(cache, key).value], [CacheGet(key)], false)
    // a miss always fetches
    ensures var key := BuildCacheKey(settings.cacheKeyPrefix, id);
      key !in cache.failingReads && ReadCache(cache, key).None? ==> |s.effects| > 1 && s.effects[1] == Fetch(id)
    // a miss whose fetch or parse fails: no write, table and cache unchanged
    ensures var key := BuildCacheKey(settings.cacheKeyPrefix, id);
      key !in cache.failingReads && ReadCache(cache, key).None? && GetFromRestApi(fetch(id)).None? ==>
        s == Step(cache, table, [CacheGet(key), Fetch(id)], false)
    // a miss that yields a map: written back under the same key, then stored
    ensures var key := BuildCacheKey(settings.cacheKeyPrefix, id);
      var ttl := settings.cacheDurationMinutes;
      key !in cache.failingReads && ReadCache(cache, key).None? && GetFromRestApi(fetch(id)).Some? ==>
        var m := GetFromRestApi(fetch(id)).value;
        if ttl > 0 && key !in cache.failingWrites then
          && s.cache == cache.(entries := cache.entries[key := CacheEntry(Some(m), ttl)])
          && s.table == table[id := m]
          && s.effects == [CacheGet(key), Fetch(id), CacheSet(key, m, ttl)]
          && !s.faulted
        else
          s.faulted && s.table == table && s.cache == cache
  {
    var key := BuildCacheKey(settings.cacheKeyPrefix, id);
    if key in cache.failingReads then Step(cache, table, [CacheGet(key)], true)
    else
      match ReadCache(cache, key)
      case Some(m) => Step(cache, table[id := m], [CacheGet(key)], false)
      case None =>
        match GetFromRestApi(fetch(id))
        case None => Step(cache, table, [CacheGet(key), Fetch(id)], false)
        case Some(m) =>
          var ttl := settings.cacheDurationMinutes;
          if ttl <= 0 then Step(cache, table, [CacheGet(key), Fetch(id)], true)
          else if key in cache.failingWrites then Step(cache, table, [CacheGet(key), Fetch(id), CacheSet(key, m, ttl)], true)
          else
            Step(cache.(entries := cache.entries[key := CacheEntry(Some(m), ttl)]), table[id := m],
                 [CacheGet(key), Fetch(id), CacheSet(key, m, ttl)], false)
  }

  /**
   * One step only looks at the cache entry of its own key and the table
   * entry of its own id: two states that agree there give the same step
   * there.
   */
  lemma LoadConfigurationLocal(settings: Settings, fetch: string -> FetchOutcome,
                               c1: CacheStore, t1: map<string, Entries>,
                               c2: CacheStore, t2: map<string, Entries>, id: string)
    requires AgreeAt(c1.entries, c2.entries, BuildCacheKey(settings.cacheKeyPrefix, id))
    requires c1.failingReads == c2.failingReads && c1.failingWrites == c2.failingWrites
    requires AgreeAt(t1, t2, id)
    ensures var s1 := LoadConfiguration(settings, fetch, c1, t1, id);
      var s2 := LoadConfiguration(settings, fetch, c2, t2, id);
      s1.effects == s2.effects && s1.faulted == s2.faulted && AgreeAt(s1.table, s2.table, id)
  {
  }

  /** `Task.WhenAll` over the configured keys, one after the other. */
  function LoadAll(settings: Settings, fetch: string -> FetchOutcome, cache: CacheStore,
                   table: map<string, Entries>, ids: seq<string>): (s: Step)
    ensures forall k | k in table || k in s.table :: k !in ids ==> AgreeAt(table, s.table, k)
    ensures forall key | key in cache.entries || key in s.cache.entries ::
      (forall i | 0 <= i < |ids| :: key != BuildCacheKey(settings.cacheKeyPrefix, ids[i])) ==>
        AgreeAt(cache.entries, s.cache.entries, key)
    ensures s.cache.failingReads == cache.failingReads && s.cache.failingWrites == cache.failingWrites
    ensures s.cache.failingRemoves == cache.failingRemoves
    decreases |ids|
  {
    if ids == [] then Step(cache, table, [], false)
    else
      var first := LoadConfiguration(settings, fetch, cache, table, ids[0]);
      var rest := LoadAll(settings, fetch, first.cache, first.table, ids[1..]);
      Step(rest.cache, rest.table, first.effects + rest.effects, first.faulted || rest.faulted)
  }

  predicate NoDuplicates<T(==)>(s: seq<T>) {
    forall i, j | 0 <= i < j < |s| :: s[i] != s[j]
  }

  function TableAt(table: map<string, Entries>, id: string): Option<Entries> {
    if id in table then Some(table[id]) else None
  }

  /** Loading one id leaves the step of any other id as it would have been. */
  lemma OtherStepUnaffected(settings: Settings, fetch: string -> FetchOutcome, cache: CacheStore,
                            table: map<string, Entries>, a: string, b: string)
    requires a != b
    ensures var first := LoadConfiguration(settings, fetch, cache, table, a);
      var s1 := LoadConfiguration(settings, fetch, first.cache, first.table, b);
      var s0 := LoadConfiguration(settings, fetch, cache, table, b);
      s1.effects == s0.effects && s1.faulted == s0.faulted && TableAt(s1.table, b) == TableAt(s0.table, b)
  {
    var first := LoadConfiguration(settings, fetch, cache, table, a);
    var key := BuildCacheKey(settings.cacheKeyPrefix, b);
    if key == BuildCacheKey(settings.cacheKeyPrefix, a) {
      CacheKeyInjective(settings.cacheKeyPrefix, b, a);
    }
    assert AgreeAt(first.cache.entries, cache.entries, key);
    LoadConfigurationLocal(settings, fetch, first.cache, first.table, cache, table, b);
  }

  lemma NoDuplicatesTail<T>(s: seq<T>)
    requires s != [] && NoDuplicates(s)
    ensures NoDuplicates(s[1..]) && s[0] !in s[1..]
  {
    var rest := s[1..];
    forall a, b | 0 <= a < b < |rest|
      ensures rest[a] != rest[b]
    {
      assert rest[a] == s[a + 1] && rest[b] == s[b + 1];
    }
    forall b | 0 <= b < |rest|
      ensures rest[b] != s[0]
    {
      assert rest[b] == s[b + 1];
    }
  }

  /**
   * With distinct configuration keys, each set ends with the table entry it
   * would get if it were loaded alone from the initial state: the order of
   * the steps does not matter, and one set's failure does not affect
   * another's.
   */
  lemma {:induction false} LoadAllPerSet(settings: Settings, fetch: string -> FetchOutcome, cache: CacheStore,
                                         table: map<string, Entries>, ids: seq<string>)
    requires NoDuplicates(ids)
    ensures var s := LoadAll(settings, fetch, cache, table, ids);
      forall i | 0 <= i < |ids| ::
        TableAt(s.table, ids[i]) == TableAt(LoadConfiguration(settings, fetch, cache, table, ids[i]).table, ids[i])
    decreases |ids|
  {
    if ids != [] {
      var first := LoadConfiguration(settings, fetch, cache, table, ids[0]);
      var rest := ids[1..];
      NoDuplicatesTail(ids);
      LoadAllPerSet(settings, fetch, first.cache, first.table, rest);
      var s := LoadAll(settings, fetch, cache, table, ids);
      forall i | 0 <= i < |ids|
        ensures TableAt(s.table, ids[i]) == TableAt(LoadConfiguration(settings, fetch, cache, table, ids[i]).table, ids[i])
      {
        if i > 0 {
          assert rest[i - 1] == ids[i];
          OtherStepUnaffected(settings, fetch, cache, table, ids[0], ids[i]);
        }
      }
    }
  }

  /** With distinct configuration keys, the reload faults exactly when some set's own step faults. */
  lemma {:induction false} LoadAllFaults(settings: Settings, fetch: string -> FetchOutcome, cache: CacheStore,
                                         table: map<string, Entries>, ids: seq<string>)
    requires NoDuplicates(ids)
    ensures LoadAll(settings, fetch, cache, table, ids).faulted <==>
      exists i :: 0 <= i < |ids| && LoadConfiguration(settings, fetch, cache, table, ids[i]).faulted
    decreases |ids|
  {
    if ids != [] {
      var first := LoadConfiguration(settings, fetch, cache, table, ids[0]);
      var rest := ids[1..];
      NoDuplicatesTail(ids);
      LoadAllFaults(settings, fetch, first.cache, first.table, rest);
      forall i | 1 <= i < |ids|
        ensures LoadConfiguration(settings, fetch, first.cache, first.table, rest[i - 1]).faulted
            == LoadConfiguration(settings, fetch, cache, table, ids[i]).faulted
      {
        assert rest[i - 1] == ids[i];
        OtherStepUnaffected(settings, fetch, cache, table, ids[0], ids[i]);
      }
      if exists i :: 0 <= i < |ids| && LoadConfiguration(settings, fetch, cache, table, ids[i]).faulted {
        var i :| 0 <= i < |ids| && LoadConfiguration(settings, fetch, cache, table, ids[i]).faulted;
        if i > 0 {
          assert LoadConfiguration(settings, fetch, first.cache, first.table, rest[i - 1]).faulted;
        }
      }
      if LoadAll(settings, fetch, first.cache, first.table, rest).faulted {
        var i :| 0 <= i < |rest| && LoadConfiguration(settings, fetch, first.cache, first.table, rest[i]).faulted;
        assert LoadConfiguration(settings, fetch, cache, table, ids[i + 1]).faulted;
      }
    }
  }

  /** With distinct configuration keys, every call a set's own step makes is made by the reload. */
  lemma {:induction false} LoadAllEffects(settings: Settings, fetch: string -> FetchOutcome, cache: CacheStore,
                                          table: map<string, Entries>, ids: seq<string>)
    requires NoDuplicates(ids)
    ensures forall i, e | 0 <= i < |ids| && e in LoadConfiguration(settings, fetch, cache, table, ids[i]).effects ::
      e in LoadAll(settings, fetch, cache, table, ids).effects
    decreases |ids|
  {
    if ids != [] {
      var first := LoadConfiguration(settings, fetch, cache, table, ids[0]);
      var rest := ids[1..];
      NoDuplicatesTail(ids);
      LoadAllEffects(settings, fetch, first.cache, first.table, rest);
      var s := LoadAll(settings, fetch, cache, table, ids);
      var tail := LoadAll(settings, fetch, first.cache, first.table, rest);
      assert s.effects == first.effects + tail.effects;
      forall i, e | 0 <= i < |ids| && e in LoadConfiguration(settings, fetch, cache, table, ids[i]).effects
        ensures e in s.effects
      {
        if i > 0 {
          assert rest[i - 1] == ids[i];
          OtherStepUnaffected(settings, fetch, cache, table, ids[0], ids[i]);
          assert e in LoadConfiguration(settings, fetch, first.cache, first.table, rest[i - 1]).effects;
          assert e in tail.effects;
        }
      }
    }
  }

  /** The table's values, in an enumeration order of its keys. */
  function TableValues(table: map<string, Entries>, enumeration: seq<string>): (r: seq<Entries>)
    ensures forall v | v in r :: exists k :: k in enumeration && k in table && table[k] == v
  {
    if enumeration == [] then []
    else (if enumeration[0] in table then [table[enumeration[0]]] else []) + TableValues(table, enumeration[1..])
  }

  lemma {:induction false} TableValuesComplete(table: map<string, Entries>, enumeration: seq<string>, k: string)
    requires k in table && k in enumeration
    ensures table[k] in TableValues(table, enumeration)
  {
    if enumeration[0] != k {
      TableValuesComplete(table, enumeration[1..], k);
    }
  }

  /**
   * A valid enumeration order for the table at the end of a reload: no key
   * twice, and every key the table can hold by then (its current keys and
   * the configured ones) listed.
   */
  predicate IsEnumeration(p: Provider, enumeration: seq<string>) {
    && NoDuplicates(enumeration)
    && (forall k | k in p.table :: k in enumeration)
    && (forall i | 0 <= i < |p.settings.configurationKeys| :: p.settings.configurationKeys[i] in enumeration)
  }

  /**
   * `LoadAsync`: load every configured set, then replace `Data` by the
   * merge of the whole retained table (entries of earlier reloads
   * included) and raise the reload notification. A cache failure in any
   * set makes the whole call throw after all sets have run: the table keeps
   * what the other sets stored, but `Data` is not replaced.
   */
  function LoadAsync(p: Provider, fetch: string -> FetchOutcome, cache: CacheStore, enumeration: seq<string>): (r: Outcome)
    requires IsEnumeration(p, enumeration)
    ensures var s := LoadAll(p.settings, fetch, cache, p.table, p.settings.configurationKeys);
      && r.faulted == s.faulted
      && r.provider.table == s.table
      && r.cache == s.cache
      && r.effects == s.effects
    ensures r.provider.settings == p.settings
    ensures forall id | id in r.provider.table :: id in p.table || id in p.settings.configurationKeys
    ensures forall id | id in p.table && id !in p.settings.configurationKeys ::
      id in r.provider.table && r.provider.table[id] == p.table[id]
    ensures r.faulted ==> r.provider.data == p.data && r.provider.reloads == p.reloads
    ensures !r.faulted ==> r.provider.reloads == p.reloads + 1
    ensures !r.faulted ==> CaseDistinct(r.provider.data)
    ensures !r.faulted ==> forall k ::
      HasKey(r.provider.data, k) <==> exists id :: id in r.provider.table && HasKey(r.provider.table[id], k)
    ensures !r.faulted ==> forall q | q in r.provider.data ::
      exists id :: id in r.provider.table && q in r.provider.table[id]
    ensures !r.faulted ==> forall k ::
      FindPair(r.provider.data, k) ==
      FindPair(DictionaryExtensions.Flatten(TableValues(r.provider.table, enumeration)), k)
  {
    var s := LoadAll(p.settings, fetch, cache, p.table, p.settings.configurationKeys);
    if s.faulted then Outcome(p.(table := s.table), s.cache, s.effects, true)
    else
      var values := TableValues(s.table, enumeration);
      var data := DictionaryExtensions.MergeAll(values);
      MergedTableKeys(s.table, enumeration);
      Outcome(p.(table := s.table, data := data, reloads := p.reloads + 1), s.cache, s.effects, false)
  }

  /** The merged key set is the union of the key sets of all table entries. */
  lemma MergedTableKeys(table: map<string, Entries>, enumeration: seq<string>)
    requires forall k | k in table :: k in enumeration
    ensures forall k ::
      HasKey(DictionaryExtensions.MergeAll(TableValues(table, enumeration)), k) <==>
      exists id :: id in table && HasKey(table[id], k)
    ensures forall q | q in DictionaryExtensions.MergeAll(TableValues(table, enumeration)) ::
      exists id :: id in table && q in table[id]
  {
    var values := TableValues(table, enumeration);
    DictionaryExtensions.MergeKeySet(values);
    forall k, id | id in table && HasKey(table[id], k)
      ensures exists j :: 0 <= j < |values| && HasKey(values[j], k)
    {
      TableValuesComplete(table, enumeration, id);
      var j :| 0 <= j < |values| && values[j] == table[id];
    }
    forall q | q in DictionaryExtensions.MergeAll(values)
      ensures exists id :: id in table && q in table[id]
    {
      var j :| 0 <= j < |values| && q in values[j];
      assert values[j] in values;
    }
  }

  /** `Load`: runs `LoadAsync` and logs instead of throwing. */
  function Load(p: Provider, fetch: string -> FetchOutcome, cache: CacheStore, enumeration: seq<string>): (r: Outcome)
    requires IsEnumeration(p, enumeration)
    ensures !r.faulted
    ensures var a := LoadAsync(p, fetch, cache, enumeration);
      && (a.faulted ==> r.provider.data == p.data && r.provider.reloads == p.reloads)
      && (!a.faulted ==> r.provider.data == a.provider.data && r.provider.reloads == p.reloads + 1)
    ensures r.provider.table == LoadAll(p.settings, fetch, cache, p.table, p.settings.configurationKeys).table
  {
    LoadAsync(p, fetch, cache, enumeration).(faulted := false)
  }

  /**
   * A reload in which one configured set's cache read throws: the call
   * faults and `Data` and the reload count are kept, the throwing set keeps
   * the table entry it had, and every set ends with the table entry its own
   * step gives, as if the others had not run.
   */
  lemma ReadFailureKeepsData(p: Provider, fetch: string -> FetchOutcome, cache: CacheStore,
                             enumeration: seq<string>, i: nat)
    requires IsEnumeration(p, enumeration)
    requires NoDuplicates(p.settings.configurationKeys)
    requires i < |p.settings.configurationKeys|
    requires BuildCacheKey(p.settings.cacheKeyPrefix, p.settings.configurationKeys[i]) in cache.failingReads
    ensures var ids := p.settings.configurationKeys;
      var r := LoadAsync(p, fetch, cache, enumeration);
      && r.faulted
      && r.provider.data == p.data && r.provider.reloads == p.reloads
      && TableAt(r.provider.table, ids[i]) == TableAt(p.table, ids[i])
      && forall j | 0 <= j < |ids| ::
           TableAt(r.provider.table, ids[j]) == TableAt(LoadConfiguration(p.settings, fetch, cache, p.table, ids[j]).table, ids[j])
  {
    var ids := p.settings.configurationKeys;
    LoadAllFaults(p.settings, fetch, cache, p.table, ids);
    assert LoadConfiguration(p.settings, fetch, cache, p.table, ids[i]).faulted;
    LoadAllPerSet(p.settings, fetch, cache, p.table, ids);
  }

  /** `TryGet`: case-insensitive lookup in the current `Data`. */
  function TryGet(p: Provider, key: string): Option<string> {
    Lookup(p.data, key)
  }

  /**
   * `InvalidateCacheAsync`: removes exactly the cache entry of the given
   * configuration key; the table and `Data` are not touched. A throwing
   * removal propagates.
   */
  function InvalidateCache(p: Provider, cache: CacheStore, id: string): (r: Outcome)
    ensures r.provider == p
    ensures var key := BuildCacheKey(p.settings.cacheKeyPrefix, id);
      && r.effects == [CacheRemove(key)]
      && (r.faulted <==> key in cache.failingRemoves)
      && (r.faulted ==> r.cache == cache)
      && (!r.faulted ==> key !in r.cache.entries && CacheAgreesExcept(cache, r.cache, key))
  {
    var key := BuildCacheKey(p.settings.cacheKeyPrefix, id);
    if key in cache.failingRemoves then Outcome(p, cache, [CacheRemove(key)], true)
    else Outcome(p, cache.(entries := cache.entries - {key}), [CacheRemove(key)], false)
  }

  /**
   * After a successful invalidation, the next reload of a configured key
   * whose cache read works goes to the REST API for it.
   */
  lemma InvalidateThenReloadFetches(p: Provider, cache: CacheStore, fetch: string -> FetchOutcome,
                                    enumeration: seq<string>, i: nat)
    requires i < |p.settings.configurationKeys|
    requires NoDuplicates(p.settings.configurationKeys)
    requires IsEnumeration(p, enumeration)
    requires var key := BuildCacheKey(p.settings.cacheKeyPrefix, p.settings.configurationKeys[i]);
      key !in cache.failingRemoves && key !in cache.failingReads
    ensures var inv := InvalidateCache(p, cache, p.settings.configurationKeys[i]);
      Fetch(p.settings.configurationKeys[i]) in LoadAsync(inv.provider, fetch, inv.cache, enumeration).effects
  {
    var id := p.settings.configurationKeys[i];
    var inv := InvalidateCache(p, cache, id);
    LoadAllEffects(p.settings, fetch, inv.cache, p.table, p.settings.configurationKeys);
    var step := LoadConfiguration(p.settings, fetch, inv.cache, p.table, id);
    assert step.effects[1] == Fetch(id);
    assert Fetch(id) in step.effects;
    assert Fetch(id) in LoadAll(p.settings, fetch, inv.cache, p.table, p.settings.configurationKeys).effects;
  }

  // ---------------------------------------------------------------------
  // The documented scenarios.
  // ---------------------------------------------------------------------

  const ExampleSettings := Settings(["ConfigurationSet1", "ConfigurationSet2"], 10, "cache_key_prefix")

  /** The cache key of the first example set. */
  lemma CacheKeyExample()
    ensures BuildCacheKey("cache_key_prefix", "ConfigurationSet1") == "cache_key_prefix_ConfigurationSet1"
  {
  }

  /**
   * Both sets cached as `{"SubKey1": "Value1"}`: the reload reads the
   * cache only, and `SubKey1` resolves to `Value1`.
   */
  lemma LoadsFromCacheExample(fetch: string -> FetchOutcome, cache: CacheStore, p: Provider)
    requires var m := [("SubKey1", "Value1")];
      cache == CacheStore(map[
        BuildCacheKey("cache_key_prefix", "ConfigurationSet1") := CacheEntry(Some(m), 10),
        BuildCacheKey("cache_key_prefix", "ConfigurationSet2") := CacheEntry(Some(m), 10)], {}, {}, {})
    requires p == Provider(ExampleSettings, map[], [], 0)
    ensures var r := LoadAsync(p, fetch, cache, ExampleSettings.configurationKeys);
      && !r.faulted
      && TryGet(r.provider, "SubKey1") == Some("Value1")
      && (forall e | e in r.effects :: e.CacheGet?)
  {
    var m := [("SubKey1", "Value1")];
    var k1 := BuildCacheKey("cache_key_prefix", "ConfigurationSet1");
    var k2 := BuildCacheKey("cache_key_prefix", "ConfigurationSet2");
    var ids := ExampleSettings.configurationKeys;
    assert IsEnumeration(p, ids);
    var s := LoadAll(ExampleSettings, fetch, cache, map[], ids);
    assert s == Step(cache, map[ids[0] := m, ids[1] := m], [CacheGet(k1), CacheGet(k2)], false) by {
      CacheHitsLoadAll(fetch, cache, k1, k2, m);
    }
    LoadAsyncReadsFirstSet(p, fetch, cache, ids, "SubKey1", "Value1");
  }

  /**
   * When the loads succeed and the first set of the enumeration opens with
   * `key := value`, the reload succeeds, has the loads' effects, and reads
   * `value` under `key`.
   */
  lemma LoadAsyncReadsFirstSet(p: Provider, fetch: string -> FetchOutcome, cache: CacheStore, ids: seq<string>,
                               key: string, value: string)
    requires IsEnumeration(p, ids)
    requires var s := LoadAll(p.settings, fetch, cache, p.table, p.settings.configurationKeys);
      && !s.faulted && ids != [] && ids[0] in s.table
      && s.table[ids[0]] != [] && s.table[ids[0]][0] == (key, value)
    ensures var r := LoadAsync(p, fetch, cache, ids);
      && !r.faulted
      && r.effects == LoadAll(p.settings, fetch, cache, p.table, p.settings.configurationKeys).effects
      && TryGet(r.provider, key) == Some(value)
  {
    var s := LoadAll(p.settings, fetch, cache, p.table, p.settings.configurationKeys);
    var values := TableValues(s.table, ids);
    assert values[0] == s.table[ids[0]];
    LoadAsyncMerges(p, fetch, cache, ids);
    FirstPairWins(LoadAsync(p, fetch, cache, ids).provider, values, key, value);
  }

  /** The first pair of the first merged set is found under its key. */
  lemma FirstPairWins(p: Provider, values: seq<Entries>, key: string, value: string)
    requires forall k :: FindPair(p.data, k) == FindPair(DictionaryExtensions.Flatten(values), k)
    requires values != [] && values[0] != [] && values[0][0] == (key, value)
    ensures TryGet(p, key) == Some(value)
  {
    var flat := DictionaryExtensions.Flatten(values);
    assert flat == values[0] + DictionaryExtensions.Flatten(values[1..]);
    assert flat[0] == (key, value);
    assert FindPair(flat, key) == Some((key, value));
  }

  /** Both sets are found in the cache: two reads, nothing fetched, nothing written. */
  lemma CacheHitsLoadAll(fetch: string -> FetchOutcome, cache: CacheStore, k1: string, k2: string, m: Entries)
    requires k1 == BuildCacheKey("cache_key_prefix", "ConfigurationSet1")
    requires k2 == BuildCacheKey("cache_key_prefix", "ConfigurationSet2")
    requires cache == CacheStore(map[k1 := CacheEntry(Some(m), 10), k2 := CacheEntry(Some(m), 10)], {}, {}, {})
    ensures var ids := ExampleSettings.configurationKeys;
      LoadAll(ExampleSettings, fetch, cache, map[], ids) ==
      Step(cache, map[ids[0] := m, ids[1] := m], [CacheGet(k1), CacheGet(k2)], false)
  {
    assert k1 != k2 by {
      assert k1[|k1| - 1] != k2[|k2| - 1];
    }
    var ids := ExampleSettings.configurationKeys;
    var s1 := LoadConfiguration(ExampleSettings, fetch, cache, map[], ids[0]);
    assert s1 == Step(cache, map[ids[0] := m], [CacheGet(k1)], false);
    var s2 := LoadConfiguration(ExampleSettings, fetch, cache, s1.table, ids[1]);
    assert s2 == Step(cache, map[ids[0] := m, ids[1] := m], [CacheGet(k2)], false);
    assert ids[1..][1..] == [];
  }

  /** The responses of the two-set scenario: each carries its own set id as the section. */
  function ExampleFetch(id: string): FetchOutcome {
    if id == "Alpha" then Returned(Response(Some("Alpha"), Parser.Token(Parser.Obj([Parser.Member("x", Parser.Leaf("1"))]))))
    else Returned(Response(Some("Beta"), Parser.Token(Parser.Obj([Parser.Member("y", Parser.Leaf("hi"))]))))
  }

  lemma ExampleFetchParses()
    ensures GetFromRestApi(ExampleFetch("Alpha")) == Some([("Alpha:x", "1")])
    ensures GetFromRestApi(ExampleFetch("Beta")) == Some([("Beta:y", "hi")])
  {
    ParsedSectionExample("Alpha", "x", "1");
    ParsedSectionExample("Beta", "y", "hi");
    assert "Alpha" + ":" + "x" == "Alpha:x";
    assert "Beta" + ":" + "y" == "Beta:y";
  }

  /** Both sets miss the empty cache, are fetched, written back, and stored. */
  lemma ExampleLoadAll(settings: Settings, cache: CacheStore)
    requires settings == Settings(["Alpha", "Beta"], 5, "p")
    requires cache == CacheStore(map[], {}, {}, {})
    ensures var s := LoadAll(settings, ExampleFetch, cache, map[], settings.configurationKeys);
      && !s.faulted
      && s.table == map["Alpha" := [("Alpha:x", "1")], "Beta" := [("Beta:y", "hi")]]
      && CacheSet(BuildCacheKey("p", "Alpha"), [("Alpha:x", "1")], 5) in s.effects
  {
    var a := [("Alpha:x", "1")];
    var b := [("Beta:y", "hi")];
    ExampleFetchParses();
    var ka := BuildCacheKey("p", "Alpha");
    var kb := BuildCacheKey("p", "Beta");
    assert ka != kb by {
      assert ka[2] != kb[2];
    }
    var s1 := LoadConfiguration(settings, ExampleFetch, cache, map[], "Alpha");
    assert s1.table == map["Alpha" := a] && !s1.faulted;
    assert CacheSet(ka, a, 5) in s1.effects;
    assert ReadCache(s1.cache, kb).None?;
    var s2 := LoadConfiguration(settings, ExampleFetch, s1.cache, s1.table, "Beta");
    assert s2.table == map["Alpha" := a, "Beta" := b] && !s2.faulted;
    var ids := settings.configurationKeys;
    assert ids[1..] == ["Beta"];
    assert ids[1..][1..] == [];
  }

  /**
   * The two-set scenario: sets `Alpha` and `Beta` missing from the cache,
   * whose responses carry their own set ids. After a reload `Alpha:x` is
   * `1` and `Beta:y` is `hi`, and the fetched map was written back to the
   * cache.
   */
  lemma EndToEndExample(settings: Settings, cache: CacheStore, p: Provider)
    requires settings == Settings(["Alpha", "Beta"], 5, "p")
    requires cache == CacheStore(map[], {}, {}, {})
    requires p == Provider(settings, map[], [], 0)
    ensures var r := LoadAsync(p, ExampleFetch, cache, settings.configurationKeys);
      && !r.faulted
      && TryGet(r.provider, "Alpha:x") == Some("1")
      && TryGet(r.provider, "Beta:y") == Some("hi")
      && CacheSet(BuildCacheKey("p", "Alpha"), [("Alpha:x", "1")], 5) in r.effects
  {
    var ids := settings.configurationKeys;
    ExampleLoadAll(settings, cache);
    var s := LoadAll(settings, ExampleFetch, cache, map[], ids);
    ExampleTableValues(s.table, ids);
    LoadAsyncMerges(p, ExampleFetch, cache, ids);
    TwoSetsRead(LoadAsync(p, ExampleFetch, cache, ids).provider, TableValues(s.table, ids));
  }

  lemma ExampleTableValues(table: map<string, Entries>, ids: seq<string>)
    requires table == map["Alpha" := [("Alpha:x", "1")], "Beta" := [("Beta:y", "hi")]]
    requires ids == ["Alpha", "Beta"]
    ensures TableValues(table, ids) == [[("Alpha:x", "1")], [("Beta:y", "hi")]]
  {
    assert ids[1..] == ["Beta"];
    assert ids[1..][1..] == [];
    assert TableValues(table, ["Beta"]) == [[("Beta:y", "hi")]] + TableValues(table, []);
  }

  /**
   * A reload whose loads succeed has the loads' effects, and its `Data`
   * reads like the table's sets flattened in enumeration order.
   */
  lemma LoadAsyncMerges(p: Provider, fetch: string -> FetchOutcome, cache: CacheStore, ids: seq<string>)
    requires IsEnumeration(p, ids)
    requires !LoadAll(p.settings, fetch, cache, p.table, p.settings.configurationKeys).faulted
    ensures var s := LoadAll(p.settings, fetch, cache, p.table, p.settings.configurationKeys);
      var r := LoadAsync(p, fetch, cache, ids);
      && !r.faulted
      && r.effects == s.effects
      && r.provider.table == s.table
      && forall k :: FindPair(r.provider.data, k) == FindPair(DictionaryExtensions.Flatten(TableValues(s.table, ids)), k)
  {
  }

  /** Reading the merge of the two example sets: each key is found in its own set. */
  lemma TwoSetsRead(p: Provider, values: seq<Entries>)
    requires values == [[("Alpha:x", "1")], [("Beta:y", "hi")]]
    requires forall k :: FindPair(p.data, k) == FindPair(DictionaryExtensions.Flatten(values), k)
    ensures TryGet(p, "Alpha:x") == Some("1")
    ensures TryGet(p, "Beta:y") == Some("hi")
  {
    assert !SameKey("Alpha:x", "Beta:y") by {
      assert Fold("Alpha:x")[0] != Fold("Beta:y")[0];
    }
    DictionaryExtensions.MergeFirstMapWins(values, "Alpha:x", 0);
    DictionaryExtensions.MergeFirstMapWins(values, "Beta:y", 1);
  }

  /** A response with section `section` and one member `name` yields the key `section:name`. */
  lemma ParsedSectionExample(section: string, name: string, value: string)
    requires section != "" && !Text.IsWhiteSpace(section[0])
    ensures Parser.Parse(Parser.Token(Parser.Obj([Parser.Member(name, Parser.Leaf(value))])), Some(section))
         == Success([(section + ":" + name, value)])
  {
    assert !Parser.IsBlank(Some(section));
    assert [] + [name] == [name];
    assert Text.Join([name], Parser.KeyDelimiter) == name;
    assert Parser.KeyFor(Some(section), [name]) == Some(section + ":" + name);
    assert [] + [(section + ":" + name, value)] == [(section + ":" + name, value)];
    assert Parser.VisitToken(Parser.Leaf(value), [name], Some(section), []) == Success([(section + ":" + name, value)]);
    var ms := [Parser.Member(name, Parser.Leaf(value))];
    assert ms[1..] == [];
    assert Parser.VisitJObject(ms, [], Some(section), []) == Success([(section + ":" + name, value)]);
  }

  /**
   * The fetch outcomes of the failure scenarios give no map: the client
   * throws, the response is null, or its payload is not valid JSON.
   */
  lemma FailedFetchesGiveNothing(id: Option<string>)
    ensures GetFromRestApi(Threw).None?
    ensures GetFromRestApi(ReturnedNull).None?
    ensures GetFromRestApi(Returned(Response(id, Parser.Malformed))).None?
  {
    Parser.MalformedFails(id);
  }

  /**
   * Both example sets missing from the empty cache, the first one's fetch
   * giving no map and the second one's giving `m`: each cache key is read
   * once, each set is fetched once, only the second set is written back,
   * and the reload succeeds with the second set alone in the table.
   */
  lemma FirstFetchFailsExample(fetch: string -> FetchOutcome, cache: CacheStore, p: Provider, m: Entries)
    requires cache == CacheStore(map[], {}, {}, {})
    requires p == Provider(ExampleSettings, map[], [], 0)
    requires GetFromRestApi(fetch("ConfigurationSet1")).None?
    requires GetFromRestApi(fetch("ConfigurationSet2")) == Some(m)
    ensures var k1 := BuildCacheKey("cache_key_prefix", "ConfigurationSet1");
      var k2 := BuildCacheKey("cache_key_prefix", "ConfigurationSet2");
      var r := LoadAsync(p, fetch, cache, ExampleSettings.configurationKeys);
      && !r.faulted
      && r.effects == [CacheGet(k1), Fetch("ConfigurationSet1"), CacheGet(k2), Fetch("ConfigurationSet2"), CacheSet(k2, m, 10)]
      && r.provider.table == map["ConfigurationSet2" := m]
  {
    var ids := ExampleSettings.configurationKeys;
    assert IsEnumeration(p, ids);
    var k1 := BuildCacheKey("cache_key_prefix", "ConfigurationSet1");
    var k2 := BuildCacheKey("cache_key_prefix", "ConfigurationSet2");
    var s1 := LoadConfiguration(ExampleSettings, fetch, cache, map[], ids[0]);
    assert s1 == Step(cache, map[], [CacheGet(k1), Fetch(ids[0])], false);
    var s2 := LoadConfiguration(ExampleSettings, fetch, cache, map[], ids[1]);
    assert s2.table == map[ids[1] := m] && !s2.faulted;
    assert s2.effects == [CacheGet(k2), Fetch(ids[1]), CacheSet(k2, m, 10)];
    assert ids[1..] == [ids[1]] && ids[1..][1..] == [];
  }

  /**
   * Both example sets missing from the empty cache and neither fetch giving
   * a map: each cache key is read once, each set is fetched once, nothing
   * is written back, and the reload succeeds with an empty `Data`.
   */
  lemma NoFetchSucceedsExample(fetch: string -> FetchOutcome, cache: CacheStore, p: Provider)
    requires cache == CacheStore(map[], {}, {}, {})
    requires p == Provider(ExampleSettings, map[], [], 0)
    requires GetFromRestApi(fetch("ConfigurationSet1")).None?
    requires GetFromRestApi(fetch("ConfigurationSet2")).None?
    ensures var k1 := BuildCacheKey("cache_key_prefix", "ConfigurationSet1");
      var k2 := BuildCacheKey("cache_key_prefix", "ConfigurationSet2");
      var r := LoadAsync(p, fetch, cache, ExampleSettings.configurationKeys);
      && !r.faulted
      && r.effects == [CacheGet(k1), Fetch("ConfigurationSet1"), CacheGet(k2), Fetch("ConfigurationSet2")]
      && r.provider.table == map[]
      && r.provider.data == []
  {
    var ids := ExampleSettings.configurationKeys;
    assert IsEnumeration(p, ids);
    var k1 := BuildCacheKey("cache_key_prefix", "ConfigurationSet1");
    var k2 := BuildCacheKey("cache_key_prefix", "ConfigurationSet2");
    var s1 := LoadConfiguration(ExampleSettings, fetch, cache, map[], ids[0]);
    assert s1 == Step(cache, map[], [CacheGet(k1), Fetch(ids[0])], false);
    var s2 := LoadConfiguration(ExampleSettings, fetch, cache, map[], ids[1]);
    assert s2 == Step(cache, map[], [CacheGet(k2), Fetch(ids[1])], false);
    assert ids[1..] == [ids[1]] && ids[1..][1..] == [];
    assert TableValues(map[], ids) == [];
  }
}
