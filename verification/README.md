# RestApiConfigurationProvider, modelled in Dafny

This project models the core logic of RestApiConfigurationProvider, a .NET
configuration provider. The provider loads named configuration sets from a
REST API and keeps them in a distributed cache ("cache-aside"). It flattens
each set's JSON document into `path:to:key = value` pairs and merges all sets
into one case-insensitive `Data` map. Around that core the repository has a
delete-request validator and some string utilities used for logging.

The model is functional. Every operation is a pure function over immutable
datatypes.

| file | module | what it holds |
|---|---|---|
| `wrappers.dfy` | `Wrappers` | `Option` (a C# reference that may be null) and `Result` (return or throw) |
| `text.dfy` | `Text` | `char.IsWhiteSpace`, `string.Join`, base-10 rendering of integers and its read-back |
| `case_insensitive.dfy` | `CaseInsensitive` | flat maps as pair sequences looked up through the `OrdinalIgnoreCase` comparer |
| `json_parser.dfy` | `JsonConfigurationParser` | the flattening parser, its reference event list, the documented examples |
| `dictionary_extensions.dfy` | `DictionaryExtensions` | `Merge`: first value wins per comparer-equal key |
| `provider.dfy` | `RestApiConfigurationProvider` | cache-aside loading, the retained per-set table, `Data`, cache invalidation |
| `delete_request.dfy` | `ConfigurationsDeleteRequest` | the three-rule validator |
| `logger_extensions.dfy` | `LoggerExtensions` | `Limit` and `ReplaceLineBreaksWithSpaces` (`\s+` to one space) |
| `truncate_message.dfy` | `TruncateMessageLayoutRenderer` | cutting a log message to a limit with a warning |
| `replace_returns.dfy` | `ReplaceReturnsLayoutRenderer` | carriage return to space |
| `category_name.dfy` | `CategoryNameLayoutRenderer` | compressing a dotted logger name, as written and corrected |

Main modelling choices:

- **Flat maps** are sequences of key/value pairs in enumeration order. A lookup answers with the first pair whose key is comparer-equal to the probe. `CaseDistinct` says no two keys are comparer-equal, which is the invariant a .NET dictionary keeps.
- **JSON** is a token tree: `Obj`, `Arr`, `Leaf` (a supported scalar with its invariant-culture text) and `Other` (any other token kind). Text that does not lex is `Malformed`.
  - The parser is defined as the source writes it: recursive descent, threading the output map through the traversal.
  - A separate reference definition lists the scalar events of a document in order. `ParseCharacterization` ties the two together.
- **The provider** is a state transition over explicit collaborators:
  - The cache store is a map of entries plus the keys on which reading, writing or removing throws.
  - The REST client is a function from a set id to an outcome: a response, null, or a thrown exception.
  - Every operation returns the calls it made (`Effect`) and whether it ended by throwing.
  - `Task.WhenAll` is modelled as processing the configured ids one after the other.
  - The enumeration order of the `ConcurrentDictionary` table is unspecified, so it is a parameter (`IsEnumeration`).

In these details the model follows the code rather than the obvious reading:

- The parse section is the response's `ConfigurationSetId`, not the configured set id (RestApiConfigurationProvider.cs line 128).
- A throwing cache write is not caught. The reload then throws and `Data` is not replaced.
- A same-key collision between sets is resolved by the table's enumeration order. The model does not use the declared order of the set ids.
- A blank (whitespace-only) section counts as no section. A root scalar without a section is stored under a null path, which the dictionary rejects.

## Model

| member | source | states |
|---|---|---|
| CaseInsensitive.FindPair | src/RestApiConfigurationProvider/ConfigurationProviders/JsonConfigurationParser.cs:18 | a lookup through the ignore-case comparer answers with a stored pair whose key is comparer-equal to the probe, and finds nothing exactly when no stored key is comparer-equal |
| CaseInsensitive.FindPairAppend | src/RestApiConfigurationProvider/Extensions/DictionaryExtensions.cs:16-18 | a lookup in a concatenation asks the left part first and the right part only when the left has no such key |
| CaseInsensitive.FindOwnPair | src/RestApiConfigurationProvider/ConfigurationProviders/JsonConfigurationParser.cs:18 | in a map without comparer-equal keys, every stored pair answers the lookup of its own key |
| CaseInsensitive.AppendFreshKey | src/RestApiConfigurationProvider/ConfigurationProviders/JsonConfigurationParser.cs:101-106 | adding a pair whose key is not yet present keeps the keys pairwise distinct under the comparer |
| CaseInsensitive.HasKeyIffInKeySet | src/RestApiConfigurationProvider/ConfigurationProviders/JsonConfigurationParser.cs:18 | `ContainsKey` holds exactly when the probe's case-folded form is among the folded stored keys |
| Text.DecimalString | src/RestApiConfigurationProvider/ConfigurationProviders/JsonConfigurationParser.cs:91 | `index.ToString()` is a non-empty string of decimal digits without a leading zero, one character long exactly for 0-9 |
| Text.DecimalRoundTrip | src/RestApiConfigurationProvider/ConfigurationProviders/JsonConfigurationParser.cs:91 | reading back the decimal text of a number gives the number |
| Text.DecimalStringInjective | src/RestApiConfigurationProvider/ConfigurationProviders/JsonConfigurationParser.cs:91 | distinct array indices get distinct path segments |
| Text.DigitsPrefixUnique | test/RestApiConfigurationProvider.Demo/Logging/LayoutRenderers/TruncateMessageLayoutRenderer.cs:35 | a number followed by text that starts with a non-digit can be split off uniquely |
| Text.DigitsSuffixUnique | src/RestApiConfigurationProvider/HttpClients/Extensions/LoggerExtensions.cs:48 | a number that follows text ending with a non-digit can be split off uniquely |
| JsonConfigurationParser.VisitPrimitive | src/RestApiConfigurationProvider/ConfigurationProviders/JsonConfigurationParser.cs:97-107 | a scalar is stored under `path`, or `section:path` for a non-blank section. It fails with a duplicate-key error when a comparer-equal key is present, and with a null-key error when the path was never set. On success it appends exactly one pair and keeps the keys distinct |
| JsonConfigurationParser.VisitTokenReplays | src/RestApiConfigurationProvider/ConfigurationProviders/JsonConfigurationParser.cs:56-85 | the traversal (objects, arrays, scalars, unsupported kinds) computes the same result as replaying the document's scalar events in document order |
| JsonConfigurationParser.VisitJObjectReplays | src/RestApiConfigurationProvider/ConfigurationProviders/JsonConfigurationParser.cs:41-49 | visiting an object's members one by one, each under its name pushed on the path, replays the members' events in order |
| JsonConfigurationParser.VisitArrayReplays | src/RestApiConfigurationProvider/ConfigurationProviders/JsonConfigurationParser.cs:87-95 | visiting array elements one by one, each under its decimal index pushed on the path, replays the elements' events in order |
| JsonConfigurationParser.ReplayAppend | src/RestApiConfigurationProvider/ConfigurationProviders/JsonConfigurationParser.cs:43-48 | replaying two event lists one after the other is replaying the second from the first's result, and stops at the first failure |
| JsonConfigurationParser.ReplayCharacterization | src/RestApiConfigurationProvider/ConfigurationProviders/JsonConfigurationParser.cs:101-106 | replaying events succeeds exactly when all are supported scalars with defined keys that are pairwise distinct and absent from the map so far; it then appends one entry per event |
| JsonConfigurationParser.ParseCharacterization | src/RestApiConfigurationProvider/ConfigurationProviders/JsonConfigurationParser.cs:27-39 | parsing a lexed document from an empty map succeeds exactly when it has no unsupported token, every scalar gets a key, and no two keys are comparer-equal. The result then holds exactly one entry per scalar, keyed by its path |
| JsonConfigurationParser.ParsedKeysDistinct | src/RestApiConfigurationProvider/ConfigurationProviders/JsonConfigurationParser.cs:18 | a parsed map never holds two comparer-equal keys |
| JsonConfigurationParser.MalformedFails | src/RestApiConfigurationProvider/ConfigurationProviders/JsonConfigurationParser.cs:35 | text that does not lex fails |
| JsonConfigurationParser.UnsupportedTokenFails | src/RestApiConfigurationProvider/ConfigurationProviders/JsonConfigurationParser.cs:82-83 | a token of an unsupported kind anywhere in the document makes parsing fail |
| JsonConfigurationParser.DuplicateKeyFails | src/RestApiConfigurationProvider/ConfigurationProviders/JsonConfigurationParser.cs:101-104 | two scalars whose keys are comparer-equal make parsing fail |
| JsonConfigurationParser.EventsExtendStack | src/RestApiConfigurationProvider/ConfigurationProviders/JsonConfigurationParser.cs:109-119 | every scalar below a position has that position's path as a prefix |
| JsonConfigurationParser.MemberEventsAppend | src/RestApiConfigurationProvider/ConfigurationProviders/JsonConfigurationParser.cs:41-49 | a member's scalars sit under the object's path extended by that member's name alone, so siblings never inherit each other's segments |
| JsonConfigurationParser.ItemEventsAppend | src/RestApiConfigurationProvider/ConfigurationProviders/JsonConfigurationParser.cs:87-95 | element `n` of an array sits under the array's path extended by the decimal text of `n` |
| JsonConfigurationParser.EmptyMemberContributesNothing | src/RestApiConfigurationProvider/ConfigurationProviders/JsonConfigurationParser.cs:43-48 | an empty object or array as a member adds no key |
| JsonConfigurationParser.EmptyItemContributesNothing | src/RestApiConfigurationProvider/ConfigurationProviders/JsonConfigurationParser.cs:89-94 | an empty object or array as an array element adds no key |
| JsonConfigurationParser.FlatObjectExample | test/RestApiConfigurationProvider.Test/ConfigurationProvider/JsonConfigurationParserTests.cs:8-16 | `{"key1": "value1", "key2": "value2"}` gives `key1` and `key2` |
| JsonConfigurationParser.NestedObjectExample | test/RestApiConfigurationProvider.Test/ConfigurationProvider/JsonConfigurationParserTests.cs:18-25 | `{"parent": {"child": "value"}}` gives `parent:child` |
| JsonConfigurationParser.ArrayExample | test/RestApiConfigurationProvider.Test/ConfigurationProvider/JsonConfigurationParserTests.cs:27-35 | `{"array": ["value1", "value2"]}` gives `array:0` and `array:1` |
| JsonConfigurationParser.SectionExample | test/RestApiConfigurationProvider.Test/ConfigurationProvider/JsonConfigurationParserTests.cs:37-45 | with section `section`, `{"key": "value"}` gives `section:key` |
| JsonConfigurationParser.CommentOnlyDocumentExample | test/RestApiConfigurationProvider.Test/ConfigurationProvider/JsonConfigurationParserTests.cs:47-54 | a document that is a single comment token fails as unsupported |
| JsonConfigurationParser.RootScalarExample | src/RestApiConfigurationProvider/ConfigurationProviders/JsonConfigurationParser.cs:99 | a root scalar is stored under `section:` with a section and fails on the null key without one |
| JsonConfigurationParser.CaseVariantDuplicateExample | src/RestApiConfigurationProvider/ConfigurationProviders/JsonConfigurationParser.cs:101-104 | member names that differ only in case collide |
| DictionaryExtensions.Flatten | src/RestApiConfigurationProvider/Extensions/DictionaryExtensions.cs:16 | every pair of the concatenation comes from some inner map |
| DictionaryExtensions.FirstWins | src/RestApiConfigurationProvider/Extensions/DictionaryExtensions.cs:17-18 | grouping by key and keeping each group's first pair gives a map without comparer-equal keys that answers every lookup as the ungrouped pairs do, and holds only pairs from the input |
| DictionaryExtensions.MergeAll | src/RestApiConfigurationProvider/Extensions/DictionaryExtensions.cs:15-18 | the merge has no comparer-equal keys, answers every lookup like the concatenation of the inner maps in order, and invents no pair |
| DictionaryExtensions.Merge | src/RestApiConfigurationProvider/Extensions/DictionaryExtensions.cs:15 | a null source gives a null result; otherwise the result is the merge of the inner maps |
| DictionaryExtensions.FlattenHasKey | src/RestApiConfigurationProvider/Extensions/DictionaryExtensions.cs:16 | the concatenation has a key exactly when some inner map has it |
| DictionaryExtensions.MergeKeySet | src/RestApiConfigurationProvider/Extensions/DictionaryExtensions.cs:15-18 | the merged key set is the union of the inner key sets, taken modulo the comparer |
| DictionaryExtensions.MergeFirstMapWins | src/RestApiConfigurationProvider/Extensions/DictionaryExtensions.cs:16-18 | for each key, the merged pair (key casing and value) is that of the first inner map, in enumeration order, that defines it |
| DictionaryExtensions.FirstDefiningMap | src/RestApiConfigurationProvider/Extensions/DictionaryExtensions.cs:16-18 | when some inner map defines a key, a first one does |
| DictionaryExtensions.MergeDisjoint | src/RestApiConfigurationProvider/Extensions/DictionaryExtensions.cs:15-18 | with pairwise-disjoint inner maps, every key keeps the pair of the one map that defines it |
| DictionaryExtensions.MergeOrderIndependent | src/RestApiConfigurationProvider/Extensions/DictionaryExtensions.cs:15-18 | with pairwise-disjoint inner maps, any enumeration order gives the same lookups |
| RestApiConfigurationProvider.New | src/RestApiConfigurationProvider/ConfigurationProviders/RestApiConfigurationProvider.cs:29-40 | a null settings object throws `ArgumentNullException` naming the parameter; otherwise the table and `Data` start empty |
| RestApiConfigurationProvider.BuildCacheKey | src/RestApiConfigurationProvider/ConfigurationProviders/RestApiConfigurationProvider.cs:143-146 | the cache key is the prefix, an underscore, then the configuration key |
| RestApiConfigurationProvider.CacheKeyInjective | src/RestApiConfigurationProvider/ConfigurationProviders/RestApiConfigurationProvider.cs:143-146 | under one prefix, distinct configuration keys never share a cache key |
| RestApiConfigurationProvider.CacheKeyExample | test/RestApiConfigurationProvider.Test/ConfigurationProvider/RestApiConfigurationProviderTests.cs:41-42 | `cache_key_prefix` and `ConfigurationSet1` give `cache_key_prefix_ConfigurationSet1` |
| RestApiConfigurationProvider.GetFromRestApi | src/RestApiConfigurationProvider/ConfigurationProviders/RestApiConfigurationProvider.cs:107-141 | a thrown exception or a null response gives no map. A response gives a map exactly when its payload parses with the response's own `ConfigurationSetId` as the section, and that map has distinct keys |
| RestApiConfigurationProvider.LoadConfiguration | src/RestApiConfigurationProvider/ConfigurationProviders/RestApiConfigurationProvider.cs:71-105 | one set: the cache is read first, under the set's key. A hit is stored with no fetch and no write. A miss always fetches; a failed fetch or parse changes nothing. A fetched map is written back under the same key with the configured lifetime and then stored. A throwing read or write, or a non-positive lifetime, ends the step with a throw and leaves the table entry unchanged. Only the set's own cache entry and table entry can change |
| RestApiConfigurationProvider.LoadConfigurationLocal | src/RestApiConfigurationProvider/ConfigurationProviders/RestApiConfigurationProvider.cs:71-95 | a set's step depends only on its own cache entry and table entry |
| RestApiConfigurationProvider.OtherStepUnaffected | src/RestApiConfigurationProvider/ConfigurationProviders/RestApiConfigurationProvider.cs:56-58 | loading one set leaves another set's step as it would have been |
| RestApiConfigurationProvider.LoadAll | src/RestApiConfigurationProvider/ConfigurationProviders/RestApiConfigurationProvider.cs:56-58 | loading all configured sets changes only their own table entries and cache entries, and keeps the cache's failure behaviour |
| RestApiConfigurationProvider.LoadAllPerSet | src/RestApiConfigurationProvider/ConfigurationProviders/RestApiConfigurationProvider.cs:56-58 | with distinct keys, each set ends with the table entry it would get if loaded alone, so the order does not matter and one set's failure does not affect another |
| RestApiConfigurationProvider.LoadAllFaults | src/RestApiConfigurationProvider/ConfigurationProviders/RestApiConfigurationProvider.cs:56-58 | with distinct keys, loading all sets throws exactly when some set's own step throws |
| RestApiConfigurationProvider.LoadAllEffects | src/RestApiConfigurationProvider/ConfigurationProviders/RestApiConfigurationProvider.cs:56-58 | with distinct keys, every call a set's own step makes is made when all are loaded |
| RestApiConfigurationProvider.TableValues | src/RestApiConfigurationProvider/ConfigurationProviders/RestApiConfigurationProvider.cs:27 | every listed value belongs to an enumerated key of the table |
| RestApiConfigurationProvider.TableValuesComplete | src/RestApiConfigurationProvider/ConfigurationProviders/RestApiConfigurationProvider.cs:27 | every enumerated table entry is listed |
| RestApiConfigurationProvider.LoadAsync | src/RestApiConfigurationProvider/ConfigurationProviders/RestApiConfigurationProvider.cs:54-63 | the reload throws exactly when loading all sets does, and ends with their table, cache and calls. Table entries outside the configured sets are retained. If any set threw, `Data` and the reload count are unchanged. Otherwise `Data` holds exactly the keys of all table entries, from earlier reloads included; each value comes from some entry; lookups behave like the entries concatenated in enumeration order; and one reload notification is raised |
| RestApiConfigurationProvider.MergedTableKeys | src/RestApiConfigurationProvider/ConfigurationProviders/RestApiConfigurationProvider.cs:60 | the merge of the whole table has exactly the union of its entries' keys, and every merged pair comes from some entry |
| RestApiConfigurationProvider.Load | src/RestApiConfigurationProvider/ConfigurationProviders/RestApiConfigurationProvider.cs:42-52 | the synchronous load never throws, and the table is the one loading all sets gives. When the reload threw, `Data` and the reload count are unchanged; otherwise `Data` is the reload's and one reload is counted |
| RestApiConfigurationProvider.ReadFailureKeepsData | src/RestApiConfigurationProvider/ConfigurationProviders/RestApiConfigurationProvider.cs:54-63 | with distinct set ids, when one set's cache read throws the reload throws and keeps `Data` and the reload count; that set keeps its table entry and every set's entry is the one its own load gives |
| RestApiConfigurationProvider.InvalidateCache | src/RestApiConfigurationProvider/ConfigurationProviders/RestApiConfigurationProvider.cs:65-69 | exactly one removal, for the set's cache key, is attempted. The provider (table and `Data`) is untouched. On success only that entry is gone; a throwing removal propagates and leaves the cache as it was |
| RestApiConfigurationProvider.InvalidateThenReloadFetches | src/RestApiConfigurationProvider/ConfigurationProviders/RestApiConfigurationProvider.cs:65-83 | after a successful invalidation, the next reload fetches that set from the REST API |
| RestApiConfigurationProvider.LoadsFromCacheExample | test/RestApiConfigurationProvider.Test/ConfigurationProvider/RestApiConfigurationProviderTests.cs:38-61 | both sets cached as `{"SubKey1": "Value1"}`: the reload only reads the cache, and `SubKey1` reads `Value1` |
| RestApiConfigurationProvider.CacheHitsLoadAll | test/RestApiConfigurationProvider.Test/ConfigurationProvider/RestApiConfigurationProviderTests.cs:38-61 | both sets found in the cache: two reads, both stored, nothing fetched or written |
| RestApiConfigurationProvider.LoadAsyncReadsFirstSet | src/RestApiConfigurationProvider/ConfigurationProviders/RestApiConfigurationProvider.cs:54-63 | when the loads succeed and the first enumerated set opens with `key = value`, the reload succeeds and `key` reads `value` |
| RestApiConfigurationProvider.LoadAsyncMerges | src/RestApiConfigurationProvider/ConfigurationProviders/RestApiConfigurationProvider.cs:54-63 | a reload whose loads succeed keeps their calls and table, and its `Data` answers like the table's sets concatenated in enumeration order |
| RestApiConfigurationProvider.FirstPairWins | src/RestApiConfigurationProvider/Extensions/DictionaryExtensions.cs:16-18 | the first pair of the first merged set answers its key |
| RestApiConfigurationProvider.ExampleFetchParses | src/RestApiConfigurationProvider/ConfigurationProviders/RestApiConfigurationProvider.cs:128 | each example response parses with its own set id as the section |
| RestApiConfigurationProvider.ExampleLoadAll | test/RestApiConfigurationProvider.Test/ConfigurationProvider/RestApiConfigurationProviderTests.cs:63-122 | two sets missing from the cache are fetched, written back with the configured lifetime, and stored |
| RestApiConfigurationProvider.EndToEndExample | test/RestApiConfigurationProvider.Test/ConfigurationProvider/RestApiConfigurationProviderTests.cs:63-122 | after a reload from the REST API, each fetched key reads its value and the fetched map was written to the cache |
| RestApiConfigurationProvider.FailedFetchesGiveNothing | src/RestApiConfigurationProvider/ConfigurationProviders/RestApiConfigurationProvider.cs:107-141 | a throwing client, a null response and a payload that is not JSON each give no map |
| RestApiConfigurationProvider.FirstFetchFailsExample | test/RestApiConfigurationProvider.Test/ConfigurationProvider/RestApiConfigurationProviderTests.cs:124-227 | the first set's fetch throws or returns invalid JSON and the second's returns a map: each cache key is read once, each set fetched once, only the second set is written to the cache, and the reload succeeds with the second set alone in the table |
| RestApiConfigurationProvider.NoFetchSucceedsExample | test/RestApiConfigurationProvider.Test/ConfigurationProvider/RestApiConfigurationProviderTests.cs:229-258 | neither fetch gives a map: each cache key is read once, nothing is written to the cache, and `Data` is empty |
| RestApiConfigurationProvider.ExampleTableValues | src/RestApiConfigurationProvider/ConfigurationProviders/RestApiConfigurationProvider.cs:27 | the example table lists its two sets in enumeration order |
| RestApiConfigurationProvider.TwoSetsRead | src/RestApiConfigurationProvider/ConfigurationProviders/RestApiConfigurationProvider.cs:60 | in the merge of two sets with different keys, each key is found in its own set |
| RestApiConfigurationProvider.ParsedSectionExample | src/RestApiConfigurationProvider/ConfigurationProviders/RestApiConfigurationProvider.cs:128 | a response with a non-blank section and one member `name` yields the key `section:name` |
| ConfigurationsDeleteRequest.Validate | src/RestApiConfigurationProvider/HttpClients/DTO/Requests/ConfigurationsDeleteRequest.cs:40-67 | at most three results, in rule order. "Required" appears exactly when no field is set. "Not both" appears exactly when a version number comes with a range bound. "Range is invalid" appears exactly when one bound is missing or start > end |
| ConfigurationsDeleteRequest.ValidIff | src/RestApiConfigurationProvider/HttpClients/DTO/Requests/ConfigurationsDeleteRequest.cs:40-67 | a request is valid exactly when it holds a version number alone, or an ordered range alone |
| ConfigurationsDeleteRequest.EmptyRequestResult | src/RestApiConfigurationProvider/HttpClients/DTO/Requests/ConfigurationsDeleteRequest.cs:44-49 | an empty request gets only the "required" result |
| ConfigurationsDeleteRequest.VersionWithOneBound | src/RestApiConfigurationProvider/HttpClients/DTO/Requests/ConfigurationsDeleteRequest.cs:51-64 | a version number with exactly one bound gets exactly two results, "not both" then "range is invalid" |
| ConfigurationsDeleteRequest.MemberNames | src/RestApiConfigurationProvider/HttpClients/DTO/Requests/ConfigurationsDeleteRequest.cs:44-64 | the range rule names the two range members; the others name all three |
| LoggerExtensions.Limit | src/RestApiConfigurationProvider/HttpClients/Extensions/LoggerExtensions.cs:39-49 | null or empty input gives the empty string, and input no longer than the size is kept. Longer input becomes its first `maxSize` characters followed by ` ***** LIMITED TO <maxSize> BYTES *****`. A negative size on non-empty input throws |
| LoggerExtensions.LimitRecoversSize | src/RestApiConfigurationProvider/HttpClients/Extensions/LoggerExtensions.cs:48 | a cut result tells the size it was cut at and the kept prefix |
| LoggerExtensions.LimitFixedPointAboveLength | src/RestApiConfigurationProvider/HttpClients/Extensions/LoggerExtensions.cs:46-47 | a string is left alone by any size cap at or above its length |
| LoggerExtensions.DropWhiteSpace | src/RestApiConfigurationProvider/HttpClients/Extensions/LoggerExtensions.cs:53 | skipping a whitespace run leaves a suffix that starts with non-whitespace, and what was skipped was all whitespace |
| LoggerExtensions.Collapse | src/RestApiConfigurationProvider/HttpClients/Extensions/LoggerExtensions.cs:53 | `Regex.Replace(s, @"\s+", " ")` leaves no two adjacent whitespace characters and no whitespace but the space. It keeps the non-whitespace characters in order, is empty only for empty input, and starts with a space exactly when the input starts with whitespace |
| LoggerExtensions.VisibleOfWhiteSpacePrefix | src/RestApiConfigurationProvider/HttpClients/Extensions/LoggerExtensions.cs:53 | whitespace adds nothing to the visible characters |
| LoggerExtensions.ReplaceLineBreaksWithSpaces | src/RestApiConfigurationProvider/HttpClients/Extensions/LoggerExtensions.cs:51-54 | null stays null and empty stays empty. Otherwise the result is normalised and keeps the visible characters in order |
| LoggerExtensions.CollapseNormalized | src/RestApiConfigurationProvider/HttpClients/Extensions/LoggerExtensions.cs:53 | a normalised string is its own collapse |
| LoggerExtensions.CollapseFixedPoints | src/RestApiConfigurationProvider/HttpClients/Extensions/LoggerExtensions.cs:53 | the strings the collapse leaves unchanged are exactly the normalised ones |
| LoggerExtensions.ReplaceIdempotent | src/RestApiConfigurationProvider/HttpClients/Extensions/LoggerExtensions.cs:51-54 | replacing twice is replacing once |
| LoggerExtensions.CollapseWhiteSpaceRun | src/RestApiConfigurationProvider/HttpClients/Extensions/LoggerExtensions.cs:53 | a run of whitespace becomes a single space |
| LoggerExtensions.DropWhiteSpaceAppend | src/RestApiConfigurationProvider/HttpClients/Extensions/LoggerExtensions.cs:53 | a whitespace run ends at the first non-whitespace character |
| LoggerExtensions.CollapseSplitsAtVisible | src/RestApiConfigurationProvider/HttpClients/Extensions/LoggerExtensions.cs:53 | a non-whitespace character splits the replacement: the runs on either side are collapsed independently |
| LoggerExtensions.CollapseVisibleHead | src/RestApiConfigurationProvider/HttpClients/Extensions/LoggerExtensions.cs:53 | a leading non-whitespace character is kept as it is |
| TruncateMessageLayoutRenderer.Transform | test/RestApiConfigurationProvider.Demo/Logging/LayoutRenderers/TruncateMessageLayoutRenderer.cs:21-31 | the text passes unchanged when truncation is off, the limit is not positive, or the text is shorter than the limit. Otherwise the result fails exactly when the limit is shorter than the warning, and is a prefix of the text followed by the warning, exactly `Limit` long. A result is never longer than the text |
| TruncateMessageLayoutRenderer.WarningInjective | test/RestApiConfigurationProvider.Demo/Logging/LayoutRenderers/TruncateMessageLayoutRenderer.cs:33-36 | the warning records both the limit and the original length |
| TruncateMessageLayoutRenderer.TruncationRecordsLength | test/RestApiConfigurationProvider.Demo/Logging/LayoutRenderers/TruncateMessageLayoutRenderer.cs:28-30 | two texts cut to the same result had the same length and the same kept prefix |
| TruncateMessageLayoutRenderer.ExactLimitIsTruncated | test/RestApiConfigurationProvider.Demo/Logging/LayoutRenderers/TruncateMessageLayoutRenderer.cs:11-23 | under the defaults, a text of exactly 10000 characters is cut, to 10000 characters |
| TruncateMessageLayoutRenderer.DigitsBetween | test/RestApiConfigurationProvider.Demo/Logging/LayoutRenderers/TruncateMessageLayoutRenderer.cs:35 | two numbers between fixed texts can be read back |
| TruncateMessageLayoutRenderer.NumbersBetween | test/RestApiConfigurationProvider.Demo/Logging/LayoutRenderers/TruncateMessageLayoutRenderer.cs:35 | the rendered limit and length are determined by the warning text |
| ReplaceReturnsLayoutRenderer.IndexOf | test/RestApiConfigurationProvider.Demo/Logging/LayoutRenderers/ReplaceReturnsLayoutRenderer.cs:22 | the result is the first position of the character, or -1 when it does not occur |
| ReplaceReturnsLayoutRenderer.ReplaceAll | test/RestApiConfigurationProvider.Demo/Logging/LayoutRenderers/ReplaceReturnsLayoutRenderer.cs:24 | same length, every occurrence replaced, every other character in place |
| ReplaceReturnsLayoutRenderer.Transform | test/RestApiConfigurationProvider.Demo/Logging/LayoutRenderers/ReplaceReturnsLayoutRenderer.cs:20-30 | same length. Every carriage return becomes a space and every other character stays. The output holds no carriage return, and text without one is returned unchanged |
| ReplaceReturnsLayoutRenderer.TransformIdempotent | test/RestApiConfigurationProvider.Demo/Logging/LayoutRenderers/ReplaceReturnsLayoutRenderer.cs:20-30 | transforming twice is transforming once |
| ReplaceReturnsLayoutRenderer.TransformIsReplace | test/RestApiConfigurationProvider.Demo/Logging/LayoutRenderers/ReplaceReturnsLayoutRenderer.cs:22-25 | the `IndexOf` guard is only a shortcut: the result is the full replacement either way |
| CategoryNameLayoutRenderer.LastIndexOf | test/RestApiConfigurationProvider.Demo/Logging/LayoutRenderers/CategoryNameLayoutRenderer.cs:33 | the result is the last position of the character, or -1 |
| CategoryNameLayoutRenderer.LastIndexOfFrom | test/RestApiConfigurationProvider.Demo/Logging/LayoutRenderers/CategoryNameLayoutRenderer.cs:36 | on a non-empty string, a start outside the string throws. Otherwise the result is the last position of the character at or before the start, or -1 |
| CategoryNameLayoutRenderer.IndexOfFrom | test/RestApiConfigurationProvider.Demo/Logging/LayoutRenderers/CategoryNameLayoutRenderer.cs:44 | the result is the first position at or after the start holding the character, or -1 |
| CategoryNameLayoutRenderer.AppendInitials | test/RestApiConfigurationProvider.Demo/Logging/LayoutRenderers/CategoryNameLayoutRenderer.cs:40-45 | the loop appends exactly the initials of the segments before the second-to-last dot |
| CategoryNameLayoutRenderer.AppendConvertedFullTypeNameAsWritten | test/RestApiConfigurationProvider.Demo/Logging/LayoutRenderers/CategoryNameLayoutRenderer.cs:29-54 | as written: the builder only grows. It throws exactly when compression is on and the name's only dot is its first character; otherwise it appends the compressed name, or the name verbatim when compression is off |
| CategoryNameLayoutRenderer.AppendConvertedFullTypeName | test/RestApiConfigurationProvider.Demo/Logging/LayoutRenderers/CategoryNameLayoutRenderer.cs:29-54 | corrected: never throws and the builder only grows. It appends the compressed name when compression is on, and the name verbatim (nothing for null) otherwise |
| CategoryNameLayoutRenderer.GrowsBuilder | test/RestApiConfigurationProvider.Demo/Logging/LayoutRenderers/CategoryNameLayoutRenderer.cs:43-47 | appending two pieces is appending their concatenation, and the builder's earlier content stays in front |
| CategoryNameLayoutRenderer.DotCountAppend | test/RestApiConfigurationProvider.Demo/Logging/LayoutRenderers/CategoryNameLayoutRenderer.cs:33-37 | the dots of a concatenation are those of its parts |
| CategoryNameLayoutRenderer.LastDot | test/RestApiConfigurationProvider.Demo/Logging/LayoutRenderers/CategoryNameLayoutRenderer.cs:33-34 | no last dot means no dot; otherwise the last dot has none after it |
| CategoryNameLayoutRenderer.LastTwoSegmentsOneDot | test/RestApiConfigurationProvider.Demo/Logging/LayoutRenderers/CategoryNameLayoutRenderer.cs:36-39 | the text after the second-to-last dot holds exactly one dot |
| CategoryNameLayoutRenderer.CompressShape | test/RestApiConfigurationProvider.Demo/Logging/LayoutRenderers/CategoryNameLayoutRenderer.cs:33-53 | a name with fewer than two dots is kept whole. Otherwise the result is the loop's initials followed by the text after a dot behind which exactly one dot remains: the last two segments, unabbreviated |
| CategoryNameLayoutRenderer.CompressFewDots | test/RestApiConfigurationProvider.Demo/Logging/LayoutRenderers/CategoryNameLayoutRenderer.cs:33-38 | a name with fewer than two dots is kept whole |
| CategoryNameLayoutRenderer.SecondToLastDot | test/RestApiConfigurationProvider.Demo/Logging/LayoutRenderers/CategoryNameLayoutRenderer.cs:36-47 | a name with at least two dots is cut at its second-to-last dot |
| CategoryNameLayoutRenderer.CompressSegments | test/RestApiConfigurationProvider.Demo/Logging/LayoutRenderers/CategoryNameLayoutRenderer.cs:39-47 | for a name of at least three non-empty dot-free segments, the result is the first character and a dot of each segment but the last two, then the last two joined by a dot |
| CategoryNameLayoutRenderer.InitialsOfSegments | test/RestApiConfigurationProvider.Demo/Logging/LayoutRenderers/CategoryNameLayoutRenderer.cs:41-45 | the loop visits the segments before the stop dot one by one and emits each one's initial and a dot |
| CategoryNameLayoutRenderer.InitialsStep | test/RestApiConfigurationProvider.Demo/Logging/LayoutRenderers/CategoryNameLayoutRenderer.cs:43-44 | one loop turn emits the current segment's initial and moves to the start of the next segment |
| CategoryNameLayoutRenderer.NextDotEndsSegment | test/RestApiConfigurationProvider.Demo/Logging/LayoutRenderers/CategoryNameLayoutRenderer.cs:44 | from inside a segment, the next dot is the one that ends it |
| CategoryNameLayoutRenderer.JoinDotsCount | test/RestApiConfigurationProvider.Demo/Logging/LayoutRenderers/CategoryNameLayoutRenderer.cs:33-36 | a name of `n` non-empty dot-free segments holds `n - 1` dots and does not end with a dot |
| CategoryNameLayoutRenderer.CompressThreeParts | test/RestApiConfigurationProvider.Demo/Logging/LayoutRenderers/CategoryNameLayoutRenderer.cs:33-47 | `u.a.z` with dot-free `a` and `z` is cut at the dot after `u`, keeping `a.z` whole |
| CategoryNameLayoutRenderer.AsWrittenFailsIff | test/RestApiConfigurationProvider.Demo/Logging/LayoutRenderers/CategoryNameLayoutRenderer.cs:33-37 | the source's compression throws exactly when the name's only dot is its first character |
| CategoryNameLayoutRenderer.AsWrittenAgrees | test/RestApiConfigurationProvider.Demo/Logging/LayoutRenderers/CategoryNameLayoutRenderer.cs:33-47 | wherever the source's compression does not throw, it agrees with the corrected one |
| CategoryNameLayoutRenderer.LeadingDotThrows | test/RestApiConfigurationProvider.Demo/Logging/LayoutRenderers/CategoryNameLayoutRenderer.cs:36 | on `.Logger` the source's compression throws `ArgumentOutOfRangeException` for `startIndex`; the corrected one keeps the name |
| CategoryNameLayoutRenderer.CompressExample | test/RestApiConfigurationProvider.Demo/Logging/LayoutRenderers/CategoryNameLayoutRenderer.cs:39-47 | `A.Bb.Cc.Dd` compresses to `A.B.Cc.Dd` |

## Left out

- HTTP and authentication (`ConfigurationRestApiClient`, the delegating handlers) are left out. The REST client is a function from a set id to an outcome.
- Host wiring, registration and the reload timer (`ConfigurationReloadHostedService`) are left out. They only schedule and register the modelled operations.
- Parallelism of `Task.WhenAll` and thread safety of the `ConcurrentDictionary` are left out. The sets are processed one after the other in configured order. `LoadAllPerSet` shows that a set's table entry does not depend on that order when the ids are distinct.
- The table's enumeration order is a parameter, because .NET leaves it unspecified.
- JSON lexing (`JToken.Parse`) and invariant-culture scalar stringification are abstract. A document is given as a token tree, and a scalar carries its text. Json.NET's lexer, under its default `DuplicatePropertyNameHandling.Replace`, already keeps only the last of two exactly equal property names, so in the running program only names that differ in case reach the duplicate check. The token tree also admits exact duplicates, so `DuplicateKeyFails` covers trees the lexer never produces.
- The parser's output is kept in document order rather than the sorted order of a `SortedDictionary`. Lookups through the comparer cannot tell the two apart.
- Cache serialisation (`SerializationExtensions`, `DistributedCacheExtensions`) is an abstract round trip. A stored map reads back as written, and a payload that does not deserialise reads as a miss.
- Cache expiry over time is left out: a written entry records its lifetime but never expires.
- CaseInsensitive.Fold: only ASCII letters are case-folded. The full Unicode upper-case mapping of `OrdinalIgnoreCase` is not modelled.
- Text.IsWhiteSpace: the whitespace class is written out as a fixed list of code points. It is not derived from the Unicode database.
- JsonConfigurationParser.VisitToken: an unsupported token's error keeps only the token kind. The message's token path is not modelled.
- RestApiConfigurationProvider.BuildCacheKey: a null `CacheKeyPrefix` (interpolated as empty) is not distinguished from an empty one.
- RestApiConfigurationProvider.LoadAsync: the `OnReload` notification is only counted (`reloads`). Change-token subscribers are outside the model.
- Strings are sequences of Unicode scalar values, while .NET's `Length` and `Substring` count UTF-16 code units. Text with characters outside the Basic Multilingual Plane is measured and cut differently; .NET can cut such a character in half.
- LoggerExtensions.Limit: the size is compared with, and the prefix cut at, a count of Unicode scalar values rather than UTF-16 code units.
- TruncateMessageLayoutRenderer.Transform: the limit is compared with, and the text cut at, a count of Unicode scalar values rather than UTF-16 code units.
- CategoryNameLayoutRenderer.AppendInitials: an initial is one Unicode scalar value; `Substring(startPoint, 1)` takes one UTF-16 code unit, half of a character outside the Basic Multilingual Plane.
- Logging calls (`_logger.Log*`) and NLog's handling of exceptions thrown by a layout renderer are left out.
- `GetHeaderTraceString` in LoggerExtensions.cs is left out. It enumerates `HttpHeaders`, which is outside the model, and its only modelled ingredient is `Limit`.
- CategoryNameLayoutRenderer.IndexOfFrom requires the start to be at most the length. The loop only calls it at a position just after a character, so it is never reached otherwise.
- CategoryNameLayoutRenderer.CompressSegments describes names made of non-empty, dot-free segments. Names with empty segments (`A..B`, `.A.B`) are covered by `CompressShape` and the definition only.
- The redaction layout renderers and the plain request/response DTOs are left out.

## Findings

| source | as written | input that shows it | evidently intended | confidence | as-written member | corrected member |
|---|---|---|---|---|---|---|
| test/RestApiConfigurationProvider.Demo/Logging/LayoutRenderers/CategoryNameLayoutRenderer.cs:33-37 | when the name's only dot is at index 0, `LastIndexOf('.', firstPointIndex - 1)` is called with `startIndex == -1`, which throws `ArgumentOutOfRangeException` on a non-empty string | the logger name `.Logger` with `CompressedName` on | a name with fewer than two dots is appended verbatim, as for every other one-dot name | medium, not executed | CategoryNameLayoutRenderer.LeadingDotThrows | CategoryNameLayoutRenderer.CompressShape |
