/**
 * The flattening JSON parser: one JSON document becomes a flat map from
 * `:`-joined paths to scalar texts.
 *
 * The traversal visits objects member by member and arrays element by
 * element, pushing the member name or the decimal element index on a path
 * stack. The source keeps the stack and the current path in mutable fields
 * and pops after each child; here the stack is passed down by value, which
 * restores it after each child by construction. The output map is threaded
 * through the traversal because duplicate detection depends on what was
 * inserted before.
 *
 * Lexing of the text (`JToken.Parse`) is outside the model: a document is
 * given as its token tree, or as `Malformed` when the text does not lex.
 * A scalar token carries its invariant-culture text as an opaque string.
 * The lexer replaces an exactly repeated property name by its last
 * occurrence, so in the running program only names that differ in case
 * reach the duplicate check; a token tree here may also repeat a name
 * exactly, which the traversal reports the same way.
 */
module JsonConfigurationParser {
  import opened Wrappers
  import opened CaseInsensitive
  import Text

  /**
   * A token tree. `Leaf` covers the scalar kinds the parser accepts
   * (Integer, Float, String, Boolean, Bytes, Raw, Null, Date, Guid, Uri,
   * TimeSpan); `Other` is any other kind (Comment, Constructor, Undefined, ...).
   */
  datatype Json =
    | Obj(members: seq<Member>)
    | Arr(items: seq<Json>)
    | Leaf(text: string)
    | Other(kind: string)

  datatype Member = Member(name: string, value: Json)

  /** The result of lexing the input text. */
  datatype Lexed = Malformed | Token(root: Json)

  /**
   * `FormatException` for a duplicate key or an unsupported token,
   * the lexer's exception for malformed text, and the dictionary's
   * `ArgumentNullException` when a root scalar is stored under a null path.
   */
  datatype ParseError =
    | MalformedDocument
    | UnsupportedToken(kind: string)
    | DuplicateKey(key: string)
    | NullKey

  const KeyDelimiter: string := ":"

  /** `string.IsNullOrWhiteSpace(section)`. */
  predicate IsBlank(section: Option<string>) {
    section.None? || forall i | 0 <= i < |section.value| :: Text.IsWhiteSpace(section.value[i])
  }

  /**
   * The key a scalar is stored under, given the path stack. The current path
   * is null until the first member or element is entered, which only
   * happens for a root scalar; without a section the key is then null.
   */
  function KeyFor(section: Option<string>, stack: seq<string>): Option<string> {
    if IsBlank(section) then
      if stack == [] then None else Some(Text.Join(stack, KeyDelimiter))
    else
      Some(section.value + KeyDelimiter + Text.Join(stack, KeyDelimiter))
  }

  // ---------------------------------------------------------------------
  // The parser as written: recursive descent with an accumulated map.
  // ---------------------------------------------------------------------

  function VisitToken(j: Json, stack: seq<string>, section: Option<string>, acc: Entries): Result<Entries, ParseError>
    decreases j
  {
    match j
    case Obj(ms) => VisitJObject(ms, stack, section, acc)
    case Arr(xs) => VisitArray(xs, 0, stack, section, acc)
    case Leaf(t) => VisitPrimitive(stack, section, t, acc)
    case Other(kind) => Failure(UnsupportedToken(kind))
  }

  function VisitJObject(ms: seq<Member>, stack: seq<string>, section: Option<string>, acc: Entries): Result<Entries, ParseError>
    decreases ms
  {
    if ms == [] then Success(acc)
    else
      match VisitToken(ms[0].value, stack + [ms[0].name], section, acc)
      case Failure(e) => Failure(e)
      case Success(acc') => VisitJObject(ms[1..], stack, section, acc')
  }

  function VisitArray(xs: seq<Json>, index: nat, stack: seq<string>, section: Option<string>, acc: Entries): Result<Entries, ParseError>
    decreases xs, |xs| - index
  {
    if index >= |xs| then Success(acc)
    else
      match VisitToken(xs[index], stack + [Text.DecimalString(index)], section, acc)
      case Failure(e) => Failure(e)
      case Success(acc') => VisitArray(xs, index + 1, stack, section, acc')
  }

  /**
   * Stores one scalar under the key of the current path, failing when the
   * key is null or already present under the comparer.
   */
  function VisitPrimitive(stack: seq<string>, section: Option<string>, text: string, acc: Entries): (r: Result<Entries, ParseError>)
    ensures r.Success? <==> KeyFor(section, stack).Some? && !HasKey(acc, KeyFor(section, stack).value)
    ensures r.Success? ==> r.value == acc + [(KeyFor(section, stack).value, text)]
    ensures r.Success? && CaseDistinct(acc) ==> CaseDistinct(r.value)
    ensures r == Failure(NullKey) <==> KeyFor(section, stack).None?
  {
    match KeyFor(section, stack)
    case None => Failure(NullKey)
    case Some(key) =>
      if HasKey(acc, key) then Failure(DuplicateKey(key))
      else
        AppendFreshKey(acc, (key, text));
        Success(acc + [(key, text)])
  }

  /** `JsonConfigurationParser.Parse(input, section)`: each call starts from an empty map. */
  function Parse(doc: Lexed, section: Option<string>): Result<Entries, ParseError> {
    match doc
    case Malformed => Failure(MalformedDocument)
    case Token(root) => VisitToken(root, [], section, [])
  }

  // ---------------------------------------------------------------------
  // Reference: the document-order list of scalar events, and the map
  // built by replaying them.
  // ---------------------------------------------------------------------

  /** A token the traversal meets at a leaf position, with its full path. */
  datatype Event =
    | Scalar(path: seq<string>, text: string)
    | Unsupported(path: seq<string>, kind: string)

  function Events(j: Json, stack: seq<string>): seq<Event>
    decreases j
  {
    match j
    case Obj(ms) => MemberEvents(ms, stack)
    case Arr(xs) => ItemEvents(xs, 0, stack)
    case Leaf(t) => [Scalar(stack, t)]
    case Other(kind) => [Unsupported(stack, kind)]
  }

  function MemberEvents(ms: seq<Member>, stack: seq<string>): seq<Event>
    decreases ms
  {
    if ms == [] then [] else Events(ms[0].value, stack + [ms[0].name]) + MemberEvents(ms[1..], stack)
  }

  function ItemEvents(xs: seq<Json>, index: nat, stack: seq<string>): seq<Event>
    decreases xs, |xs| - index
  {
    if index >= |xs| then [] else Events(xs[index], stack + [Text.DecimalString(index)]) + ItemEvents(xs, index + 1, stack)
  }

  /** Stores the scalar of one event, or fails on an unsupported token. */
  function Apply(section: Option<string>, e: Event, acc: Entries): Result<Entries, ParseError>
  {
    match e
    case Scalar(path, t) => VisitPrimitive(path, section, t, acc)
    case Unsupported(_, kind) => Failure(UnsupportedToken(kind))
  }

  function Replay(section: Option<string>, events: seq<Event>, acc: Entries): Result<Entries, ParseError>
    decreases |events|
  {
    if events == [] then Success(acc)
    else
      match Apply(section, events[0], acc)
      case Failure(err) => Failure(err)
      case Success(acc') => Replay(section, events[1..], acc')
  }

  predicate AllSupported(events: seq<Event>) {
    forall i | 0 <= i < |events| :: events[i].Scalar?
  }

  predicate AllKeysDefined(section: Option<string>, events: seq<Event>) {
    forall i | 0 <= i < |events| :: KeyFor(section, events[i].path).Some?
  }

  /** One entry per scalar event, in document order. */
  function ExpectedEntries(section: Option<string>, events: seq<Event>): (r: Entries)
    requires AllSupported(events) && AllKeysDefined(section, events)
    ensures |r| == |events|
  {
    seq(|events|, i requires 0 <= i < |events| => (KeyFor(section, events[i].path).value, events[i].text))
  }

  // ---------------------------------------------------------------------
  // The traversal replays the event list.
  // ---------------------------------------------------------------------

  lemma {:induction false} ReplayAppend(section: Option<string>, e1: seq<Event>, e2: seq<Event>, acc: Entries)
    ensures Replay(section, e1 + e2, acc) ==
      match Replay(section, e1, acc)
      case Failure(err) => Failure(err)
      case Success(a) => Replay(section, e2, a)
    decreases |e1|
  {
    if e1 == [] {
      assert e1 + e2 == e2;
    } else {
      assert (e1 + e2)[0] == e1[0];
      assert (e1 + e2)[1..] == e1[1..] + e2;
      match Apply(section, e1[0], acc)
      case Failure(_) =>
      case Success(a) => ReplayAppend(section, e1[1..], e2, a);
    }
  }

  lemma {:induction false} VisitTokenReplays(j: Json, stack: seq<string>, section: Option<string>, acc: Entries)
    ensures VisitToken(j, stack, section, acc) == Replay(section, Events(j, stack), acc)
    decreases j
  {
    match j
    case Obj(ms) => VisitJObjectReplays(ms, stack, section, acc);
    case Arr(xs) => VisitArrayReplays(xs, 0, stack, section, acc);
    case Leaf(t) =>
      assert Events(j, stack) == [Scalar(stack, t)];
    case Other(kind) =>
      assert Events(j, stack) == [Unsupported(stack, kind)];
  }

  lemma {:induction false} VisitJObjectReplays(ms: seq<Member>, stack: seq<string>, section: Option<string>, acc: Entries)
    ensures VisitJObject(ms, stack, section, acc) == Replay(section, MemberEvents(ms, stack), acc)
    decreases ms
  {
    if ms != [] {
      var child := stack + [ms[0].name];
      VisitTokenReplays(ms[0].value, child, section, acc);
      ReplayAppend(section, Events(ms[0].value, child), MemberEvents(ms[1..], stack), acc);
      match VisitToken(ms[0].value, child, section, acc)
      case Failure(_) =>
      case Success(a) => VisitJObjectReplays(ms[1..], stack, section, a);
    }
  }

  lemma {:induction false} VisitArrayReplays(xs: seq<Json>, index: nat, stack: seq<string>, section: Option<string>, acc: Entries)
    ensures VisitArray(xs, index, stack, section, acc) == Replay(section, ItemEvents(xs, index, stack), acc)
    decreases xs, |xs| - index
  {
    if index < |xs| {
      var child := stack + [Text.DecimalString(index)];
      VisitTokenReplays(xs[index], child, section, acc);
      ReplayAppend(section, Events(xs[index], child), ItemEvents(xs, index + 1, stack), acc);
      match VisitToken(xs[index], child, section, acc)
      case Failure(_) =>
      case Success(a) => VisitArrayReplays(xs, index + 1, stack, section, a);
    }
  }

  // ---------------------------------------------------------------------
  // When replaying succeeds, and what it builds.
  // ---------------------------------------------------------------------

  lemma CaseDistinctPrefix(a: Entries, b: Entries)
    requires CaseDistinct(a + b)
    ensures CaseDistinct(a)
  {
    forall i, j | 0 <= i < j < |a|
      ensures !SameKey(a[i].0, a[j].0)
    {
      assert (a + b)[i] == a[i] && (a + b)[j] == a[j];
    }
  }

  /** The conditions and the expected entries of a non-empty event list, split at its head. */
  lemma ExpectedEntriesCons(section: Option<string>, events: seq<Event>)
    requires events != []
    ensures AllSupported(events) && AllKeysDefined(section, events) <==>
      events[0].Scalar? && KeyFor(section, events[0].path).Some? &&
      AllSupported(events[1..]) && AllKeysDefined(section, events[1..])
    ensures AllSupported(events) && AllKeysDefined(section, events) ==>
      ExpectedEntries(section, events) ==
      [(KeyFor(section, events[0].path).value, events[0].text)] + ExpectedEntries(section, events[1..])
  {
    var rest := events[1..];
    assert forall i | 0 <= i < |rest| :: rest[i] == events[i + 1];
    if events[0].Scalar? && KeyFor(section, events[0].path).Some? && AllSupported(rest) && AllKeysDefined(section, rest) {
      forall i | 0 <= i < |events|
        ensures events[i].Scalar? && KeyFor(section, events[i].path).Some?
      {
        if i > 0 {
          assert events[i] == rest[i - 1];
        }
      }
    }
  }

  /** A stored key clashes with the first of the appended entries. */
  lemma ClashWithStored(acc: Entries, p: (string, string), tail: Entries)
    requires HasKey(acc, p.0)
    ensures !CaseDistinct(acc + [p] + tail)
  {
    var all := acc + [p] + tail;
    var q := FindPair(acc, p.0).value;
    var i :| 0 <= i < |acc| && acc[i] == q;
    assert all[i] == acc[i] && all[|acc|] == p;
  }

  /**
   * Replaying succeeds exactly when every event is a scalar, every scalar
   * has a key, and no two keys (including those already stored) are
   * comparer-equal; it then appends one entry per scalar.
   */
  lemma {:induction false} ReplayCharacterization(section: Option<string>, events: seq<Event>, acc: Entries)
    requires CaseDistinct(acc)
    ensures Replay(section, events, acc).Success? <==>
      AllSupported(events) && AllKeysDefined(section, events) && CaseDistinct(acc + ExpectedEntries(section, events))
    ensures Replay(section, events, acc).Success? ==>
      Replay(section, events, acc).value == acc + ExpectedEntries(section, events)
    decreases |events|
  {
    if events == [] {
      assert acc + ExpectedEntries(section, events) == acc;
    } else {
      ExpectedEntriesCons(section, events);
      var rest := events[1..];
      if events[0].Scalar? && KeyFor(section, events[0].path).Some? {
        var p := (KeyFor(section, events[0].path).value, events[0].text);
        if HasKey(acc, p.0) {
          if AllSupported(rest) && AllKeysDefined(section, rest) {
            ClashWithStored(acc, p, ExpectedEntries(section, rest));
            assert acc + ExpectedEntries(section, events) == acc + [p] + ExpectedEntries(section, rest);
          }
        } else {
          AppendFreshKey(acc, p);
          ReplayCharacterization(section, rest, acc + [p]);
          if AllSupported(rest) && AllKeysDefined(section, rest) {
            assert acc + ExpectedEntries(section, events) == acc + [p] + ExpectedEntries(section, rest);
          }
        }
      }
    }
  }

  /** A document's events, in document order, from the empty path. */
  function DocumentEvents(root: Json): seq<Event> {
    Events(root, [])
  }

  /**
   * Parsing a lexed document succeeds exactly when it has no unsupported
   * token, every scalar gets a key, and no two keys are comparer-equal; the
   * result then holds exactly one entry per scalar, keyed by its path.
   */
  lemma ParseCharacterization(root: Json, section: Option<string>)
    ensures Parse(Token(root), section).Success? <==>
      var evs := DocumentEvents(root);
      AllSupported(evs) && AllKeysDefined(section, evs) && CaseDistinct(ExpectedEntries(section, evs))
    ensures Parse(Token(root), section).Success? ==>
      Parse(Token(root), section).value == ExpectedEntries(section, DocumentEvents(root))
  {
    VisitTokenReplays(root, [], section, []);
    ReplayCharacterization(section, DocumentEvents(root), []);
    if AllSupported(DocumentEvents(root)) && AllKeysDefined(section, DocumentEvents(root)) {
      assert [] + ExpectedEntries(section, DocumentEvents(root)) == ExpectedEntries(section, DocumentEvents(root));
    }
  }

  /** A successful parse never holds two comparer-equal keys. */
  lemma ParsedKeysDistinct(doc: Lexed, section: Option<string>)
    ensures Parse(doc, section).Success? ==> CaseDistinct(Parse(doc, section).value)
  {
    if doc.Token? {
      ParseCharacterization(doc.root, section);
    }
  }

  /** Text that does not lex fails. */
  lemma MalformedFails(section: Option<string>)
    ensures Parse(Malformed, section) == Failure(MalformedDocument)
  {
  }

  /** A token of an unsupported kind anywhere in the document makes parsing fail. */
  lemma UnsupportedTokenFails(root: Json, section: Option<string>, i: nat)
    requires i < |DocumentEvents(root)| && DocumentEvents(root)[i].Unsupported?
    ensures Parse(Token(root), section).Failure?
  {
    ParseCharacterization(root, section);
  }

  /** Two scalars whose keys are comparer-equal make parsing fail. */
  lemma DuplicateKeyFails(root: Json, section: Option<string>, i: nat, j: nat)
    requires i < j < |DocumentEvents(root)|
    requires DocumentEvents(root)[i].Scalar? && DocumentEvents(root)[j].Scalar?
    requires KeyFor(section, DocumentEvents(root)[i].path).Some? && KeyFor(section, DocumentEvents(root)[j].path).Some?
    requires SameKey(KeyFor(section, DocumentEvents(root)[i].path).value, KeyFor(section, DocumentEvents(root)[j].path).value)
    ensures Parse(Token(root), section).Failure?
  {
    ParseCharacterization(root, section);
    var evs := DocumentEvents(root);
    if AllSupported(evs) && AllKeysDefined(section, evs) {
      var e := ExpectedEntries(section, evs);
      assert SameKey(e[i].0, e[j].0);
    }
  }

  // ---------------------------------------------------------------------
  // Shape of the paths.
  // ---------------------------------------------------------------------

  /** Every event found below a position has that position's stack as a path prefix. */
  lemma {:induction false} EventsExtendStack(j: Json, stack: seq<string>)
    ensures forall e | e in Events(j, stack) :: |e.path| >= |stack| && e.path[..|stack|] == stack
    decreases j
  {
    match j
    case Obj(ms) => MemberEventsExtendStack(ms, stack);
    case Arr(xs) => ItemEventsExtendStack(xs, 0, stack);
    case Leaf(_) =>
    case Other(_) =>
  }

  lemma {:induction false} MemberEventsExtendStack(ms: seq<Member>, stack: seq<string>)
    ensures forall e | e in MemberEvents(ms, stack) :: |e.path| >= |stack| && e.path[..|stack|] == stack
    decreases ms
  {
    if ms != [] {
      var child := stack + [ms[0].name];
      EventsExtendStack(ms[0].value, child);
      MemberEventsExtendStack(ms[1..], stack);
      forall e | e in Events(ms[0].value, child)
        ensures e.path[..|stack|] == stack
      {
        assert e.path[..|stack|] == e.path[..|child|][..|stack|];
      }
    }
  }

  lemma {:induction false} ItemEventsExtendStack(xs: seq<Json>, index: nat, stack: seq<string>)
    ensures forall e | e in ItemEvents(xs, index, stack) :: |e.path| >= |stack| && e.path[..|stack|] == stack
    decreases xs, |xs| - index
  {
    if index < |xs| {
      var child := stack + [Text.DecimalString(index)];
      EventsExtendStack(xs[index], child);
      ItemEventsExtendStack(xs, index + 1, stack);
      forall e | e in Events(xs[index], child)
        ensures e.path[..|stack|] == stack
      {
        assert e.path[..|stack|] == e.path[..|child|][..|stack|];
      }
    }
  }

  /**
   * The events of an object are those of its members in order, each found
   * under the object's path extended by that member's name alone: siblings
   * never inherit each other's segments.
   */
  lemma {:induction false} MemberEventsAppend(ms: seq<Member>, m: Member, stack: seq<string>)
    ensures MemberEvents(ms + [m], stack) == MemberEvents(ms, stack) + Events(m.value, stack + [m.name])
    ensures forall e | e in Events(m.value, stack + [m.name]) :: |e.path| > |stack| && e.path[..|stack| + 1] == stack + [m.name]
    decreases ms
  {
    EventsExtendStack(m.value, stack + [m.name]);
    if ms == [] {
      assert (ms + [m])[1..] == [];
    } else {
      assert (ms + [m])[0] == ms[0];
      assert (ms + [m])[1..] == ms[1..] + [m];
      MemberEventsAppend(ms[1..], m, stack);
    }
  }

  /**
   * The events of an array are those of its elements in order, element `n`
   * found under the array's path extended by the decimal text of `n`.
   */
  lemma {:induction false} ItemEventsAppend(xs: seq<Json>, x: Json, index: nat, stack: seq<string>)
    requires index <= |xs|
    ensures ItemEvents(xs + [x], index, stack) == ItemEvents(xs, index, stack) + Events(x, stack + [Text.DecimalString(|xs|)])
    ensures forall e | e in Events(x, stack + [Text.DecimalString(|xs|)]) ::
      |e.path| > |stack| && e.path[..|stack| + 1] == stack + [Text.DecimalString(|xs|)]
    decreases |xs| - index
  {
    EventsExtendStack(x, stack + [Text.DecimalString(|xs|)]);
    if index < |xs| {
      assert (xs + [x])[index] == xs[index];
      ItemEventsAppend(xs, x, index + 1, stack);
    } else {
      assert (xs + [x])[index] == x;
      assert ItemEvents(xs + [x], index + 1, stack) == [];
    }
  }

  predicate IsEmptyContainer(v: Json) {
    v == Obj([]) || v == Arr([])
  }

  /** An empty object or array contributes no key: appending one as a member changes nothing. */
  lemma EmptyMemberContributesNothing(ms: seq<Member>, name: string, v: Json, section: Option<string>)
    requires IsEmptyContainer(v)
    ensures Parse(Token(Obj(ms + [Member(name, v)])), section) == Parse(Token(Obj(ms)), section)
  {
    MemberEventsAppend(ms, Member(name, v), []);
    assert Events(v, [name]) == [] by {
      if v == Arr([]) {
        assert ItemEvents([], 0, [name]) == [];
      }
    }
    assert MemberEvents(ms + [Member(name, v)], []) == MemberEvents(ms, []);
    VisitTokenReplays(Obj(ms + [Member(name, v)]), [], section, []);
    VisitTokenReplays(Obj(ms), [], section, []);
  }

  /** Likewise, an empty object or array appended as an array element adds no key. */
  lemma EmptyItemContributesNothing(xs: seq<Json>, v: Json, section: Option<string>)
    requires IsEmptyContainer(v)
    ensures Parse(Token(Arr(xs + [v])), section) == Parse(Token(Arr(xs)), section)
  {
    ItemEventsAppend(xs, v, 0, []);
    var child := [Text.DecimalString(|xs|)];
    assert Events(v, child) == [] by {
      if v == Arr([]) {
        assert ItemEvents([], 0, child) == [];
      }
    }
    assert ItemEvents(xs + [v], 0, []) == ItemEvents(xs, 0, []);
    VisitTokenReplays(Arr(xs + [v]), [], section, []);
    VisitTokenReplays(Arr(xs), [], section, []);
  }

  // ---------------------------------------------------------------------
  // The documented examples.
  // ---------------------------------------------------------------------

  /** `{"key1": "value1", "key2": "value2"}` flattens to two top-level keys. */
  lemma FlatObjectExample()
    ensures Parse(Token(Obj([Member("key1", Leaf("value1")), Member("key2", Leaf("value2"))])), None)
         == Success([("key1", "value1"), ("key2", "value2")])
  {
    var ms := [Member("key1", Leaf("value1")), Member("key2", Leaf("value2"))];
    var acc1 := [("key1", "value1")];
    assert [] + ["key1"] == ["key1"] && [] + ["key2"] == ["key2"];
    assert KeyFor(None, ["key1"]) == Some("key1");
    assert KeyFor(None, ["key2"]) == Some("key2");
    assert [] + [("key1", "value1")] == acc1;
    assert VisitToken(Leaf("value1"), ["key1"], None, []) == Success(acc1);
    assert !SameKey("key1", "key2") by {
      assert Fold("key1")[3] != Fold("key2")[3];
    }
    assert !HasKey(acc1, "key2");
    assert acc1 + [("key2", "value2")] == [("key1", "value1"), ("key2", "value2")];
    assert VisitToken(Leaf("value2"), ["key2"], None, acc1) == Success([("key1", "value1"), ("key2", "value2")]);
    assert ms[1..][1..] == [];
  }

  /** `{"parent": {"child": "value"}}` yields the key `parent:child`. */
  lemma NestedObjectExample()
    ensures Parse(Token(Obj([Member("parent", Obj([Member("child", Leaf("value"))]))])), None)
         == Success([("parent:child", "value")])
  {
    assert [] + ["parent"] == ["parent"];
    assert ["parent"] + ["child"] == ["parent", "child"];
    assert Text.Join(["parent", "child"], KeyDelimiter) == "parent:child" by {
      assert ["parent", "child"][..1] == ["parent"];
      assert "parent" + KeyDelimiter + "child" == "parent:child";
    }
    assert KeyFor(None, ["parent", "child"]) == Some("parent:child");
    assert [] + [("parent:child", "value")] == [("parent:child", "value")];
    assert VisitToken(Leaf("value"), ["parent", "child"], None, []) == Success([("parent:child", "value")]);
    assert [Member("child", Leaf("value"))][1..] == [];
    assert [Member("parent", Obj([Member("child", Leaf("value"))]))][1..] == [];
  }

  /** `{"array": ["value1", "value2"]}` yields `array:0` and `array:1`. */
  lemma ArrayExample()
    ensures Parse(Token(Obj([Member("array", Arr([Leaf("value1"), Leaf("value2")]))])), None)
         == Success([("array:0", "value1"), ("array:1", "value2")])
  {
    var xs := [Leaf("value1"), Leaf("value2")];
    var acc1 := [("array:0", "value1")];
    var acc2 := [("array:0", "value1"), ("array:1", "value2")];
    assert VisitToken(xs[0], ["array", "0"], None, []) == Success(acc1)
        && VisitToken(xs[1], ["array", "1"], None, acc1) == Success(acc2) by {
      ArrayItemsExample(xs, acc1, acc2);
    }
    assert Text.DecimalString(0) == "0";
    assert Text.DecimalString(1) == "1";
    assert ["array"] + ["0"] == ["array", "0"] && ["array"] + ["1"] == ["array", "1"];
    assert VisitArray(xs, 2, ["array"], None, acc2) == Success(acc2);
    assert VisitArray(xs, 1, ["array"], None, acc1) == Success(acc2);
    assert VisitArray(xs, 0, ["array"], None, []) == Success(acc2);
    assert [] + ["array"] == ["array"];
    assert [Member("array", Arr(xs))][1..] == [];
  }

  /** The two items of the array example, each under its index. */
  lemma ArrayItemsExample(xs: seq<Json>, acc1: Entries, acc2: Entries)
    requires xs == [Leaf("value1"), Leaf("value2")]
    requires acc1 == [("array:0", "value1")]
    requires acc2 == [("array:0", "value1"), ("array:1", "value2")]
    ensures VisitToken(xs[0], ["array", "0"], None, []) == Success(acc1)
    ensures VisitToken(xs[1], ["array", "1"], None, acc1) == Success(acc2)
  {
    assert Text.Join(["array", "0"], KeyDelimiter) == "array:0" by {
      assert ["array", "0"][..1] == ["array"];
      assert "array" + KeyDelimiter + "0" == "array:0";
    }
    assert Text.Join(["array", "1"], KeyDelimiter) == "array:1" by {
      assert ["array", "1"][..1] == ["array"];
      assert "array" + KeyDelimiter + "1" == "array:1";
    }
    assert KeyFor(None, ["array", "0"]) == Some("array:0");
    assert KeyFor(None, ["array", "1"]) == Some("array:1");
    assert [] + [("array:0", "value1")] == acc1;
    assert !SameKey("array:0", "array:1") by {
      assert Fold("array:0")[6] != Fold("array:1")[6];
    }
    assert !HasKey(acc1, "array:1");
    assert acc1 + [("array:1", "value2")] == acc2;
  }

  /** With section `section`, `{"key": "value"}` yields `section:key`. */
  lemma SectionExample()
    ensures Parse(Token(Obj([Member("key", Leaf("value"))])), Some("section"))
         == Success([("section:key", "value")])
  {
    assert !IsBlank(Some("section")) by {
      assert !Text.IsWhiteSpace("section"[0]);
    }
    assert [] + ["key"] == ["key"];
    assert Text.Join(["key"], KeyDelimiter) == "key";
    assert "section" + KeyDelimiter + "key" == "section:key";
    assert KeyFor(Some("section"), ["key"]) == Some("section:key");
    assert [] + [("section:key", "value")] == [("section:key", "value")];
    assert VisitToken(Leaf("value"), ["key"], Some("section"), []) == Success([("section:key", "value")]);
    assert [Member("key", Leaf("value"))][1..] == [];
  }

  /** A document that lexes to a single comment token fails as unsupported. */
  lemma CommentOnlyDocumentExample()
    ensures Parse(Token(Other("Comment")), None) == Failure(UnsupportedToken("Comment"))
  {
  }

  /**
   * A root scalar is stored under `section:` when a section is given, and
   * fails on the null key when none is.
   */
  lemma RootScalarExample()
    ensures Parse(Token(Leaf("v")), Some("S")) == Success([("S:", "v")])
    ensures Parse(Token(Leaf("v")), None) == Failure(NullKey)
  {
    assert !IsBlank(Some("S")) by {
      assert !Text.IsWhiteSpace("S"[0]);
    }
    assert Text.Join([], KeyDelimiter) == "";
    assert "S" + KeyDelimiter + "" == "S:";
    assert KeyFor(Some("S"), []) == Some("S:");
    assert !HasKey([], "S:");
    assert [] + [("S:", "v")] == [("S:", "v")];
    assert VisitPrimitive([], Some("S"), "v", []) == Success([("S:", "v")]);
  }

  /** Member names differing only in case collide. */
  lemma CaseVariantDuplicateExample()
    ensures Parse(Token(Obj([Member("Key", Leaf("a")), Member("KEY", Leaf("b"))])), None)
         == Failure(DuplicateKey("KEY"))
  {
    var ms := [Member("Key", Leaf("a")), Member("KEY", Leaf("b"))];
    assert Text.Join(["Key"], KeyDelimiter) == "Key";
    assert Text.Join(["KEY"], KeyDelimiter) == "KEY";
    assert SameKey("Key", "KEY") by {
      assert Fold("Key") == "KEY";
      assert Fold("KEY") == "KEY";
    }
    assert HasKey([("Key", "a")], "KEY");
  }
}
