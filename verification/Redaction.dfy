/**
  Redaction of event trees.  `fold` is `str.casefold`; nothing here depends on which function it is.
 */
module Redaction {
  import opened Text
  import opened Wrappers

  const MAX_DEPTH: nat := 5
  const MAX_ITEMS: nat := 100
  const MAX_CHARS: nat := 2000
  const REDACTED := "[REDACTED]"
  const TRUNCATED := "[TRUNCATED]"

  const REDACT_KEYS: set<string> := {
    "access_token", "refresh_token", "password", "client_secret", "authorization", "raw_mime", "body_text",
    "body", "content", "text", "original", "html", "attachment_bytes"}

  const MARKERS: set<string> := {"token", "secret", "credential", "raw_", "mime", "html", "original_text", "prompt"}

  /** A mapping key: a string, or another value, known here by its `str` text. */
  datatype Key = Name(text: string) | Other(text: string)

  datatype SequenceKind = List | Tuple | Set

  /** A Python value.  `Scalar` is any value that is neither text, bytes nor a container; `Null` is None. */
  datatype Value =
    | Null
    | Scalar(tag: string)
    | Str(text: string)
    | Bytes(bytes: string)
    | Items(kind: SequenceKind, items: seq<Value>)
    | Dict(entries: seq<(Key, Value)>)

  predicate IsSensitive(fold: string -> string, key: string) {
    fold(key) in REDACT_KEYS || exists m | m in MARKERS :: Contains(fold(key), m)
  }

  function Take<T>(s: seq<T>, n: nat): seq<T> {
    if |s| <= n then s else s[..n]
  }

  /** Assignment into a dict: a key that is there keeps its place and gets the new value. */
  function Put(d: seq<(Key, Value)>, key: Key, value: Value): seq<(Key, Value)> {
    if d == [] then [(key, value)]
    else if d[0].0 == key then [(key, value)] + d[1..]
    else [d[0]] + Put(d[1..], key, value)
  }

  /** A dict comprehension over `pairs`. */
  function Build(pairs: seq<(Key, Value)>): seq<(Key, Value)> {
    if pairs == [] then [] else Put(Build(pairs[..|pairs| - 1]), pairs[|pairs| - 1].0, pairs[|pairs| - 1].1)
  }

  /** The recursive `sanitize` of one value under `key`. */
  function Sanitize(fold: string -> string, key: string, value: Value, depth: nat): Value
    requires depth <= MAX_DEPTH
    decreases MAX_DEPTH - depth, 0
  {
    if IsSensitive(fold, key) then Str(REDACTED)
    else if depth == MAX_DEPTH then Str(TRUNCATED)
    else
      match value
      case Dict(entries) => Dict(Build(SanitizeEntries(fold, Take(entries, MAX_ITEMS), depth + 1)))
      case Items(_, items) =>
        var kept := Take(items, MAX_ITEMS);
        Items(List, seq(|kept|, i requires 0 <= i < |kept| => Sanitize(fold, key, kept[i], depth + 1)))
      case Bytes(_) => Str(REDACTED)
      case Str(text) => Str(Take(text, MAX_CHARS))
      case _ => value
  }

  function SanitizeEntries(fold: string -> string, entries: seq<(Key, Value)>, depth: nat): seq<(Key, Value)>
    requires depth <= MAX_DEPTH
    decreases MAX_DEPTH - depth, 1
  {
    seq(|entries|, i requires 0 <= i < |entries| =>
          (Name(entries[i].0.text), Sanitize(fold, entries[i].0.text, entries[i].1, depth)))
  }

  /** `redact_event`; the top level itself is not cut. */
  function RedactEvent(fold: string -> string, event: seq<(Key, Value)>): seq<(Key, Value)> {
    Build(SanitizeEntries(fold, event, 0))
  }

  // ---- what a clean value is, independently of how it was made ----

  predicate DistinctKeys(entries: seq<(Key, Value)>) {
    forall i, j | 0 <= i < j < |entries| :: entries[i].0 != entries[j].0
  }

  /** Bounded, free of raw bytes, and nothing but the marker under a sensitive key. */
  predicate Clean(fold: string -> string, key: string, value: Value, depth: nat)
    requires depth <= MAX_DEPTH
    decreases MAX_DEPTH - depth, 0
  {
    if IsSensitive(fold, key) then value == Str(REDACTED)
    else if depth == MAX_DEPTH then value == Str(TRUNCATED)
    else
      match value
      case Dict(entries) => |entries| <= MAX_ITEMS && CleanEntries(fold, entries, depth + 1)
      case Items(kind, items) =>
        kind == List && |items| <= MAX_ITEMS && forall i | 0 <= i < |items| :: Clean(fold, key, items[i], depth + 1)
      case Bytes(_) => false
      case Str(text) => |text| <= MAX_CHARS
      case _ => true
  }

  predicate CleanEntries(fold: string -> string, entries: seq<(Key, Value)>, depth: nat)
    requires depth <= MAX_DEPTH
    decreases MAX_DEPTH - depth, 1
  {
    && DistinctKeys(entries)
    && forall i | 0 <= i < |entries| :: entries[i].0.Name? && Clean(fold, entries[i].0.text, entries[i].1, depth)
  }

  // ---- dict comprehensions ----

  lemma {:induction false} PutAppendsNewKey(d: seq<(Key, Value)>, key: Key, value: Value)
    requires forall i | 0 <= i < |d| :: d[i].0 != key
    ensures Put(d, key, value) == d + [(key, value)]
  {
    if d == [] {
    } else {
      PutAppendsNewKey(d[1..], key, value);
    }
  }

  lemma {:induction false} PutKeepsDistinct(d: seq<(Key, Value)>, key: Key, value: Value)
    requires DistinctKeys(d)
    ensures DistinctKeys(Put(d, key, value)) && |Put(d, key, value)| <= |d| + 1
    ensures forall e :: e in Put(d, key, value) ==> e in d || e == (key, value)
  {
    if d == [] || d[0].0 == key {
    } else {
      PutKeepsDistinct(d[1..], key, value);
      var rest := Put(d[1..], key, value);
      forall j | 0 <= j < |rest|
        ensures rest[j].0 != d[0].0
      {
        assert rest[j] in d[1..] || rest[j] == (key, value);
      }
    }
  }

  lemma {:induction false} BuildIsDict(pairs: seq<(Key, Value)>)
    ensures DistinctKeys(Build(pairs)) && |Build(pairs)| <= |pairs|
    ensures forall e :: e in Build(pairs) ==> e in pairs
  {
    if pairs == [] {
    } else {
      var init, last := pairs[..|pairs| - 1], pairs[|pairs| - 1];
      BuildIsDict(init);
      PutKeepsDistinct(Build(init), last.0, last.1);
      assert pairs == init + [last];
    }
  }

  lemma {:induction false} BuildOfDict(pairs: seq<(Key, Value)>)
    requires DistinctKeys(pairs)
    ensures Build(pairs) == pairs
  {
    if pairs == [] {
    } else {
      var init, last := pairs[..|pairs| - 1], pairs[|pairs| - 1];
      BuildOfDict(init);
      PutAppendsNewKey(init, last.0, last.1);
      assert pairs == init + [last];
    }
  }

  // ---- the fixed points of redaction ----

  /** Whatever goes in, what comes out is clean. */
  lemma {:induction false} SanitizeIsClean(fold: string -> string, key: string, value: Value, depth: nat)
    requires depth <= MAX_DEPTH
    ensures Clean(fold, key, Sanitize(fold, key, value, depth), depth)
    decreases MAX_DEPTH - depth, 0
  {
    if IsSensitive(fold, key) || depth == MAX_DEPTH {
    } else {
      match value
      case Dict(entries) => EntriesAreClean(fold, Take(entries, MAX_ITEMS), depth + 1);
      case Items(_, items) =>
        var kept := Take(items, MAX_ITEMS);
        var out := Sanitize(fold, key, value, depth);
        assert out.Items? && out.kind == List && |out.items| == |kept| <= MAX_ITEMS;
        forall i | 0 <= i < |kept|
          ensures Clean(fold, key, out.items[i], depth + 1)
        {
          SanitizeIsClean(fold, key, kept[i], depth + 1);
        }
      case _ =>
    }
  }

  lemma {:induction false} EntriesAreClean(fold: string -> string, entries: seq<(Key, Value)>, depth: nat)
    requires depth <= MAX_DEPTH
    ensures CleanEntries(fold, Build(SanitizeEntries(fold, entries, depth)), depth)
    ensures |Build(SanitizeEntries(fold, entries, depth))| <= |entries|
    decreases MAX_DEPTH - depth, 1
  {
    var pairs := SanitizeEntries(fold, entries, depth);
    var built := Build(pairs);
    BuildIsDict(pairs);
    forall i | 0 <= i < |built|
      ensures built[i].0.Name? && Clean(fold, built[i].0.text, built[i].1, depth)
    {
      assert built[i] in pairs;
      var k :| 0 <= k < |pairs| && pairs[k] == built[i];
      SanitizeIsClean(fold, entries[k].0.text, entries[k].1, depth);
    }
  }

  /** A clean value is left alone. */
  lemma {:induction false} CleanIsKept(fold: string -> string, key: string, value: Value, depth: nat)
    requires depth <= MAX_DEPTH && Clean(fold, key, value, depth)
    ensures Sanitize(fold, key, value, depth) == value
    decreases MAX_DEPTH - depth, 0
  {
    if IsSensitive(fold, key) || depth == MAX_DEPTH {
    } else {
      match value
      case Dict(entries) => CleanEntriesAreKept(fold, entries, depth + 1);
      case Items(_, items) =>
        forall i | 0 <= i < |items|
          ensures Sanitize(fold, key, items[i], depth + 1) == items[i]
        {
          CleanIsKept(fold, key, items[i], depth + 1);
        }
        assert Sanitize(fold, key, value, depth).items == items;
      case _ =>
    }
  }

  lemma {:induction false} CleanEntriesAreKept(fold: string -> string, entries: seq<(Key, Value)>, depth: nat)
    requires depth <= MAX_DEPTH && CleanEntries(fold, entries, depth)
    ensures SanitizeEntries(fold, entries, depth) == entries && Build(entries) == entries
    decreases MAX_DEPTH - depth, 1
  {
    forall i | 0 <= i < |entries|
      ensures SanitizeEntries(fold, entries, depth)[i] == entries[i]
    {
      CleanIsKept(fold, entries[i].0.text, entries[i].1, depth);
    }
    BuildOfDict(entries);
  }

  /** Redaction changes nothing exactly on the clean values. */
  lemma FixedPointIffClean(fold: string -> string, key: string, value: Value, depth: nat)
    requires depth <= MAX_DEPTH
    ensures Sanitize(fold, key, value, depth) == value <==> Clean(fold, key, value, depth)
  {
    SanitizeIsClean(fold, key, value, depth);
    if Clean(fold, key, value, depth) {
      CleanIsKept(fold, key, value, depth);
    }
  }

  /** The same for whole events: redacting leaves an event alone exactly when it is clean, and the result always is. */
  lemma RedactionIsFixedPoint(fold: string -> string, event: seq<(Key, Value)>)
    ensures CleanEntries(fold, RedactEvent(fold, event), 0) && |RedactEvent(fold, event)| <= |event|
    ensures RedactEvent(fold, RedactEvent(fold, event)) == RedactEvent(fold, event)
    ensures RedactEvent(fold, event) == event <==> CleanEntries(fold, event, 0)
  {
    EntriesAreClean(fold, event, 0);
    CleanEntriesAreKept(fold, RedactEvent(fold, event), 0);
    if CleanEntries(fold, event, 0) {
      CleanEntriesAreKept(fold, event, 0);
    }
  }

  /** Clean events are exactly those that redaction can produce. */
  lemma CleanIffProduced(fold: string -> string, event: seq<(Key, Value)>)
    ensures CleanEntries(fold, event, 0) <==> exists raw :: RedactEvent(fold, raw) == event
  {
    RedactionIsFixedPoint(fold, event);
    forall raw | RedactEvent(fold, raw) == event
      ensures CleanEntries(fold, event, 0)
    {
      RedactionIsFixedPoint(fold, raw);
    }
  }

  // ---- the validator's redaction test ----

  function WithNames(entries: seq<(Key, Value)>): seq<(Key, Value)> {
    seq(|entries|, i requires 0 <= i < |entries| => (Name(entries[i].0.text), entries[i].1))
  }

  /** The names of a mapping's entries turned into strings, as `{str(key): value}`. */
  function Named(entries: seq<(Key, Value)>): seq<(Key, Value)> {
    Build(WithNames(entries))
  }

  /** The keys of a JSON object: distinct, and strings already. */
  predicate HasStringKeys(entries: seq<(Key, Value)>) {
    DistinctKeys(entries) && forall i | 0 <= i < |entries| :: entries[i].0.Name?
  }

  /** Naming the keys changes nothing exactly for the mappings that have such keys. */
  lemma NamedIff(entries: seq<(Key, Value)>)
    ensures Named(entries) == entries <==> HasStringKeys(entries)
  {
    var named := WithNames(entries);
    BuildIsDict(named);
    if HasStringKeys(entries) {
      assert named == entries;
      BuildOfDict(entries);
    }
    if Named(entries) == entries {
      forall i | 0 <= i < |entries|
        ensures entries[i].0.Name?
      {
        assert entries[i] in named;
      }
    }
  }

  /** The same keys, each value replaced by what `f` makes of its key text and it. */
  function MapValues(f: (string, Value) -> Value, pairs: seq<(Key, Value)>): seq<(Key, Value)> {
    seq(|pairs|, i requires 0 <= i < |pairs| => (pairs[i].0, f(pairs[i].0.text, pairs[i].1)))
  }

  lemma {:induction false} PutMapped(f: (string, Value) -> Value, d: seq<(Key, Value)>, key: Key, value: Value)
    ensures Put(MapValues(f, d), key, f(key.text, value)) == MapValues(f, Put(d, key, value))
  {
    if d == [] {
    } else {
      assert MapValues(f, d)[1..] == MapValues(f, d[1..]);
      PutMapped(f, d[1..], key, value);
    }
  }

  lemma {:induction false} BuildMapped(f: (string, Value) -> Value, pairs: seq<(Key, Value)>)
    ensures Build(MapValues(f, pairs)) == MapValues(f, Build(pairs))
  {
    if pairs == [] {
    } else {
      var n := |pairs| - 1;
      assert MapValues(f, pairs)[..n] == MapValues(f, pairs[..n]);
      BuildMapped(f, pairs[..n]);
      PutMapped(f, Build(pairs[..n]), pairs[n].0, pairs[n].1);
    }
  }

  function TopLevel(fold: string -> string): (string, Value) -> Value {
    (key, value) => Sanitize(fold, key, value, 0)
  }

  lemma SanitizedByName(fold: string -> string, entries: seq<(Key, Value)>)
    ensures SanitizeEntries(fold, entries, 0) == MapValues(TopLevel(fold), WithNames(entries))
  {
  }

  lemma NamedHasStringKeys(entries: seq<(Key, Value)>)
    ensures HasStringKeys(Named(entries)) && WithNames(Named(entries)) == Named(entries)
  {
    var named := Named(entries);
    BuildIsDict(WithNames(entries));
    forall i | 0 <= i < |named|
      ensures named[i].0.Name?
    {
      assert named[i] in WithNames(entries);
    }
  }

  lemma RedactedByName(fold: string -> string, entries: seq<(Key, Value)>)
    ensures RedactEvent(fold, entries) == MapValues(TopLevel(fold), Named(entries))
  {
    SanitizedByName(fold, entries);
    BuildMapped(TopLevel(fold), WithNames(entries));
  }

  /** Redacting a mapping is redacting it with its keys named. */
  lemma NamingFirst(fold: string -> string, entries: seq<(Key, Value)>)
    ensures RedactEvent(fold, entries) == RedactEvent(fold, Named(entries))
  {
    NamedHasStringKeys(entries);
    NamedIff(Named(entries));
    RedactedByName(fold, entries);
    RedactedByName(fold, Named(entries));
  }

  /** The validator's redaction test accepts exactly the data that is clean once its keys are named. */
  lemma RedactionTestIffClean(fold: string -> string, entries: seq<(Key, Value)>)
    ensures RedactEvent(fold, entries) == Named(entries) <==> CleanEntries(fold, Named(entries), 0)
  {
    NamingFirst(fold, entries);
    RedactionIsFixedPoint(fold, Named(entries));
  }

  // ---- what clean means for the tree ----

  function MaxOf(xs: seq<nat>): nat {
    if xs == [] then 0 else
      var rest := MaxOf(xs[1..]);
      if xs[0] > rest then xs[0] else rest
  }

  /** The longest chain of containers within a value. */
  function Height(value: Value): nat {
    match value
    case Dict(entries) => 1 + MaxOf(seq(|entries|, i requires 0 <= i < |entries| => Height(entries[i].1)))
    case Items(_, items) => 1 + MaxOf(seq(|items|, i requires 0 <= i < |items| => Height(items[i])))
    case _ => 0
  }

  lemma {:induction false} MaxBound(xs: seq<nat>, bound: nat)
    requires forall i | 0 <= i < |xs| :: xs[i] <= bound
    ensures MaxOf(xs) <= bound
  {
    if xs == [] {
    } else {
      MaxBound(xs[1..], bound);
    }
  }

  /** A clean value at depth `d` nests at most `5 - d` containers. */
  lemma {:induction false} CleanIsShallow(fold: string -> string, key: string, value: Value, depth: nat)
    requires depth <= MAX_DEPTH && Clean(fold, key, value, depth)
    ensures Height(value) <= MAX_DEPTH - depth
    decreases MAX_DEPTH - depth, 0
  {
    match value
    case Dict(entries) =>
      forall i | 0 <= i < |entries|
        ensures Height(entries[i].1) <= MAX_DEPTH - depth - 1
      {
        CleanIsShallow(fold, entries[i].0.text, entries[i].1, depth + 1);
      }
      MaxBound(seq(|entries|, i requires 0 <= i < |entries| => Height(entries[i].1)), MAX_DEPTH - depth - 1);
    case Items(_, items) =>
      forall i | 0 <= i < |items|
        ensures Height(items[i]) <= MAX_DEPTH - depth - 1
      {
        CleanIsShallow(fold, key, items[i], depth + 1);
      }
      MaxBound(seq(|items|, i requires 0 <= i < |items| => Height(items[i])), MAX_DEPTH - depth - 1);
    case _ =>
  }

  /** So the containers of every redacted event nest at most five deep, whatever was put in. */
  lemma RedactedEventsAreShallow(fold: string -> string, event: seq<(Key, Value)>)
    ensures forall e | e in RedactEvent(fold, event) :: Height(e.1) <= MAX_DEPTH
  {
    var clean := RedactEvent(fold, event);
    RedactionIsFixedPoint(fold, event);
    forall e | e in clean
      ensures Height(e.1) <= MAX_DEPTH
    {
      var i :| 0 <= i < |clean| && clean[i] == e;
      CleanIsShallow(fold, e.0.text, e.1, 0);
    }
  }

  // ---- what becomes of each value ----

  /** The key texts of a mapping, each once, in the order of first appearance. */
  function Texts(entries: seq<(Key, Value)>): seq<string> {
    if entries == [] then [] else
      var init, text := Texts(entries[..|entries| - 1]), entries[|entries| - 1].0.text;
      if text in init then init else init + [text]
  }

  /** The value that a key text has last. */
  function LastOf(entries: seq<(Key, Value)>, text: string): Option<Value> {
    if entries == [] then None
    else if entries[|entries| - 1].0.text == text then Some(entries[|entries| - 1].1)
    else LastOf(entries[..|entries| - 1], text)
  }

  /** A mapping with exactly those keys, in that order, and with a value for each. */
  predicate HasTexts(d: seq<(Key, Value)>, texts: seq<string>) {
    |d| == |texts| && forall p | 0 <= p < |d| :: d[p].0 == Name(texts[p])
  }

  predicate AllDifferent(texts: seq<string>) {
    forall p, q | 0 <= p < q < |texts| :: texts[p] != texts[q]
  }

  /** Putting a key replaces at its place, or else appends. */
  lemma {:induction false} PutMeaning(d: seq<(Key, Value)>, key: Key, value: Value) returns (p: nat)
    ensures p <= |d| && (forall i | 0 <= i < p :: d[i].0 != key) && (p < |d| ==> d[p].0 == key)
    ensures Put(d, key, value) == if p < |d| then d[p := (key, value)] else d + [(key, value)]
  {
    if d == [] || d[0].0 == key {
      p := 0;
      assert d != [] ==> [(key, value)] + d[1..] == d[0 := (key, value)];
    } else {
      var q := PutMeaning(d[1..], key, value);
      p := q + 1;
      assert d == [d[0]] + d[1..];
    }
  }

  lemma PutTexts(d: seq<(Key, Value)>, texts: seq<string>, text: string, value: Value)
    requires HasTexts(d, texts)
    ensures HasTexts(Put(d, Name(text), value), if text in texts then texts else texts + [text])
  {
    var p := PutMeaning(d, Name(text), value);
    if p < |d| {
      assert texts[p] == text;
    } else {
      assert forall i | 0 <= i < |texts| :: texts[i] != text;
    }
  }

  lemma {:induction false} PutValues(d: seq<(Key, Value)>, key: Key, value: Value)
    requires DistinctKeys(d)
    ensures var next := Put(d, key, value);
            && |d| <= |next| <= |d| + 1
            && forall p | 0 <= p < |next| :: next[p].1 == if next[p].0 == key then value else if p < |d| then d[p].1 else value
  {
    if d == [] || d[0].0 == key {
    } else {
      PutValues(d[1..], key, value);
    }
  }

  lemma {:induction false} TextsAreDistinct(entries: seq<(Key, Value)>)
    ensures AllDifferent(Texts(entries))
    ensures forall text :: text in Texts(entries) <==> LastOf(entries, text).Some?
  {
    if entries == [] {
    } else {
      TextsAreDistinct(entries[..|entries| - 1]);
    }
  }

  /** Entries with string names for their keys. */
  predicate NamedAlike(entries: seq<(Key, Value)>, pairs: seq<(Key, Value)>) {
    |pairs| == |entries| && forall i | 0 <= i < |entries| :: pairs[i].0 == Name(entries[i].0.text)
  }

  /** A dict comprehension keeps every key text once, at its first place, with the value it is given last. */
  lemma {:induction false} BuildMeaning(pairs: seq<(Key, Value)>)
    requires forall i | 0 <= i < |pairs| :: pairs[i].0.Name?
    ensures HasTexts(Build(pairs), Texts(pairs))
    ensures forall p | 0 <= p < |Build(pairs)| :: LastOf(pairs, Texts(pairs)[p]) == Some(Build(pairs)[p].1)
  {
    if pairs == [] {
    } else {
      var init, last := pairs[..|pairs| - 1], pairs[|pairs| - 1];
      BuildMeaning(init);
      TextsAreDistinct(init);
      PutTexts(Build(init), Texts(init), last.0.text, last.1);
      BuildIsDict(init);
      PutValues(Build(init), last.0, last.1);
    }
  }

  /** What a value is redacted to, said without computing it. */
  ghost predicate Redacts(fold: string -> string, key: string, value: Value, depth: nat, out: Value)
    requires depth <= 5
    decreases 5 - depth, 0
  {
    if IsSensitive(fold, key) then out == Str("[REDACTED]")
    else if depth == 5 then out == Str("[TRUNCATED]")
    else
      match value
      case Null => out == Null
      case Scalar(_) => out == value
      case Bytes(_) => out == Str("[REDACTED]")
      case Str(text) => out.Str? && out.text <= text && |out.text| == if |text| <= 2000 then |text| else 2000
      case Items(_, items) => out.Items? && out.kind == List && RedactsItems(fold, key, items, depth + 1, out.items)
      case Dict(entries) => out.Dict? && RedactsEntries(fold, if |entries| <= 100 then entries else entries[..100], depth + 1, out.entries)
  }

  /** The first hundred items, each redacted under the same key. */
  ghost predicate RedactsItems(fold: string -> string, key: string, items: seq<Value>, depth: nat, out: seq<Value>)
    requires depth <= 5
    decreases 5 - depth, 1
  {
    |out| == (if |items| <= 100 then |items| else 100) && forall k | 0 <= k < |out| :: Redacts(fold, key, items[k], depth, out[k])
  }

  /** Every key text once, at its first place, with the redaction of the value it has last. */
  ghost predicate RedactsEntries(fold: string -> string, entries: seq<(Key, Value)>, depth: nat, out: seq<(Key, Value)>)
    requires depth <= 5
    decreases 5 - depth, 1
  {
    && HasTexts(out, Texts(entries))
    && forall p | 0 <= p < |out| ::
         && LastOf(entries, Texts(entries)[p]).Some?
         && Redacts(fold, Texts(entries)[p], LastOf(entries, Texts(entries)[p]).value, depth, out[p].1)
  }

  /** The redaction of every value is what that says, at every depth and for every kind of value. */
  lemma {:induction false} SanitizeRedacts(fold: string -> string, key: string, value: Value, depth: nat)
    requires depth <= MAX_DEPTH
    ensures Redacts(fold, key, value, depth, Sanitize(fold, key, value, depth))
    decreases MAX_DEPTH - depth, 0
  {
    if IsSensitive(fold, key) || depth == MAX_DEPTH {
    } else {
      match value
      case Items(_, items) => ItemsRedact(fold, key, items, depth + 1);
      case Dict(entries) => EntriesRedact(fold, Take(entries, MAX_ITEMS), depth + 1);
      case _ =>
    }
  }

  function SanitizedItems(fold: string -> string, key: string, items: seq<Value>, depth: nat): seq<Value>
    requires depth <= MAX_DEPTH
  {
    var kept := Take(items, MAX_ITEMS);
    seq(|kept|, i requires 0 <= i < |kept| => Sanitize(fold, key, kept[i], depth))
  }

  lemma {:induction false} ItemsRedact(fold: string -> string, key: string, items: seq<Value>, depth: nat)
    requires depth <= MAX_DEPTH
    ensures RedactsItems(fold, key, items, depth, SanitizedItems(fold, key, items, depth))
    decreases MAX_DEPTH - depth, 1
  {
    var out := SanitizedItems(fold, key, items, depth);
    forall k | 0 <= k < |out|
      ensures Redacts(fold, key, items[k], depth, out[k])
    {
      SanitizeRedacts(fold, key, items[k], depth);
    }
  }

  lemma {:induction false} TextsOfPairs(fold: string -> string, entries: seq<(Key, Value)>, depth: nat, text: string)
    requires depth <= MAX_DEPTH
    ensures var pairs := SanitizeEntries(fold, entries, depth);
            && NamedAlike(entries, pairs) && Texts(pairs) == Texts(entries)
            && (LastOf(pairs, text).Some? <==> LastOf(entries, text).Some?)
            && (LastOf(pairs, text).Some? ==> LastOf(pairs, text).value == Sanitize(fold, text, LastOf(entries, text).value, depth))
  {
    var pairs := SanitizeEntries(fold, entries, depth);
    if entries == [] {
    } else {
      var init := entries[..|entries| - 1];
      TextsOfPairs(fold, init, depth, text);
      assert pairs[..|pairs| - 1] == SanitizeEntries(fold, init, depth);
    }
  }

  lemma {:induction false} EntriesRedact(fold: string -> string, entries: seq<(Key, Value)>, depth: nat)
    requires depth <= MAX_DEPTH
    ensures RedactsEntries(fold, entries, depth, Build(SanitizeEntries(fold, entries, depth)))
    decreases MAX_DEPTH - depth, 1
  {
    var pairs := SanitizeEntries(fold, entries, depth);
    var out := Build(pairs);
    TextsOfPairs(fold, entries, depth, "");
    BuildMeaning(pairs);
    forall p | 0 <= p < |out|
      ensures LastOf(entries, Texts(entries)[p]).Some?
      ensures Redacts(fold, Texts(entries)[p], LastOf(entries, Texts(entries)[p]).value, depth, out[p].1)
    {
      var text := Texts(entries)[p];
      TextsOfPairs(fold, entries, depth, text);
      SanitizeRedacts(fold, text, LastOf(entries, text).value, depth);
    }
  }

  /** So an event is redacted entry by entry; the top level itself is not cut. */
  lemma EventRedacts(fold: string -> string, event: seq<(Key, Value)>)
    ensures RedactsEntries(fold, event, 0, RedactEvent(fold, event))
  {
    EntriesRedact(fold, event, 0);
  }

  /** With distinct string keys every entry keeps its key and its place, and its value is the redaction of what stood there. */
  lemma StringKeysKeepTheirPlaces(fold: string -> string, event: seq<(Key, Value)>, i: nat)
    requires HasStringKeys(event) && i < |event|
    ensures var out := RedactEvent(fold, event);
            |out| == |event| && out[i].0 == event[i].0 && Redacts(fold, event[i].0.text, event[i].1, 0, out[i].1)
  {
    BuildOfDict(SanitizeEntries(fold, event, 0));
    SanitizeRedacts(fold, event[i].0.text, event[i].1, 0);
  }

  /** And that leaves no choice: there is one value that a value is redacted to. */
  lemma {:induction false} RedactsToOne(fold: string -> string, key: string, value: Value, depth: nat, a: Value, b: Value)
    requires depth <= 5 && Redacts(fold, key, value, depth, a) && Redacts(fold, key, value, depth, b)
    ensures a == b
    decreases 5 - depth, 0
  {
    if IsSensitive(fold, key) || depth == 5 {
    } else {
      match value
      case Items(_, items) =>
        forall k | 0 <= k < |a.items|
          ensures a.items[k] == b.items[k]
        {
          RedactsToOne(fold, key, items[k], depth + 1, a.items[k], b.items[k]);
        }
        assert a.items == b.items;
      case Dict(entries) => EntriesToOne(fold, if |entries| <= 100 then entries else entries[..100], depth + 1, a.entries, b.entries);
      case _ =>
    }
  }

  lemma {:induction false} EntriesToOne(fold: string -> string, entries: seq<(Key, Value)>, depth: nat, a: seq<(Key, Value)>, b: seq<(Key, Value)>)
    requires depth <= 5 && RedactsEntries(fold, entries, depth, a) && RedactsEntries(fold, entries, depth, b)
    ensures a == b
    decreases 5 - depth, 1
  {
    forall p | 0 <= p < |a|
      ensures a[p] == b[p]
    {
      var text := Texts(entries)[p];
      RedactsToOne(fold, text, LastOf(entries, text).value, depth, a[p].1, b[p].1);
    }
  }
}
