/**
  The event builder and the validator that hosts apply to what it emits.  `registry` is the set of
  supported event types; `parsers` stands for UUID and timestamp parsing.
 */
module Events {
  import opened Wrappers
  import opened Text
  import opened Redaction

  const SCHEMA := "mailhub.event_envelope.v1"

  /** `isUuid` and `parseTime` are the standard library's parsers; a parsed time is aware or naive.  `str` is `str` of a value. */
  datatype Parsers = Parsers(isUuid: string -> bool, parseTime: string -> Option<bool>, str: Value -> string)

  /** `str(value)`, which leaves a string alone. */
  function TextOf(parsers: Parsers, value: Value): string {
    if value.Str? then value.text else parsers.str(value)
  }

  /** The keys of an envelope, each standing for its string; `Extra` is any other string. */
  datatype Field =
    | SchemaVersion | EventId | EventType | OccurredAt | TraceId | TenantId | SubjectId | IdempotencyKey | Data
    | Extra(name: string)

  /** A mapping with string keys, as both functions exchange it. */
  type Payload = map<Field, Value>

  datatype EventError =
    | TypeNotRegistered | Invalid(field: Field) | DataTooLarge | OccurredAtNaive
    | PayloadInvalid | SchemaInvalid | IdInvalid | OccurredAtInvalid | DataInvalid | NotRedacted

  /** The arguments of `build_event`; the timestamp comes as its text and whether it is aware. */
  datatype Request = Request(
    eventType: string, tenant: string, trace: string, data: seq<(Key, Value)>,
    subject: Option<string>, idempotencyKey: Option<string>,
    eventId: string, occurredAt: string, aware: bool)

  /** `_bounded` accepts a value by its stripped length. */
  predicate Bounded(value: string, limit: nat) {
    Strip(value) != "" && |Strip(value)| <= limit
  }

  /** The validator's own test measures the value as it is. */
  predicate RawBounded(value: string, limit: nat) {
    Strip(value) != "" && |value| <= limit
  }

  function OptionalText(value: Option<string>): Value {
    if value.Some? then Str(value.value) else Null
  }

  /** `EventEnvelope.to_dict`, given the redacted data. */
  function ToDict(eventType: string, r: Request, redacted: seq<(Key, Value)>): Payload {
    map[
      SchemaVersion := Str(SCHEMA),
      EventId := Str(r.eventId),
      EventType := Str(eventType),
      OccurredAt := Str(r.occurredAt),
      TraceId := Str(r.trace),
      TenantId := Str(r.tenant),
      SubjectId := OptionalText(r.subject),
      IdempotencyKey := OptionalText(r.idempotencyKey),
      Data := Dict(redacted)]
  }

  function BuildEvent(fold: string -> string, registry: set<string>, r: Request): Result<Payload, EventError> {
    var eventType := Strip(r.eventType);
    if eventType !in registry then Err(TypeNotRegistered)
    else if !Bounded(eventType, 200) then Err(Invalid(EventType))
    else if !Bounded(r.tenant, 200) then Err(Invalid(TenantId))
    else if !Bounded(r.trace, 200) then Err(Invalid(TraceId))
    else if r.subject.Some? && !Bounded(r.subject.value, 200) then Err(Invalid(SubjectId))
    else if r.idempotencyKey.Some? && !Bounded(r.idempotencyKey.value, 512) then Err(Invalid(IdempotencyKey))
    else if |r.data| > 50 then Err(DataTooLarge)
    else if !r.aware then Err(OccurredAtNaive)
    else
      Ok(ToDict(eventType, r, RedactEvent(fold, r.data)))
  }

  const REQUIRED: set<Field> := {SchemaVersion, EventId, EventType, OccurredAt, TraceId, TenantId, Data}

  /** An optional field is missing, null, or a bounded text. */
  predicate OptionalOk(p: Payload, key: Field, limit: nat) {
    key in p && p[key] != Null ==> p[key].Str? && RawBounded(p[key].text, limit)
  }

  function ValidatePayload(fold: string -> string, registry: set<string>, parsers: Parsers, p: Payload): Option<EventError> {
    if !(REQUIRED <= p.Keys) then Some(PayloadInvalid)
    else if p[SchemaVersion] != Str(SCHEMA) then Some(SchemaInvalid)
    else if !parsers.isUuid(TextOf(parsers, p[EventId])) then Some(IdInvalid)
    else if !p[EventType].Str? || p[EventType].text !in registry then Some(TypeNotRegistered)
    else if !p[TenantId].Str? || !RawBounded(p[TenantId].text, 200) then Some(Invalid(TenantId))
    else if !p[TraceId].Str? || !RawBounded(p[TraceId].text, 200) then Some(Invalid(TraceId))
    else if !p[OccurredAt].Str? || parsers.parseTime(p[OccurredAt].text).None? then Some(OccurredAtInvalid)
    else if !parsers.parseTime(p[OccurredAt].text).value then Some(OccurredAtNaive)
    else if !OptionalOk(p, SubjectId, 200) then Some(Invalid(SubjectId))
    else if !OptionalOk(p, IdempotencyKey, 512) then Some(Invalid(IdempotencyKey))
    else if !p[Data].Dict? then Some(DataInvalid)
    else if |p[Data].entries| > 50 then Some(DataTooLarge)
    else if RedactEvent(fold, p[Data].entries) != Named(p[Data].entries) then Some(NotRedacted)
    else None
  }

  predicate RawOptional(value: Option<string>, limit: nat) {
    value.Some? ==> |value.value| <= limit
  }

  lemma ToDictFields(eventType: string, r: Request, redacted: seq<(Key, Value)>)
    ensures var p := ToDict(eventType, r, redacted);
            && REQUIRED <= p.Keys && SubjectId in p && IdempotencyKey in p
            && p[SchemaVersion] == Str(SCHEMA) && p[EventId] == Str(r.eventId) && p[EventType] == Str(eventType)
            && p[OccurredAt] == Str(r.occurredAt) && p[TraceId] == Str(r.trace) && p[TenantId] == Str(r.tenant)
            && p[SubjectId] == OptionalText(r.subject) && p[IdempotencyKey] == OptionalText(r.idempotencyKey)
            && p[Data] == Dict(redacted)
  {
  }

  // ---- which events are built, and which are accepted ----

  /** White space around a text of 1 to `limit` characters with none at its own ends. */
  ghost predicate Surrounds(value: string, core: string, limit: nat) {
    && 1 <= |core| <= limit && IsStripped(core)
    && exists front, back :: AllSpace(front) && AllSpace(back) && value == front + core + back
  }

  lemma SurroundsIff(value: string, core: string, limit: nat)
    ensures Surrounds(value, core, limit) <==> Bounded(value, limit) && core == Strip(value)
  {
    if core == Strip(value) {
      var front, back := StripIs(value);
    }
    if Surrounds(value, core, limit) {
      var front, back :| AllSpace(front) && AllSpace(back) && value == front + core + back;
      StripUnique(front, core, back);
    }
  }

  ghost predicate HasCore(value: string, limit: nat) {
    exists core :: Surrounds(value, core, limit)
  }

  lemma HasCoreIff(value: string, limit: nat)
    ensures HasCore(value, limit) <==> Bounded(value, limit)
  {
    SurroundsIff(value, Strip(value), limit);
    if core :| Surrounds(value, core, limit) {
      SurroundsIff(value, core, limit);
    }
  }

  ghost predicate OptionalHasCore(value: Option<string>, limit: nat) {
    value.Some? ==> HasCore(value.value, limit)
  }

  /** The emitted mapping: the type stripped, the other texts as they came, the data redacted. */
  ghost predicate Emits(p: Payload, eventType: string, r: Request, redacted: seq<(Key, Value)>) {
    && p.Keys == {SchemaVersion, EventId, EventType, OccurredAt, TraceId, TenantId, SubjectId, IdempotencyKey, Data}
    && p[SchemaVersion] == Str("mailhub.event_envelope.v1") && p[EventId] == Str(r.eventId) && p[EventType] == Str(eventType)
    && p[OccurredAt] == Str(r.occurredAt) && p[TraceId] == Str(r.trace) && p[TenantId] == Str(r.tenant)
    && p[SubjectId] == (if r.subject.Some? then Str(r.subject.value) else Null)
    && p[IdempotencyKey] == (if r.idempotencyKey.Some? then Str(r.idempotencyKey.value) else Null)
    && p[Data] == Dict(redacted)
  }

  lemma EmitsIff(p: Payload, eventType: string, r: Request, redacted: seq<(Key, Value)>)
    ensures Emits(p, eventType, r, redacted) <==> p == ToDict(eventType, r, redacted)
  {
    var q := ToDict(eventType, r, redacted);
    ToDictFields(eventType, r, redacted);
    if Emits(p, eventType, r, redacted) {
      assert forall k | k in p :: p[k] == q[k];
      assert p == q;
    }
  }

  /** Exactly when an event is built, and with which payload. */
  lemma BuiltIff(fold: string -> string, registry: set<string>, r: Request, p: Payload)
    ensures BuildEvent(fold, registry, r) == Ok(p)
       <==> && (exists t :: t in registry && Surrounds(r.eventType, t, 200) && Emits(p, t, r, RedactEvent(fold, r.data)))
            && HasCore(r.tenant, 200) && HasCore(r.trace, 200)
            && OptionalHasCore(r.subject, 200) && OptionalHasCore(r.idempotencyKey, 512)
            && |r.data| <= 50 && r.aware
  {
    var t := Strip(r.eventType);
    StripMeaning(t);
    forall core
      ensures Surrounds(r.eventType, core, 200) <==> Bounded(r.eventType, 200) && core == t
    {
      SurroundsIff(r.eventType, core, 200);
    }
    StripMeaning(r.eventType);
    EmitsIff(p, t, r, RedactEvent(fold, r.data));
    HasCoreIff(r.tenant, 200);
    HasCoreIff(r.trace, 200);
    if r.subject.Some? {
      HasCoreIff(r.subject.value, 200);
    }
    if r.idempotencyKey.Some? {
      HasCoreIff(r.idempotencyKey.value, 512);
    }
  }

  /** The field is a text that is not blank and has at most `limit` characters. */
  ghost predicate HoldsText(p: Payload, key: Field, limit: nat) {
    key in p && exists text :: p[key] == Str(text) && !AllSpace(text) && |text| <= limit
  }

  lemma HoldsTextIff(p: Payload, key: Field, limit: nat)
    ensures HoldsText(p, key, limit) <==> key in p && p[key].Str? && RawBounded(p[key].text, limit)
  {
    if key in p && p[key].Str? {
      BlankIff(p[key].text);
    }
  }

  ghost predicate HoldsType(p: Payload, registry: set<string>) {
    EventType in p && exists t :: t in registry && p[EventType] == Str(t)
  }

  ghost predicate HoldsTime(p: Payload, parsers: Parsers) {
    OccurredAt in p && exists t :: p[OccurredAt] == Str(t) && parsers.parseTime(t) == Some(true)
  }

  /** The field is missing, null, or holds a text. */
  ghost predicate MayHoldText(p: Payload, key: Field, limit: nat) {
    key in p ==> p[key] == Null || HoldsText(p, key, limit)
  }

  ghost predicate HoldsCleanData(p: Payload, fold: string -> string) {
    Data in p && p[Data].Dict? && |p[Data].entries| <= 50 && CleanEntries(fold, Named(p[Data].entries), 0)
  }

  lemma RequiredFields(p: Payload)
    ensures REQUIRED <= p.Keys
       <==> && SchemaVersion in p && EventId in p && EventType in p && OccurredAt in p && TraceId in p && TenantId in p && Data in p
  {
  }

  /** The validator's tests, one by one. */
  lemma ValidIff(fold: string -> string, registry: set<string>, parsers: Parsers, p: Payload)
    requires REQUIRED <= p.Keys
    ensures ValidatePayload(fold, registry, parsers, p) == None
       <==> && p[SchemaVersion] == Str(SCHEMA) && parsers.isUuid(TextOf(parsers, p[EventId]))
            && p[EventType].Str? && p[EventType].text in registry
            && p[TenantId].Str? && RawBounded(p[TenantId].text, 200) && p[TraceId].Str? && RawBounded(p[TraceId].text, 200)
            && p[OccurredAt].Str? && parsers.parseTime(p[OccurredAt].text) == Some(true)
            && OptionalOk(p, SubjectId, 200) && OptionalOk(p, IdempotencyKey, 512)
            && p[Data].Dict? && |p[Data].entries| <= 50 && RedactEvent(fold, p[Data].entries) == Named(p[Data].entries)
  {
  }

  /** Exactly which payloads the validator accepts. */
  lemma PayloadAcceptedIff(fold: string -> string, registry: set<string>, parsers: Parsers, p: Payload)
    ensures ValidatePayload(fold, registry, parsers, p) == None
       <==> && SchemaVersion in p && p[SchemaVersion] == Str("mailhub.event_envelope.v1")
            && EventId in p && parsers.isUuid(TextOf(parsers, p[EventId]))
            && HoldsType(p, registry) && HoldsTime(p, parsers)
            && HoldsText(p, TenantId, 200) && HoldsText(p, TraceId, 200)
            && MayHoldText(p, SubjectId, 200) && MayHoldText(p, IdempotencyKey, 512)
            && HoldsCleanData(p, fold)
  {
    HoldsTextIff(p, TenantId, 200);
    HoldsTextIff(p, TraceId, 200);
    HoldsTextIff(p, SubjectId, 200);
    HoldsTextIff(p, IdempotencyKey, 512);
    RequiredFields(p);
    if REQUIRED <= p.Keys {
      ValidIff(fold, registry, parsers, p);
    }
    if Data in p && p[Data].Dict? {
      RedactionTestIffClean(fold, p[Data].entries);
    }
  }

  /** The validator on a well-formed envelope comes down to the raw lengths. */
  lemma EnvelopeAcceptedIff(fold: string -> string, registry: set<string>, parsers: Parsers, eventType: string, r: Request,
                            redacted: seq<(Key, Value)>, p: Payload)
    requires p == ToDict(eventType, r, redacted) && eventType in registry
    requires parsers.isUuid(r.eventId) && parsers.parseTime(r.occurredAt) == Some(true)
    requires Bounded(r.tenant, 200) && Bounded(r.trace, 200)
    requires (r.subject.Some? ==> Bounded(r.subject.value, 200)) && (r.idempotencyKey.Some? ==> Bounded(r.idempotencyKey.value, 512))
    requires |redacted| <= 50 && RedactEvent(fold, redacted) == redacted == Named(redacted)
    ensures ValidatePayload(fold, registry, parsers, p) == None
            <==> |r.tenant| <= 200 && |r.trace| <= 200 && RawOptional(r.subject, 200) && RawOptional(r.idempotencyKey, 512)
  {
    ToDictFields(eventType, r, redacted);
    assert OptionalOk(p, SubjectId, 200) <==> RawOptional(r.subject, 200);
    assert OptionalOk(p, IdempotencyKey, 512) <==> RawOptional(r.idempotencyKey, 512);
  }

  /**
    The builder satisfies its own validator, exactly when each identifier is within its limit before
    stripping too: the builder measures the stripped text but emits the raw one.
   */
  lemma BuiltPayloadAcceptedIff(fold: string -> string, registry: set<string>, parsers: Parsers, r: Request)
    requires BuildEvent(fold, registry, r).Ok?
    requires parsers.isUuid(r.eventId) && parsers.parseTime(r.occurredAt) == Some(r.aware)
    ensures ValidatePayload(fold, registry, parsers, BuildEvent(fold, registry, r).value) == None
            <==> |r.tenant| <= 200 && |r.trace| <= 200 && RawOptional(r.subject, 200) && RawOptional(r.idempotencyKey, 512)
  {
    var data := RedactEvent(fold, r.data);
    RedactionIsFixedPoint(fold, r.data);
    NamedIff(data);
    EnvelopeAcceptedIff(fold, registry, parsers, Strip(r.eventType), r, data, ToDict(Strip(r.eventType), r, data));
  }

  /** In particular every event whose identifiers carry no surrounding white space is accepted. */
  lemma StrippedIdentifiersAreAccepted(fold: string -> string, registry: set<string>, parsers: Parsers, r: Request)
    requires BuildEvent(fold, registry, r).Ok?
    requires parsers.isUuid(r.eventId) && parsers.parseTime(r.occurredAt) == Some(r.aware)
    requires IsStripped(r.tenant) && IsStripped(r.trace)
    requires (r.subject.Some? ==> IsStripped(r.subject.value)) && (r.idempotencyKey.Some? ==> IsStripped(r.idempotencyKey.value))
    ensures ValidatePayload(fold, registry, parsers, BuildEvent(fold, registry, r).value) == None
  {
    BuiltPayloadAcceptedIff(fold, registry, parsers, r);
    StripMeaning(r.tenant);
    StripMeaning(r.trace);
    if r.subject.Some? {
      StripMeaning(r.subject.value);
    }
    if r.idempotencyKey.Some? {
      StripMeaning(r.idempotencyKey.value);
    }
  }

  function Spaces(n: nat): string {
    if n == 0 then "" else Spaces(n - 1) + " "
  }

  lemma {:induction false} StripSpaces(n: nat)
    ensures |Spaces(n)| == n && StripLeft("t" + Spaces(n)) == "t" + Spaces(n) && StripRight("t" + Spaces(n)) == "t"
  {
    if n == 0 {
      assert "t" + Spaces(0) == "t";
      assert StripRight("t") == "t";
    } else {
      StripSpaces(n - 1);
      var s := "t" + Spaces(n);
      assert s[..|s| - 1] == "t" + Spaces(n - 1);
    }
  }

  /** A tenant of one letter and 200 or more spaces is built and then refused by the validator. */
  lemma PaddedTenantIsRefused(fold: string -> string, parsers: Parsers, n: nat)
    requires n >= 200 && parsers.isUuid("id") && parsers.parseTime("now") == Some(true)
    ensures var r := Request("e", "t" + Spaces(n), "t", [], None, None, "id", "now", true);
            && BuildEvent(fold, {"e"}, r).Ok?
            && ValidatePayload(fold, {"e"}, parsers, BuildEvent(fold, {"e"}, r).value) != None
  {
    var r := Request("e", "t" + Spaces(n), "t", [], None, None, "id", "now", true);
    StripSpaces(n);
    StripMeaning("e");
    StripMeaning("t");
    assert BuildEvent(fold, {"e"}, r).Ok?;
    BuiltPayloadAcceptedIff(fold, {"e"}, parsers, r);
  }
}
