/**
  Beginning and consuming an OAuth authorization over the in-memory state store.  Validation of redirect and
  endpoint URLs is a parameter that gives the normalised URL or nothing; instants are microseconds.
 */
module OAuthService {
  import opened Wrappers
  import opened Text
  import opened SignedState
  import Scopes

  datatype Provider = Gmail | MicrosoftGraph | ImapSmtp

  /** A UUID as the 128-bit number it stands for. */
  type Uuid = nat

  datatype Record = Record(stateId: string, tenant: string, subject: string, provider: Provider, redirect: string,
                           codeVerifier: string, nonce: string, expiresAt: int,
                           connection: Option<Uuid>, revision: Option<int>, scopes: seq<string>)

  datatype Context = Context(tenant: string, subject: string, provider: Provider, redirect: string,
                             codeVerifier: string, nonce: string,
                             connection: Option<Uuid>, revision: Option<int>, scopes: seq<string>)

  datatype Request = Request(provider: Provider, state: string, codeVerifier: string, expiresAt: int,
                             connection: Option<Uuid>, revision: Option<int>)

  /** A claim that may be missing (or null) or of the wrong kind. */
  datatype Claim<T> = Absent | Malformed | Given(value: T)

  /** The signed claims; a provider, state id or expiry that is missing or mistyped reads as `None`. */
  datatype Claims = Claims(provider: Option<Provider>, sid: Option<string>, exp: Option<int>, cid: Claim<Uuid>, rev: Claim<int>)

  /** The configuration, with the module's tables of required scopes and write markers and its URL checks. */
  datatype Config = Config(redirects: map<Provider, seq<string>>, endpoints: map<Provider, seq<string>>,
                           clients: map<Provider, seq<string>>, scopes: map<Provider, seq<string>>, ttl: int,
                           redirectOf: string -> Option<string>, endpointOf: string -> Option<string>,
                           required: map<Provider, set<string>>, markers: map<Provider, seq<string>>, fold: string -> string)

  datatype BeginInput = BeginInput(provider: Provider, tenant: string, subject: string, endpoint: string, client: string,
                                   redirect: string, scopes: seq<string>, extra: map<string, string>,
                                   connection: Option<Uuid>, revision: Option<int>)

  /** The random bytes of one authorization: 24, 48 and 24 of them. */
  datatype Random = Random(state: seq<Byte>, verifier: seq<Byte>, nonce: seq<Byte>)

  datatype BeginError =
    | IdentityInvalid | RevisionInvalid | ConnectionRequired | ClientInvalid | EndpointInvalid | EndpointNotAllowed
    | ClientNotAllowed | RedirectInvalid | RedirectNotAllowed | ScopesInvalid | ScopeNotAllowed | WriteScope
    | RequiredScopeMissing | ExtraParameterInvalid

  datatype ConsumeError =
    | StateRefused(error: StateError) | ProviderMismatch | PayloadInvalid | Expired | ReplayedOrMissing
    | BindingMismatch | CallbackRedirectInvalid | CallbackMismatch

  predicate ValidIdentity(value: string) {
    Strip(value) != "" && |value| <= 200
  }

  /** The distinct stripped scopes, in the order first given. */
  function RequestedScopes(scopes: seq<string>): seq<string> {
    Scopes.Distinct(seq(|scopes|, i requires 0 <= i < |scopes| => Strip(scopes[i])))
  }

  /** `validate_granted_scopes` of the requested scopes against themselves, so no scope can escalate. */
  function ReadOnlyError(config: Config, provider: Provider, requested: seq<string>): Option<BeginError> {
    if provider !in config.required then None
    else if |requested| > 40 then Some(ScopesInvalid)
    else if provider in config.markers
         && exists s, m | s in requested && m in config.markers[provider] :: StartsWith(config.fold(s), m) then Some(WriteScope)
    else if !(config.required[provider] <= Scopes.Folded(config.fold, requested)) then Some(RequiredScopeMissing)
    else None
  }

  predicate ScopeTextOk(scope: string) {
    Strip(scope) != "" && |scope| <= 200 && forall c | c in scope :: c >= '\U{0021}' && c != '\U{007F}'
  }

  predicate Allowed(lists: map<Provider, seq<string>>, provider: Provider, value: string) {
    provider in lists ==> value in lists[provider]
  }

  /** The first check of `begin` that fails before the record is saved. */
  function BeginErrorOf(config: Config, input: BeginInput): Option<BeginError> {
    var endpoint := config.endpointOf(input.endpoint);
    var redirect := config.redirectOf(input.redirect);
    var requested := RequestedScopes(input.scopes);
    if !ValidIdentity(input.tenant) || !ValidIdentity(input.subject) then Some(IdentityInvalid)
    else if input.revision.Some? && input.revision.value < 1 then Some(RevisionInvalid)
    else if input.revision.Some? && input.connection.None? then Some(ConnectionRequired)
    else if Strip(input.client) == "" || |input.client| > 512 then Some(ClientInvalid)
    else if endpoint.None? then Some(EndpointInvalid)
    else if !Allowed(config.endpoints, input.provider, endpoint.value) then Some(EndpointNotAllowed)
    else if !Allowed(config.clients, input.provider, input.client) then Some(ClientNotAllowed)
    else if redirect.None? then Some(RedirectInvalid)
    else if input.provider !in config.redirects || redirect.value !in config.redirects[input.provider] then Some(RedirectNotAllowed)
    else if input.scopes == [] || exists s | s in input.scopes :: !ScopeTextOk(s) then Some(ScopesInvalid)
    else if input.provider in config.scopes && exists s | s in requested :: s !in config.scopes[input.provider] then Some(ScopeNotAllowed)
    else ReadOnlyError(config, input.provider, requested)
  }

  /** The query parameters that `begin` sets itself. */
  predicate IsOwnParameter(key: string) {
    || key == "client_id" || key == "redirect_uri" || key == "response_type" || key == "scope"
    || key == "state" || key == "code_challenge" || key == "code_challenge_method" || key == "nonce"
  }

  predicate ExtraOk(extra: map<string, string>) {
    forall k | k in extra :: !IsOwnParameter(k) && 1 <= |k| <= 100 && |extra[k]| <= 1000
  }

  /** `int(instant.timestamp())`, which truncates toward zero. */
  function Seconds(instant: int): int {
    if instant >= 0 then instant / 1_000_000 else -((-instant) / 1_000_000)
  }

  function NewRecord(config: Config, input: BeginInput, random: Random, now: int): Record
    requires config.redirectOf(input.redirect).Some?
  {
    Record(B64Url(random.state), input.tenant, input.subject, input.provider, config.redirectOf(input.redirect).value,
           B64Url(random.verifier), B64Url(random.nonce), now + config.ttl, input.connection, input.revision,
           RequestedScopes(input.scopes))
  }

  /** The claims signed for a record. */
  function ClaimsOf(r: Record): Claims {
    Claims(Some(r.provider), Some(r.stateId), Some(Seconds(r.expiresAt)),
           if r.connection.Some? then Given(r.connection.value) else Absent,
           if r.revision.Some? then Given(r.revision.value) else Absent)
  }

  function RequestOf(codec: Codec<Claims>, r: Record): Request {
    Request(r.provider, SignState(codec, ClaimsOf(r)), r.codeVerifier, r.expiresAt, r.connection, r.revision)
  }

  type Records = map<string, Record>

  /** The record is saved before the extra parameters are checked. */
  function BeginStep(config: Config, codec: Codec<Claims>, records: Records, input: BeginInput, random: Random, now: int)
    : (Records, Result<Request, BeginError>)
  {
    var error := BeginErrorOf(config, input);
    if error.Some? then (records, Err(error.value))
    else
      var record := NewRecord(config, input, random, now);
      (records[record.stateId := record],
       if ExtraOk(input.extra) then Ok(RequestOf(codec, record)) else Err(ExtraParameterInvalid))
  }

  function ContextOf(r: Record): Context {
    Context(r.tenant, r.subject, r.provider, r.redirect, r.codeVerifier, r.nonce, r.connection, r.revision, r.scopes)
  }

  /** `None` for an absent claim; a malformed one is an error. */
  function ClaimedConnection(c: Claim<Uuid>): Result<Option<Uuid>, ConsumeError> {
    match c
    case Absent => Ok(None)
    case Malformed => Err(PayloadInvalid)
    case Given(id) => Ok(Some(id))
  }

  function ClaimedRevision(c: Claim<int>): Result<Option<int>, ConsumeError> {
    match c
    case Absent => Ok(None)
    case Malformed => Err(PayloadInvalid)
    case Given(n) => if n < 1 then Err(PayloadInvalid) else Ok(Some(n))
  }

  /** What happens once the record is taken from the store. */
  function CheckRecord(config: Config, record: Record, claims: Claims, provider: Provider, redirect: string, now: int)
    : Result<Context, ConsumeError>
  {
    var connection, revision := ClaimedConnection(claims.cid), ClaimedRevision(claims.rev);
    if connection.Err? then Err(connection.error)
    else if revision.Err? then Err(revision.error)
    else if record.connection != connection.value || record.revision != revision.value then Err(BindingMismatch)
    else if config.redirectOf(redirect).None? then Err(CallbackRedirectInvalid)
    else if record.provider != provider || record.redirect != config.redirectOf(redirect).value then Err(CallbackMismatch)
    else if record.expiresAt <= now then Err(Expired)
    else Ok(ContextOf(record))
  }

  /** The state id to take from the store, or why the state is refused before that. */
  function ReadState(codec: Codec<Claims>, provider: Provider, state: string, now: int): Result<Claims, ConsumeError>
  {
    match VerifyState(codec, state)
    case Err(e) => Err(StateRefused(e))
    case Ok(claims) =>
      if claims.provider != Some(provider) then Err(ProviderMismatch)
      else if claims.sid.None? || claims.exp.None? then Err(PayloadInvalid)
      else if claims.exp.value <= Seconds(now) then Err(Expired)
      else Ok(claims)
  }

  function ConsumeStep(config: Config, codec: Codec<Claims>, records: Records, provider: Provider, state: string,
                       redirect: string, now: int): (Records, Result<Context, ConsumeError>)
  {
    match ReadState(codec, provider, state, now)
    case Err(e) => (records, Err(e))
    case Ok(claims) =>
      var id := claims.sid.value;
      if id !in records then (records, Err(ReplayedOrMissing))
      else (records - {id}, CheckRecord(config, records[id], claims, provider, redirect, now))
  }

  // ---- the service over its store ----

  class StateStore {
    var records: Records

    constructor ()
      ensures records == map[]
    {
      records := map[];
    }

    method Save(record: Record)
      modifies this
      ensures records == old(records)[record.stateId := record]
    {
      records := records[record.stateId := record];
    }

    /** `dict.pop` with a default. */
    method Consume(id: string) returns (record: Option<Record>)
      modifies this
      ensures records == old(records) - {id}
      ensures record == if id in old(records) then Some(old(records)[id]) else None
    {
      if id in records {
        record := Some(records[id]);
        records := records - {id};
      } else {
        record := None;
        assert records - {id} == records;
      }
    }
  }

  class AuthorizationService {
    const store: StateStore
    const config: Config
    const codec: Codec<Claims>

    constructor (store: StateStore, config: Config, codec: Codec<Claims>)
      ensures this.store == store && this.config == config && this.codec == codec
    {
      this.store, this.config, this.codec := store, config, codec;
    }

    method Begin(input: BeginInput, random: Random, now: int) returns (result: Result<Request, BeginError>)
      modifies store
      ensures (store.records, result) == BeginStep(config, codec, old(store.records), input, random, now)
    {
      var error := BeginErrorOf(config, input);
      if error.Some? {
        return Err(error.value);
      }
      var record := NewRecord(config, input, random, now);
      store.Save(record);
      if !ExtraOk(input.extra) {
        return Err(ExtraParameterInvalid);
      }
      result := Ok(RequestOf(codec, record));
    }

    method Consume(provider: Provider, state: string, redirect: string, now: int) returns (result: Result<Context, ConsumeError>)
      modifies store
      ensures (store.records, result) == ConsumeStep(config, codec, old(store.records), provider, state, redirect, now)
    {
      var claims := ReadState(codec, provider, state, now);
      if claims.Err? {
        return Err(claims.error);
      }
      var record := store.Consume(claims.value.sid.value);
      if record.None? {
        assert store.records == old(store.records);
        return Err(ReplayedOrMissing);
      }
      result := CheckRecord(config, record.value, claims.value, provider, redirect, now);
    }
  }

  // ---- begin, then consume ----

  lemma SecondsOrder(a: int, b: int)
    ensures Seconds(a) > Seconds(b) ==> a > b
    ensures b >= 0 && a >= b + 1_000_000 ==> Seconds(a) > Seconds(b)
  {
  }

  lemma AcceptedBegin(config: Config, codec: Codec<Claims>, records: Records, input: BeginInput, random: Random, now: int)
    requires BeginStep(config, codec, records, input, random, now).1.Ok?
    ensures config.redirectOf(input.redirect).Some? && (input.revision.Some? ==> input.revision.value >= 1)
    ensures BeginStep(config, codec, records, input, random, now).1.value
         == RequestOf(codec, NewRecord(config, input, random, now))
  {
  }

  /** How the service reads back the claims it signed for a record. */
  lemma ReadOwnState(codec: Codec<Claims>, record: Record, provider: Provider, now: int)
    requires Faithful(codec)
    ensures var state := SignState(codec, ClaimsOf(record));
            ReadState(codec, provider, state, now) == (
              if !(20 <= |state| <= 4000) then Err(StateRefused(FormatInvalid))
              else if provider != record.provider then Err(ProviderMismatch)
              else if Seconds(record.expiresAt) <= Seconds(now) then Err(Expired)
              else Ok(ClaimsOf(record)))
  {
    SignedStateVerifies(codec, ClaimsOf(record));
  }

  /** A record passes the checks against its own claims when the redirect does, before its expiry. */
  lemma CheckOwnRecord(config: Config, record: Record, redirect: string, now: int)
    requires record.revision.Some? ==> record.revision.value >= 1
    requires now < record.expiresAt
    ensures var result := CheckRecord(config, record, ClaimsOf(record), record.provider, redirect, now);
            && (result.Ok? <==> config.redirectOf(redirect) == Some(record.redirect))
            && (result.Ok? ==> result.value == ContextOf(record))
  {
    assert ClaimedConnection(ClaimsOf(record).cid) == Ok(record.connection);
    assert ClaimedRevision(ClaimsOf(record).rev) == Ok(record.revision);
  }

  /** When a stored record's own state is consumed with success. */
  lemma ConsumeOwnState(config: Config, codec: Codec<Claims>, record: Record, records: Records, provider: Provider, redirect: string, now: int)
    requires Faithful(codec) && (record.revision.Some? ==> record.revision.value >= 1)
    requires record.stateId in records && records[record.stateId] == record
    ensures var state := SignState(codec, ClaimsOf(record));
            var (after, result) := ConsumeStep(config, codec, records, provider, state, redirect, now);
            && (result.Ok? <==> 20 <= |state| <= 4000 && provider == record.provider
                                && config.redirectOf(redirect) == Some(record.redirect) && Seconds(now) < Seconds(record.expiresAt))
            && (result.Ok? ==> result.value == ContextOf(record) && after == records - {record.stateId})
  {
    var state := SignState(codec, ClaimsOf(record));
    ReadOwnState(codec, record, provider, now);
    if 20 <= |state| <= 4000 && provider == record.provider && Seconds(now) < Seconds(record.expiresAt) {
      SecondsOrder(record.expiresAt, now);
      CheckOwnRecord(config, record, redirect, now);
    }
  }

  /**
    The state of an accepted `begin` whose record is still stored.  It is consumed with success exactly when its
    length passes the check, provider and redirect are the ones it was begun for, and the whole seconds
    of the clock are below those of the expiry; every field then comes back as it was given.  The later
    comparison with the exact expiry never decides anything.
   */
  lemma BeginThenConsume(config: Config, codec: Codec<Claims>, before: Records, input: BeginInput, random: Random, begun: int,
                         records: Records, provider: Provider, redirect: string, now: int)
    requires Faithful(codec)
    requires BeginStep(config, codec, before, input, random, begun).1.Ok?
    requires config.redirectOf(input.redirect).Some?
    requires var record := NewRecord(config, input, random, begun);
             record.stateId in records && records[record.stateId] == record
    ensures var request := BeginStep(config, codec, before, input, random, begun).1.value;
            var (after, result) := ConsumeStep(config, codec, records, provider, request.state, redirect, now);
            && (result.Ok? <==>
                  && 20 <= |request.state| <= 4000
                  && provider == input.provider
                  && config.redirectOf(redirect) == config.redirectOf(input.redirect)
                  && Seconds(now) < Seconds(begun + config.ttl))
            && (result.Ok? ==>
                  && result.value == Context(input.tenant, input.subject, input.provider, config.redirectOf(input.redirect).value,
                                             request.codeVerifier, B64Url(random.nonce), input.connection, input.revision,
                                             RequestedScopes(input.scopes))
                  && after == records - {B64Url(random.state)})
  {
    AcceptedBegin(config, codec, before, input, random, begun);
    ConsumeOwnState(config, codec, NewRecord(config, input, random, begun), records, provider, redirect, now);
  }

  /** With a 32-byte MAC, the length check refuses exactly the states of more than 2967 payload bytes. */
  lemma StateLengthPasses(codec: Codec<Claims>, claims: Claims)
    requires forall s :: |codec.mac(s)| == 32
    ensures 20 <= |SignState(codec, claims)| <= 4000 <==> |codec.dump(claims)| <= 2967
  {
    SignedLength(codec, claims);
  }

  /** A state can be used from the moment it is issued until one second before its expiry, and never from then on. */
  lemma UsableWindow(config: Config, begun: int, now: int)
    ensures 0 <= now && now + 1_000_000 <= begun + config.ttl ==> Seconds(now) < Seconds(begun + config.ttl)
    ensures now >= begun + config.ttl ==> Seconds(now) >= Seconds(begun + config.ttl)
  {
    SecondsOrder(begun + config.ttl, now);
  }

  // ---- runs ----

  datatype Event =
    | Begin(input: BeginInput, random: Random, now: int)
    | Consume(provider: Provider, state: string, redirect: string, now: int)

  function Step(config: Config, codec: Codec<Claims>, records: Records, e: Event): Records {
    match e
    case Begin(input, random, now) => BeginStep(config, codec, records, input, random, now).0
    case Consume(provider, state, redirect, now) => ConsumeStep(config, codec, records, provider, state, redirect, now).0
  }

  function Run(config: Config, codec: Codec<Claims>, es: seq<Event>): Records {
    if es == [] then map[] else Step(config, codec, Run(config, codec, es[..|es| - 1]), es[|es| - 1])
  }

  /** The event saves a record under `id`. */
  predicate Saves(config: Config, e: Event, id: string) {
    e.Begin? && BeginErrorOf(config, e.input).None? && B64Url(e.random.state) == id
  }

  /** The context a consumption in the given store yields under `id`, if it does. */
  function Yielded(config: Config, codec: Codec<Claims>, records: Records, e: Event, id: string): Option<Context> {
    if !e.Consume? then None else
      var claims := ReadState(codec, e.provider, e.state, e.now);
      var result := ConsumeStep(config, codec, records, e.provider, e.state, e.redirect, e.now).1;
      if claims.Ok? && claims.value.sid == Some(id) && result.Ok? then Some(result.value) else None
  }

  function Saver(config: Config, id: string): Event -> bool {
    e => Saves(config, e, id)
  }

  function Count(p: Event -> bool, es: seq<Event>): nat {
    if es == [] then 0 else Count(p, es[..|es| - 1]) + if p(es[|es| - 1]) then 1 else 0
  }

  function SaveCount(config: Config, es: seq<Event>, id: string): nat {
    Count(Saver(config, id), es)
  }

  function YieldCount(config: Config, codec: Codec<Claims>, es: seq<Event>, id: string): nat {
    if es == [] then 0 else
      var n := |es| - 1;
      YieldCount(config, codec, es[..n], id) + if Yielded(config, codec, Run(config, codec, es[..n]), es[n], id).Some? then 1 else 0
  }

  /** No two authorizations of the run drew the same state bytes. */
  predicate FreshStates(config: Config, es: seq<Event>) {
    forall i, j | 0 <= i < j < |es| && es[i].Begin? && es[j].Begin? :: es[i].random.state != es[j].random.state
  }

  /** Every yield uses up one save: whatever states are presented, a state id never yields more often than it was saved. */
  lemma {:induction false} YieldsNeverExceedSaves(config: Config, codec: Codec<Claims>, es: seq<Event>, id: string)
    ensures YieldCount(config, codec, es, id) + (if id in Run(config, codec, es) then 1 else 0) <= SaveCount(config, es, id)
  {
    if es == [] {
    } else {
      YieldsNeverExceedSaves(config, codec, es[..|es| - 1], id);
    }
  }

  lemma {:induction false} CountAtMostOne(p: Event -> bool, es: seq<Event>)
    requires forall i, j | 0 <= i < j < |es| :: !(p(es[i]) && p(es[j]))
    ensures Count(p, es) <= 1
    ensures Count(p, es) == 1 ==> exists i :: 0 <= i < |es| && p(es[i])
  {
    if es == [] {
    } else {
      var init := es[..|es| - 1];
      assert forall i | 0 <= i < |init| :: init[i] == es[i];
      CountAtMostOne(p, init);
    }
  }

  lemma FreshSavesAreSingle(config: Config, es: seq<Event>, id: string)
    requires FreshStates(config, es)
    ensures SaveCount(config, es, id) <= 1
  {
    var saves := Saver(config, id);
    forall i, j | 0 <= i < j < |es|
      ensures !(saves(es[i]) && saves(es[j]))
    {
      if es[i].Begin? && es[j].Begin? {
        TokensAreInjective(es[i].random.state, es[j].random.state);
      }
    }
    CountAtMostOne(saves, es);
  }

  /** Single use: with fresh state bytes no state id is ever accepted twice, whoever presents what. */
  lemma SingleUse(config: Config, codec: Codec<Claims>, es: seq<Event>, id: string)
    requires FreshStates(config, es)
    ensures YieldCount(config, codec, es, id) <= 1
  {
    YieldsNeverExceedSaves(config, codec, es, id);
    FreshSavesAreSingle(config, es, id);
  }

  predicate IsLast(p: Event -> bool, es: seq<Event>, i: nat) {
    i < |es| && p(es[i]) && forall j | i < j < |es| :: !p(es[j])
  }

  /** Event `i` is the latest of the run to save a record under `id`. */
  predicate LatestSave(config: Config, es: seq<Event>, i: nat, id: string) {
    IsLast(Saver(config, id), es, i)
  }

  function SavedRecord(config: Config, e: Event): Record
    requires e.Begin? && config.redirectOf(e.input.redirect).Some?
  {
    NewRecord(config, e.input, e.random, e.now)
  }

  lemma StepOnRecord(config: Config, codec: Codec<Claims>, records: Records, e: Event, id: string)
    ensures id in Step(config, codec, records, e) ==> id in records || Saves(config, e, id)
    ensures Saves(config, e, id) ==> id in Step(config, codec, records, e) && config.redirectOf(e.input.redirect).Some?
                                     && Step(config, codec, records, e)[id] == SavedRecord(config, e)
    ensures id in Step(config, codec, records, e) && !Saves(config, e, id) ==> Step(config, codec, records, e)[id] == records[id]
  {
  }

  lemma LastExtends(p: Event -> bool, es: seq<Event>, i: nat)
    requires es != [] && IsLast(p, es[..|es| - 1], i) && !p(es[|es| - 1])
    ensures IsLast(p, es, i) && es[i] == es[..|es| - 1][i]
  {
    forall j | i < j < |es|
      ensures !p(es[j])
    {
      if j < |es| - 1 {
        assert es[..|es| - 1][j] == es[j];
      }
    }
  }

  lemma RunUnfolds(config: Config, codec: Codec<Claims>, es: seq<Event>)
    requires es != []
    ensures Run(config, codec, es) == Step(config, codec, Run(config, codec, es[..|es| - 1]), es[|es| - 1])
  {
  }

  lemma NothingStoredAtFirst(config: Config, codec: Codec<Claims>, es: seq<Event>, id: string)
    requires id in Run(config, codec, es)
    ensures es != []
  {
  }

  /** A stored record is the one its latest save made. */
  lemma {:induction false} RecordIsLatestSave(config: Config, codec: Codec<Claims>, es: seq<Event>, id: string) returns (i: nat)
    requires id in Run(config, codec, es)
    ensures LatestSave(config, es, i, id) && config.redirectOf(es[i].input.redirect).Some?
    ensures Run(config, codec, es)[id] == SavedRecord(config, es[i])
  {
    NothingStoredAtFirst(config, codec, es, id);
    RunUnfolds(config, codec, es);
    var n := |es| - 1;
    StepOnRecord(config, codec, Run(config, codec, es[..n]), es[n], id);
    if Saves(config, es[n], id) {
      i := n;
    } else {
      i := RecordIsLatestSave(config, codec, es[..n], id);
      LastExtends(Saver(config, id), es, i);
    }
  }

  /** The event is a consumption that gets past the checks before the store and names `id`. */
  predicate Takes(codec: Codec<Claims>, e: Event, id: string) {
    e.Consume? && match ReadState(codec, e.provider, e.state, e.now)
                  case Ok(claims) => claims.sid == Some(id)
                  case Err(_) => false
  }

  function Touches(config: Config, codec: Codec<Claims>, id: string): Event -> bool {
    e => Saves(config, e, id) || Takes(codec, e, id)
  }

  /** Event `i` saves a record under `id`, and no later event of the run saves over it or takes it. */
  predicate StoredSince(config: Config, codec: Codec<Claims>, es: seq<Event>, i: nat, id: string) {
    IsLast(Touches(config, codec, id), es, i) && Saves(config, es[i], id)
  }

  lemma StoredInStep(config: Config, codec: Codec<Claims>, records: Records, e: Event, id: string)
    ensures id in Step(config, codec, records, e) <==> Saves(config, e, id) || (id in records && !Takes(codec, e, id))
  {
  }

  lemma LastInPrefix(p: Event -> bool, es: seq<Event>, i: nat)
    requires es != [] && i < |es| - 1
    ensures es[i] == es[..|es| - 1][i]
    ensures IsLast(p, es, i) <==> IsLast(p, es[..|es| - 1], i) && !p(es[|es| - 1])
  {
    var init := es[..|es| - 1];
    assert forall j | 0 <= j < |init| :: init[j] == es[j];
    if IsLast(p, init, i) && !p(es[|es| - 1]) {
      LastExtends(p, es, i);
    }
  }

  lemma StoredSinceInPrefix(config: Config, codec: Codec<Claims>, es: seq<Event>, i: nat, id: string)
    requires es != [] && i < |es| - 1
    ensures StoredSince(config, codec, es, i, id)
            <==> StoredSince(config, codec, es[..|es| - 1], i, id) && !Touches(config, codec, id)(es[|es| - 1])
  {
    LastInPrefix(Touches(config, codec, id), es, i);
  }

  lemma StoredAtLast(config: Config, codec: Codec<Claims>, es: seq<Event>, id: string)
    requires es != []
    ensures StoredSince(config, codec, es, |es| - 1, id) <==> Saves(config, es[|es| - 1], id)
  {
  }

  lemma {:induction false} FindSave(config: Config, codec: Codec<Claims>, es: seq<Event>, id: string) returns (i: nat)
    requires id in Run(config, codec, es)
    ensures StoredSince(config, codec, es, i, id)
  {
    NothingStoredAtFirst(config, codec, es, id);
    RunUnfolds(config, codec, es);
    var n := |es| - 1;
    StoredInStep(config, codec, Run(config, codec, es[..n]), es[n], id);
    if Saves(config, es[n], id) {
      i := n;
      StoredAtLast(config, codec, es, id);
    } else {
      i := FindSave(config, codec, es[..n], id);
      StoredSinceInPrefix(config, codec, es, i, id);
    }
  }

  lemma {:induction false} SavedIsStored(config: Config, codec: Codec<Claims>, es: seq<Event>, i: nat, id: string)
    requires i < |es| && StoredSince(config, codec, es, i, id)
    ensures id in Run(config, codec, es)
  {
    RunUnfolds(config, codec, es);
    var n := |es| - 1;
    StoredInStep(config, codec, Run(config, codec, es[..n]), es[n], id);
    if i == n {
      StoredAtLast(config, codec, es, id);
    } else {
      StoredSinceInPrefix(config, codec, es, i, id);
      SavedIsStored(config, codec, es[..n], i, id);
    }
  }

  /**
    A record is in the store exactly when some event saved it and no later one saved over it or presented an
    unexpired state of its id: nothing else ever removes a record.
   */
  lemma StoredIff(config: Config, codec: Codec<Claims>, es: seq<Event>, id: string)
    ensures id in Run(config, codec, es) <==> exists i: nat :: i < |es| && StoredSince(config, codec, es, i, id)
  {
    if id in Run(config, codec, es) {
      var i := FindSave(config, codec, es, id);
    } else {
      forall i: nat | i < |es|
        ensures !StoredSince(config, codec, es, i, id)
      {
        if StoredSince(config, codec, es, i, id) {
          SavedIsStored(config, codec, es, i, id);
        }
      }
    }
  }

  lemma SameLastSave(config: Config, codec: Codec<Claims>, es: seq<Event>, i: nat, k: nat, id: string)
    requires StoredSince(config, codec, es, i, id) && LatestSave(config, es, k, id)
    ensures i == k
  {
    var saves, touches := Saver(config, id), Touches(config, codec, id);
    assert saves(es[i]) && saves(es[k]) && touches(es[k]);
  }

  /** What is stored is the record of that save. */
  lemma StoredRecord(config: Config, codec: Codec<Claims>, es: seq<Event>, i: nat, id: string)
    requires StoredSince(config, codec, es, i, id)
    ensures id in Run(config, codec, es) && config.redirectOf(es[i].input.redirect).Some?
    ensures Run(config, codec, es)[id] == SavedRecord(config, es[i])
  {
    StoredIff(config, codec, es, id);
    var k := RecordIsLatestSave(config, codec, es, id);
    SameLastSave(config, codec, es, i, k, id);
  }

  /**
    In any run: the state that an accepted `begin` returned, presented after events none of which saved under its
    id or took it, is consumed exactly under the conditions of BeginThenConsume, with the fields given.
   */
  lemma BegunStateInRun(config: Config, codec: Codec<Claims>, es: seq<Event>, i: nat, provider: Provider, redirect: string, now: int)
    requires Faithful(codec) && i < |es| && es[i].Begin?
    requires BeginStep(config, codec, Run(config, codec, es[..i]), es[i].input, es[i].random, es[i].now).1.Ok?
    requires StoredSince(config, codec, es, i, B64Url(es[i].random.state))
    ensures var input := es[i].input;
            var request := BeginStep(config, codec, Run(config, codec, es[..i]), input, es[i].random, es[i].now).1.value;
            var result := ConsumeStep(config, codec, Run(config, codec, es), provider, request.state, redirect, now).1;
            && config.redirectOf(input.redirect).Some?
            && (result.Ok? <==> 20 <= |request.state| <= 4000 && provider == input.provider
                                && config.redirectOf(redirect) == config.redirectOf(input.redirect)
                                && Seconds(now) < Seconds(es[i].now + config.ttl))
            && (result.Ok? ==> result.value == ContextOf(NewRecord(config, input, es[i].random, es[i].now)))
  {
    StoredRecord(config, codec, es, i, B64Url(es[i].random.state));
    AcceptedBegin(config, codec, Run(config, codec, es[..i]), es[i].input, es[i].random, es[i].now);
    ConsumeOwnState(config, codec, SavedRecord(config, es[i]), Run(config, codec, es), provider, redirect, now);
  }

  lemma YieldedNeeds(config: Config, codec: Codec<Claims>, records: Records, e: Event, id: string)
    requires Yielded(config, codec, records, e, id).Some?
    ensures e.Consume? && id in records && Yielded(config, codec, records, e, id).value == ContextOf(records[id])
    ensures records[id].provider == e.provider && config.redirectOf(e.redirect) == Some(records[id].redirect)
    ensures e.now < records[id].expiresAt
  {
  }

  /**
    Whatever a callback presents in any run, a context it obtains carries exactly the fields of the latest
    authorization begun under that state id, which is neither expired nor begun for another provider or redirect.
   */
  lemma YieldedIsWhatWasBegun(config: Config, codec: Codec<Claims>, es: seq<Event>, k: nat, id: string)
    requires k < |es| && Yielded(config, codec, Run(config, codec, es[..k]), es[k], id).Some?
    ensures exists i: nat :: LatestSave(config, es[..k], i, id) && config.redirectOf(es[i].input.redirect).Some?
              && Yielded(config, codec, Run(config, codec, es[..k]), es[k], id).value == ContextOf(SavedRecord(config, es[i]))
              && es[k].Consume? && es[k].provider == es[i].input.provider
              && config.redirectOf(es[k].redirect) == config.redirectOf(es[i].input.redirect)
              && es[k].now < es[i].now + config.ttl
  {
    var before := es[..k];
    YieldedNeeds(config, codec, Run(config, codec, before), es[k], id);
    var i := RecordIsLatestSave(config, codec, before, id);
    assert es[i] == before[i];
  }

  // ---- exactly what is accepted ----

  /** Whole seconds, cut off toward zero. */
  lemma SecondsCutOff(instant: int)
    ensures instant >= 0 ==> 0 <= 1_000_000 * Seconds(instant) <= instant < 1_000_000 * Seconds(instant) + 1_000_000
    ensures instant <= 0 ==> 1_000_000 * Seconds(instant) - 1_000_000 < instant <= 1_000_000 * Seconds(instant) <= 0
  {
  }

  /** The claims are signed for in the state, for that provider, and have not expired in whole seconds. */
  ghost predicate Presents(codec: Codec<Claims>, provider: Provider, state: string, now: int, claims: Claims) {
    && 20 <= |state| <= 4000
    && (exists encoded, signature :: IsSigned(codec, state, encoded, signature, claims))
    && claims.provider == Some(provider) && claims.sid.Some? && claims.exp.Some? && Seconds(now) < claims.exp.value
  }

  lemma ReadStateIff(codec: Codec<Claims>, provider: Provider, state: string, now: int, claims: Claims)
    ensures ReadState(codec, provider, state, now) == Ok(claims) <==> Presents(codec, provider, state, now, claims)
  {
    VerifiedIff(codec, state, claims);
  }

  /** A record is taken exactly by a consumption that presents signed, unexpired claims naming it; no other state touches the store. */
  lemma TakesIff(codec: Codec<Claims>, e: Event, id: string)
    ensures Takes(codec, e, id)
            <==> e.Consume? && exists claims :: Presents(codec, e.provider, e.state, e.now, claims) && claims.sid == Some(id)
  {
    if e.Consume? {
      forall claims
        ensures ReadState(codec, e.provider, e.state, e.now) == Ok(claims) <==> Presents(codec, e.provider, e.state, e.now, claims)
      {
        ReadStateIff(codec, e.provider, e.state, e.now, claims);
      }
    }
  }

  /** A state that presents nothing is refused and changes nothing. */
  lemma UnsignedIsRefused(config: Config, codec: Codec<Claims>, records: Records, provider: Provider, state: string, redirect: string, now: int)
    requires forall claims :: !Presents(codec, provider, state, now, claims)
    ensures ConsumeStep(config, codec, records, provider, state, redirect, now).0 == records
    ensures ConsumeStep(config, codec, records, provider, state, redirect, now).1.Err?
  {
    var read := ReadState(codec, provider, state, now);
    if read.Ok? {
      ReadStateIff(codec, provider, state, now, read.value);
    }
  }

  /** The claim agrees with what the record binds: nothing claimed for nothing bound, or the bound value. */
  predicate Agrees<T(==)>(claim: Claim<T>, bound: Option<T>) {
    match claim
    case Absent => bound == None
    case Malformed => false
    case Given(value) => bound == Some(value)
  }

  lemma CheckRecordIff(config: Config, record: Record, claims: Claims, provider: Provider, redirect: string, now: int, context: Context)
    ensures CheckRecord(config, record, claims, provider, redirect, now) == Ok(context)
            <==> && Agrees(claims.cid, record.connection) && Agrees(claims.rev, record.revision)
                 && (claims.rev.Given? ==> claims.rev.value >= 1)
                 && record.provider == provider && config.redirectOf(redirect) == Some(record.redirect) && now < record.expiresAt
                 && context == Context(record.tenant, record.subject, record.provider, record.redirect, record.codeVerifier, record.nonce,
                                       record.connection, record.revision, record.scopes)
  {
  }

  /** Exactly which consumptions succeed, for any state whatever, and with which context. */
  lemma ConsumedIff(config: Config, codec: Codec<Claims>, records: Records, provider: Provider, state: string, redirect: string, now: int,
                    context: Context)
    ensures ConsumeStep(config, codec, records, provider, state, redirect, now).1 == Ok(context)
            <==> exists claims :: && Presents(codec, provider, state, now, claims) && claims.sid.value in records
                                  && CheckRecord(config, records[claims.sid.value], claims, provider, redirect, now) == Ok(context)
  {
    forall claims
      ensures ReadState(codec, provider, state, now) == Ok(claims) <==> Presents(codec, provider, state, now, claims)
    {
      ReadStateIff(codec, provider, state, now, claims);
    }
  }

  // ---- exactly which authorizations begin ----

  predicate AccountOk(input: BeginInput) {
    && Strip(input.tenant) != "" && |input.tenant| <= 200 && Strip(input.subject) != "" && |input.subject| <= 200
    && (input.revision.Some? ==> input.revision.value >= 1 && input.connection.Some?)
  }

  /** Client, endpoint and redirect are valid and on their lists; a redirect must be listed, the others only where a list exists. */
  predicate TargetsOk(config: Config, input: BeginInput) {
    && Strip(input.client) != "" && |input.client| <= 512
    && (input.provider in config.clients ==> input.client in config.clients[input.provider])
    && config.endpointOf(input.endpoint).Some?
    && (input.provider in config.endpoints ==> config.endpointOf(input.endpoint).value in config.endpoints[input.provider])
    && config.redirectOf(input.redirect).Some?
    && input.provider in config.redirects && config.redirectOf(input.redirect).value in config.redirects[input.provider]
  }

  /** The scopes are given, are acceptable text, and where a list exists are on it. */
  predicate ScopesOk(config: Config, input: BeginInput) {
    && input.scopes != []
    && (forall s | s in input.scopes :: Strip(s) != "" && |s| <= 200 && forall c | c in s :: c as int >= 33 && c as int != 127)
    && (input.provider in config.scopes ==> forall s | s in input.scopes :: Strip(s) in config.scopes[input.provider])
  }

  /** Where scopes are required: at most 40 different ones, none of them a write scope, and the required ones among them. */
  predicate GrantOk(config: Config, input: BeginInput) {
    input.provider in config.required ==>
      && |RequestedScopes(input.scopes)| <= 40
      && (input.provider in config.markers ==>
            forall s, m | s in input.scopes && m in config.markers[input.provider] :: !StartsWith(config.fold(Strip(s)), m))
      && forall r | r in config.required[input.provider] :: exists s :: s in input.scopes && config.fold(Strip(s)) == r
  }

  lemma RequestedAre(scopes: seq<string>, value: string)
    ensures value in RequestedScopes(scopes) <==> exists s :: s in scopes && Strip(s) == value
  {
    var stripped := seq(|scopes|, i requires 0 <= i < |scopes| => Strip(scopes[i]));
    Scopes.DistinctMembers(stripped);
    assert forall i | 0 <= i < |scopes| :: stripped[i] == Strip(scopes[i]) && scopes[i] in scopes;
    if s :| s in scopes && Strip(s) == value {
      var i :| 0 <= i < |scopes| && scopes[i] == s;
      assert stripped[i] in stripped;
    }
  }

  lemma RequiredIff(config: Config, input: BeginInput, requested: seq<string>)
    requires input.provider in config.required
    requires forall value :: value in requested <==> exists s :: s in input.scopes && Strip(s) == value
    ensures config.required[input.provider] <= Scopes.Folded(config.fold, requested)
            <==> forall r | r in config.required[input.provider] :: exists s :: s in input.scopes && config.fold(Strip(s)) == r
  {
    forall r
      ensures r in Scopes.Folded(config.fold, requested) <==> exists s :: s in input.scopes && config.fold(Strip(s)) == r
    {
      if s :| s in input.scopes && config.fold(Strip(s)) == r {
        assert Strip(s) in requested;
      }
    }
  }

  lemma GrantIff(config: Config, input: BeginInput)
    ensures ReadOnlyError(config, input.provider, RequestedScopes(input.scopes)) == None <==> GrantOk(config, input)
  {
    var requested := RequestedScopes(input.scopes);
    forall value
      ensures value in requested <==> exists s :: s in input.scopes && Strip(s) == value
    {
      RequestedAre(input.scopes, value);
    }
    if input.provider in config.required {
      assert config.required[input.provider] <= Scopes.Folded(config.fold, requested)
        <==> forall r | r in config.required[input.provider] :: exists s :: s in input.scopes && config.fold(Strip(s)) == r by {
        RequiredIff(config, input, requested);
      }
    }
  }

  /** Exactly which requests get past the checks of `begin`: account, targets, scopes and grant are in order. */
  lemma BeginAcceptedIff(config: Config, input: BeginInput)
    ensures BeginErrorOf(config, input) == None
            <==> AccountOk(input) && TargetsOk(config, input) && ScopesOk(config, input) && GrantOk(config, input)
  {
    GrantIff(config, input);
    forall value
      ensures value in RequestedScopes(input.scopes) <==> exists s :: s in input.scopes && Strip(s) == value
    {
      RequestedAre(input.scopes, value);
    }
  }

  /** A request past the checks is answered exactly if no extra parameter is one of the eight own ones, empty or too long. */
  lemma BeginAnsweredIff(config: Config, codec: Codec<Claims>, records: Records, input: BeginInput, random: Random, now: int)
    ensures BeginStep(config, codec, records, input, random, now).1.Ok?
            <==> BeginErrorOf(config, input) == None
                 && forall k | k in input.extra ::
                      && k !in ["client_id", "redirect_uri", "response_type", "scope", "state", "code_challenge", "code_challenge_method", "nonce"]
                      && 1 <= |k| <= 100 && |input.extra[k]| <= 1000
  {
  }
}
