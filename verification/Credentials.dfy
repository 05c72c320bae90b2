/**
  The credential broker: a credential row is loaded in one transaction and committed in another, with a
  network call between, so that any number of refreshers and revokers can hold stale snapshots.

  Instants are seconds.  A token's lifetime is counted from the clock of the commit: the moment at which the reply
  is validated, from which the code counts, and that of the commit are taken as one.
 */
module Credentials {
  import opened Wrappers
  import opened Scopes

  datatype Status = Active | Revoked

  /** The decrypted secret column. */
  datatype Secret = Tokens(access: string, refresh: string) | Tombstone

  datatype Identity = Identity(email: string, accountId: string, tenantId: Option<string>)

  datatype Credential = Credential(
    tenant: string, subject: string, provider: Provider, identity: Identity, scopes: seq<string>,
    secret: Secret, status: Status, version: int, expiresAt: int, createdAt: int,
    rotatedAt: Option<int>, revokedAt: Option<int>, revocationId: Option<string>)

  datatype AuditKind = Created | Refreshed(version: int) | RevokedEvent | Resolved(atVersion: int)

  datatype Audit = Audit(tenant: string, subject: string, ref: string, kind: AuditKind, occurredAt: int)

  datatype Store = Store(credentials: map<string, Credential>, audits: seq<Audit>)

  /** What a load returns: the row as it was at that moment. */
  datatype Record = Record(ref: string, row: Credential)

  datatype LoadError = NotFound | AlreadyRevoked

  const EMPTY: Store := Store(map[], [])

  // ---- the transactions, as functions on the store ----

  function CreateStep(s: Store, ref: string, row: Credential, now: int): (Store, bool) {
    if ref in s.credentials then (s, false)
    else (Store(s.credentials[ref := row], s.audits + [Audit(row.tenant, row.subject, ref, Created, now)]), true)
  }

  function LoadStep(s: Store, ref: string, tenant: string, subject: string): Result<Record, LoadError> {
    if ref !in s.credentials || s.credentials[ref].tenant != tenant || s.credentials[ref].subject != subject then Err(NotFound)
    else if s.credentials[ref].status != Active then Err(AlreadyRevoked)
    else Ok(Record(ref, s.credentials[ref]))
  }

  /** The row an update `WHERE credential_ref=? AND tenant_id=? AND subject_id=? AND status='ACTIVE' AND version=?` finds. */
  predicate Matches(s: Store, r: Record) {
    && r.ref in s.credentials
    && s.credentials[r.ref].tenant == r.row.tenant && s.credentials[r.ref].subject == r.row.subject
    && s.credentials[r.ref].status == Active && s.credentials[r.ref].version == r.row.version
  }

  function RotateStep(s: Store, r: Record, grant: TokenGrant, now: int): (Store, bool) {
    if !Matches(s, r) then (s, false)
    else
      var row := s.credentials[r.ref];
      var next := r.row.version + 1;
      (Store(s.credentials[r.ref := row.(secret := Tokens(grant.access, grant.refresh), scopes := grant.scopes, version := next,
                                         expiresAt := now + grant.seconds, rotatedAt := Some(now))],
             s.audits + [Audit(r.row.tenant, r.row.subject, r.ref, Refreshed(next), now)]), true)
  }

  function RevokeStep(s: Store, r: Record, revocationId: string, now: int): (Store, bool) {
    if !Matches(s, r) then (s, false)
    else
      var row := s.credentials[r.ref];
      (Store(s.credentials[r.ref := row.(secret := Tombstone, status := Revoked, version := row.version + 1,
                                         revokedAt := Some(now), revocationId := Some(revocationId))],
             s.audits + [Audit(r.row.tenant, r.row.subject, r.ref, RevokedEvent, now)]), true)
  }

  /** The broker: the two tables, which every commit updates together. */
  class CredentialBroker {
    var credentials: map<string, Credential>
    var audits: seq<Audit>

    constructor ()
      ensures Contents() == EMPTY
    {
      credentials, audits := map[], [];
    }

    function Contents(): Store
      reads this
    {
      Store(credentials, audits)
    }

    method StoreCredential(ref: string, row: Credential, now: int) returns (created: bool)
      modifies this
      ensures (Contents(), created) == CreateStep(old(Contents()), ref, row, now)
    {
      if ref in credentials {
        return false;
      }
      credentials := credentials[ref := row];
      audits := audits + [Audit(row.tenant, row.subject, ref, Created, now)];
      created := true;
    }

    method LoadActive(ref: string, tenant: string, subject: string) returns (r: Result<Record, LoadError>)
      ensures r == LoadStep(Contents(), ref, tenant, subject)
    {
      if ref !in credentials {
        return Err(NotFound);
      }
      var row := credentials[ref];
      if row.tenant != tenant || row.subject != subject {
        return Err(NotFound);
      }
      if row.status != Active {
        return Err(AlreadyRevoked);
      }
      r := Ok(Record(ref, row));
    }

    method RotateCredential(r: Record, grant: TokenGrant, now: int) returns (updated: bool)
      modifies this
      ensures (Contents(), updated) == RotateStep(old(Contents()), r, grant, now)
    {
      var nextVersion := r.row.version + 1;
      updated := Matches(Contents(), r);
      if updated {
        credentials := credentials[r.ref := credentials[r.ref].(
          secret := Tokens(grant.access, grant.refresh), scopes := grant.scopes, version := nextVersion,
          expiresAt := now + grant.seconds, rotatedAt := Some(now))];
        audits := audits + [Audit(r.row.tenant, r.row.subject, r.ref, Refreshed(nextVersion), now)];
      }
    }

    method RevokeCredential(r: Record, revocationId: string, now: int) returns (updated: bool)
      modifies this
      ensures (Contents(), updated) == RevokeStep(old(Contents()), r, revocationId, now)
    {
      updated := Matches(Contents(), r);
      if updated {
        credentials := credentials[r.ref := credentials[r.ref].(
          secret := Tombstone, status := Revoked, version := credentials[r.ref].version + 1,
          revokedAt := Some(now), revocationId := Some(revocationId))];
        audits := audits + [Audit(r.row.tenant, r.row.subject, r.ref, RevokedEvent, now)];
      }
    }
  }

  // ---- runs of many clients ----

  /** The store together with every snapshot any client has ever loaded. */
  datatype System = System(store: Store, snapshots: set<Record>)

  /** `Refresh` and `Revoke` commit a snapshot; `reply` is whatever the provider answered in between. */
  datatype Event =
    | Exchange(ref: string, tenant: string, subject: string, provider: Provider, identity: Identity,
               requested: seq<string>, registered: seq<string>, reply: TokenReply, now: int)
    | Load(ref: string, tenant: string, subject: string)
    | Refresh(record: Record, reply: TokenReply, now: int)
    | Revoke(record: Record, revocationId: string, now: int)
    | Resolve(record: Record, now: int)

  function NewRow(e: Event, grant: TokenGrant): Credential
    requires e.Exchange?
  {
    Credential(e.tenant, e.subject, e.provider, e.identity, grant.scopes, Tokens(grant.access, grant.refresh), Active, 1,
               e.now + grant.seconds, e.now, None, None, None)
  }

  /** The refresh token a snapshot carries; a tombstone has none. */
  function RefreshToken(secret: Secret): string {
    if secret.Tokens? then secret.refresh else ""
  }

  function RefreshGrant(fold: string -> string, r: Record, reply: TokenReply): Option<TokenGrant> {
    if !BoundedToken(RefreshToken(r.row.secret)) then None
    else
      match ValidateTokenResponse(fold, r.row.provider, reply, r.row.scopes, Some(RefreshToken(r.row.secret)))
      case Ok(grant) => Some(grant)
      case Err(_) => None
  }

  /** The store after an event, and whether the event committed a new version of a credential. */
  function Commit(fold: string -> string, s: System, e: Event): (Store, bool) {
    match e
    case Exchange(_, _, _, provider, _, requested, registered, reply, now) =>
      (if SameScopes(fold, provider, requested, registered) != Ok(true) then (s.store, false)
       else
         match ValidateTokenResponse(fold, provider, reply, requested, None)
         case Ok(grant) => CreateStep(s.store, e.ref, NewRow(e, grant), now)
         case Err(_) => (s.store, false))
    case Load(_, _, _) => (s.store, false)
    case Refresh(record, reply, now) =>
      (if record !in s.snapshots then (s.store, false)
       else
         match RefreshGrant(fold, record, reply)
         case Some(grant) => RotateStep(s.store, record, grant, now)
         case None => (s.store, false))
    case Revoke(record, revocationId, now) =>
      if record !in s.snapshots then (s.store, false) else RevokeStep(s.store, record, revocationId, now)
    case Resolve(record, now) =>
      (if record !in s.snapshots then s.store
       else s.store.(audits := s.store.audits + [Audit(record.row.tenant, record.row.subject, record.ref, Resolved(record.row.version), now)]), false)
  }

  function Step(fold: string -> string, s: System, e: Event): System {
    var store := Commit(fold, s, e).0;
    var loaded := if e.Load? then LoadStep(s.store, e.ref, e.tenant, e.subject) else Err(NotFound);
    System(store, s.snapshots + if loaded.Ok? then {loaded.value} else {})
  }

  function RunFrom(fold: string -> string, s: System, es: seq<Event>): System {
    if es == [] then s else Step(fold, RunFrom(fold, s, es[..|es| - 1]), es[|es| - 1])
  }

  function Run(fold: string -> string, es: seq<Event>): System {
    RunFrom(fold, System(EMPTY, {}), es)
  }

  // ---- versions and audits ----

  /** How many audits of `ref` are of the kinds that accompany a new version, or only of the last one. */
  function Audited(audits: seq<Audit>, ref: string, refreshes: bool): nat {
    if audits == [] then 0 else
      var a := audits[|audits| - 1];
      Audited(audits[..|audits| - 1], ref, refreshes)
      + if a.ref == ref && (if refreshes then a.kind.Refreshed? else a.kind.RevokedEvent?) then 1 else 0
  }

  lemma AuditedAppend(audits: seq<Audit>, a: Audit, ref: string, refreshes: bool)
    ensures Audited(audits + [a], ref, refreshes)
         == Audited(audits, ref, refreshes)
            + if a.ref == ref && (if refreshes then a.kind.Refreshed? else a.kind.RevokedEvent?) then 1 else 0
  {
    assert (audits + [a])[..|audits|] == audits;
  }

  ghost predicate VersionsAudited(s: Store, ref: string) {
    var refreshed, revoked := Audited(s.audits, ref, true), Audited(s.audits, ref, false);
    if ref !in s.credentials then refreshed == 0 && revoked == 0
    else
      && s.credentials[ref].version == 1 + refreshed + revoked
      && revoked == (if s.credentials[ref].status == Revoked then 1 else 0)
      && (s.credentials[ref].status == Revoked <==> s.credentials[ref].secret == Tombstone)
  }

  /** A snapshot is out of date, or it is exactly the current, active row. */
  ghost predicate StaleOrExact(s: Store, r: Record) {
    && r.ref in s.credentials
    && (r.row.version < s.credentials[r.ref].version || (s.credentials[r.ref] == r.row && r.row.status == Active))
  }

  ghost predicate Invariant(s: System) {
    && (forall ref :: VersionsAudited(s.store, ref))
    && (forall r | r in s.snapshots :: StaleOrExact(s.store, r))
  }

  lemma StepKeepsVersions(fold: string -> string, s: System, e: Event, ref: string)
    requires VersionsAudited(s.store, ref)
    ensures VersionsAudited(Step(fold, s, e).store, ref)
  {
    var before, after := s.store, Step(fold, s, e).store;
    if |after.audits| > |before.audits| {
      var a := after.audits[|before.audits|];
      AuditedAppend(before.audits, a, ref, true);
      AuditedAppend(before.audits, a, ref, false);
    }
  }

  lemma StepKeepsSnapshot(fold: string -> string, s: System, e: Event, r: Record)
    requires StaleOrExact(s.store, r)
    ensures StaleOrExact(Step(fold, s, e).store, r)
  {
  }

  lemma LoadedIsExact(fold: string -> string, s: System, e: Event, r: Record)
    requires r in Step(fold, s, e).snapshots && r !in s.snapshots
    ensures StaleOrExact(Step(fold, s, e).store, r)
  {
  }

  lemma StepKeepsInvariant(fold: string -> string, s: System, e: Event)
    requires Invariant(s)
    ensures Invariant(Step(fold, s, e))
  {
    forall ref
      ensures VersionsAudited(Step(fold, s, e).store, ref)
    {
      StepKeepsVersions(fold, s, e, ref);
    }
    forall r | r in Step(fold, s, e).snapshots
      ensures StaleOrExact(Step(fold, s, e).store, r)
    {
      if r in s.snapshots {
        StepKeepsSnapshot(fold, s, e, r);
      } else {
        LoadedIsExact(fold, s, e, r);
      }
    }
  }

  /**
    In every reachable state of any number of clients: a version is one plus the refreshed and revoked
    audits, a credential is tombstoned exactly when it is revoked, at most one revoke has been
    committed, and no snapshot is both current and different from the row.
   */
  lemma {:induction false} RunKeepsInvariant(fold: string -> string, es: seq<Event>)
    ensures Invariant(Run(fold, es))
  {
    if es == [] {
    } else {
      RunKeepsInvariant(fold, es[..|es| - 1]);
      StepKeepsInvariant(fold, Run(fold, es[..|es| - 1]), es[|es| - 1]);
    }
  }

  function VersionOf(s: Store, ref: string): int {
    if ref in s.credentials then s.credentials[ref].version else 0
  }

  function CommitsTo(e: Event): string {
    match e
    case Exchange(ref, _, _, _, _, _, _, _, _) => ref
    case Load(ref, _, _) => ref
    case Refresh(record, _, _) => record.ref
    case Revoke(record, _, _) => record.ref
    case Resolve(record, _) => record.ref
  }

  predicate CommitsVersion(fold: string -> string, s: System, e: Event, ref: string) {
    Commit(fold, s, e).1 && CommitsTo(e) == ref
  }

  /** The versions of `ref` in the order in which the commits of a run produced them. */
  function VersionsCommitted(fold: string -> string, es: seq<Event>, ref: string): seq<int> {
    if es == [] then [] else
      var n := |es| - 1;
      VersionsCommitted(fold, es[..n], ref)
      + if CommitsVersion(fold, Run(fold, es[..n]), es[n], ref) then [VersionOf(Run(fold, es).store, ref)] else []
  }

  lemma CommitRaisesVersion(fold: string -> string, s: System, e: Event, ref: string)
    ensures VersionOf(Step(fold, s, e).store, ref)
         == VersionOf(s.store, ref) + if CommitsVersion(fold, s, e, ref) then 1 else 0
  {
  }

  lemma RunOfSnoc(fold: string -> string, es: seq<Event>)
    requires es != []
    ensures Run(fold, es) == Step(fold, Run(fold, es[..|es| - 1]), es[|es| - 1])
  {
  }

  lemma VersionsOfSnoc(fold: string -> string, es: seq<Event>, ref: string)
    requires es != []
    ensures var n := |es| - 1;
            VersionsCommitted(fold, es, ref)
            == VersionsCommitted(fold, es[..n], ref)
               + if CommitsVersion(fold, Run(fold, es[..n]), es[n], ref) then [VersionOf(Run(fold, es).store, ref)] else []
  {
  }

  /** Each version number comes from exactly one commit, in order and without a gap. */
  lemma {:induction false} VersionsAreConsecutive(fold: string -> string, es: seq<Event>, ref: string)
    ensures var versions := VersionsCommitted(fold, es, ref);
            (forall i | 0 <= i < |versions| :: versions[i] == i + 1) && |versions| == VersionOf(Run(fold, es).store, ref)
  {
    if es == [] {
    } else {
      var n := |es| - 1;
      VersionsAreConsecutive(fold, es[..n], ref);
      VersionsOfSnoc(fold, es, ref);
      RunOfSnoc(fold, es);
      CommitRaisesVersion(fold, Run(fold, es[..n]), es[n], ref);
    }
  }

  // ---- stale snapshots ----

  lemma VersionGrows(fold: string -> string, s: System, e: Event, ref: string)
    requires ref in s.store.credentials
    ensures ref in Step(fold, s, e).store.credentials
    ensures Step(fold, s, e).store.credentials[ref].version >= s.store.credentials[ref].version
    ensures s.store.credentials[ref].status == Revoked ==> Step(fold, s, e).store.credentials[ref] == s.store.credentials[ref]
  {
  }

  /** Versions never fall, and a revoked row never changes again: no run revives it or restores its secret. */
  lemma {:induction false} RevokedIsFinal(fold: string -> string, s: System, es: seq<Event>, ref: string)
    requires ref in s.store.credentials
    ensures ref in RunFrom(fold, s, es).store.credentials
    ensures RunFrom(fold, s, es).store.credentials[ref].version >= s.store.credentials[ref].version
    ensures s.store.credentials[ref].status == Revoked ==> RunFrom(fold, s, es).store.credentials[ref] == s.store.credentials[ref]
  {
    if es == [] {
    } else {
      RevokedIsFinal(fold, s, es[..|es| - 1], ref);
      VersionGrows(fold, RunFrom(fold, s, es[..|es| - 1]), es[|es| - 1], ref);
    }
  }

  /**
    A commit outdates every snapshot of its credential that was loaded before it: whatever runs in
    between, a later refresh or revoke with any of them conflicts and changes nothing.
   */
  lemma CommitOutdatesSnapshots(fold: string -> string, s: System, e: Event, es: seq<Event>, r: Record)
    requires Invariant(s) && !e.Exchange? && Commit(fold, s, e).1 && r in s.snapshots && r.ref == CommitsTo(e)
    ensures var later := RunFrom(fold, Step(fold, s, e), es).store;
            && (forall grant, now :: RotateStep(later, r, grant, now) == (later, false))
            && (forall id, now :: RevokeStep(later, r, id, now) == (later, false))
  {
    assert StaleOrExact(s.store, r);
    RevokedIsFinal(fold, Step(fold, s, e), es, r.ref);
  }

  /** A snapshot commits exactly when the row still is the snapshot, so a refresh works on current data. */
  lemma CommitIffUnchanged(s: System, r: Record)
    requires Invariant(s) && r in s.snapshots
    ensures Matches(s.store, r) <==> s.store.credentials[r.ref] == r.row && r.row.status == Active
  {
    assert StaleOrExact(s.store, r);
  }

  // ---- the scope chain ----

  /** The stored scopes are read-only for the provider and chosen from the list first requested. */
  ghost predicate ChosenFrom(fold: string -> string, row: Credential, requested: seq<string>) {
    && ReadOnly(fold, row.provider, row.scopes)
    && (forall x | x in row.scopes :: x in requested)
    && Folded(fold, row.scopes) <= Folded(fold, requested)
  }

  ghost predicate RequestedAt(fold: string -> string, es: seq<Event>, i: nat, ref: string, row: Credential) {
    && i < |es| && es[i].Exchange? && es[i].ref == ref && Commit(fold, Run(fold, es[..i]), es[i]).1
    && ChosenFrom(fold, row, es[i].requested)
  }

  lemma ScopesShrinkInStep(fold: string -> string, s: System, e: Event, ref: string)
    requires Invariant(s) && ref in s.store.credentials
    requires ReadOnly(fold, s.store.credentials[ref].provider, s.store.credentials[ref].scopes)
    ensures ref in Step(fold, s, e).store.credentials
    ensures var old', new' := s.store.credentials[ref], Step(fold, s, e).store.credentials[ref];
            new'.provider == old'.provider && ChosenFrom(fold, new', old'.scopes)
  {
    if e.Refresh? && e.record in s.snapshots && e.record.ref == ref && Commit(fold, s, e).1 {
      CommitIffUnchanged(s, e.record);
      GrantIsReadOnlySelection(fold, e.record.row.provider, e.reply, e.record.row.scopes,
                               Some(RefreshToken(e.record.row.secret)));
    }
  }

  /** A credential that appears in a step was committed by an exchange. */
  lemma NewCredentialIsExchanged(fold: string -> string, s: System, e: Event, ref: string) returns (grant: TokenGrant)
    requires ref in Step(fold, s, e).store.credentials && ref !in s.store.credentials
    ensures e.Exchange? && e.ref == ref && Commit(fold, s, e).1
    ensures ValidateTokenResponse(fold, e.provider, e.reply, e.requested, None) == Ok(grant)
    ensures Step(fold, s, e).store.credentials[ref] == NewRow(e, grant)
  {
    grant := ValidateTokenResponse(fold, e.provider, e.reply, e.requested, None).value;
  }

  /** And has the scopes granted of its request. */
  lemma NewRowIsChosen(fold: string -> string, e: Event, grant: TokenGrant)
    requires e.Exchange? && ValidateTokenResponse(fold, e.provider, e.reply, e.requested, None) == Ok(grant)
    ensures ChosenFrom(fold, NewRow(e, grant), e.requested)
  {
    GrantIsReadOnlySelection(fold, e.provider, e.reply, e.requested, None);
  }

  lemma RequestStays(fold: string -> string, es: seq<Event>, n: nat, i: nat, ref: string, row: Credential, next: Credential)
    requires n <= |es| && RequestedAt(fold, es[..n], i, ref, row)
    requires next.provider == row.provider && ChosenFrom(fold, next, row.scopes)
    ensures RequestedAt(fold, es, i, ref, next)
  {
    assert es[..n][..i] == es[..i];
  }

  /**
    The scope chain: in every reachable state the scopes of every credential are read-only and a selection
    from those requested in the one exchange that created it.
   */
  lemma {:induction false} ScopeChain(fold: string -> string, es: seq<Event>, ref: string)
    requires ref in Run(fold, es).store.credentials
    ensures exists i: nat :: RequestedAt(fold, es, i, ref, Run(fold, es).store.credentials[ref])
  {
    assert es != [];
    var n := |es| - 1;
    RunOfSnoc(fold, es);
    var before := Run(fold, es[..n]);
    var row := Run(fold, es).store.credentials[ref];
    if ref in before.store.credentials {
      ScopeChain(fold, es[..n], ref);
      var old' := before.store.credentials[ref];
      var i: nat :| RequestedAt(fold, es[..n], i, ref, old');
      RunKeepsInvariant(fold, es[..n]);
      ScopesShrinkInStep(fold, before, es[n], ref);
      RequestStays(fold, es, n, i, ref, old', row);
    } else {
      var grant := NewCredentialIsExchanged(fold, before, es[n], ref);
      NewRowIsChosen(fold, es[n], grant);
      assert RequestedAt(fold, es, n, ref, row);
    }
  }

  /** Along any run scopes only shrink. */
  lemma {:induction false} ScopesOnlyShrink(fold: string -> string, s: System, es: seq<Event>, ref: string)
    requires Invariant(s) && ref in s.store.credentials
    requires ReadOnly(fold, s.store.credentials[ref].provider, s.store.credentials[ref].scopes)
    ensures ref in RunFrom(fold, s, es).store.credentials && Invariant(RunFrom(fold, s, es))
    ensures var old', new' := s.store.credentials[ref], RunFrom(fold, s, es).store.credentials[ref];
            new'.provider == old'.provider && ChosenFrom(fold, new', old'.scopes)
  {
    if es == [] {
    } else {
      var init := RunFrom(fold, s, es[..|es| - 1]);
      ScopesOnlyShrink(fold, s, es[..|es| - 1], ref);
      ScopesShrinkInStep(fold, init, es[|es| - 1], ref);
      StepKeepsInvariant(fold, init, es[|es| - 1]);
    }
  }

  // ---- who may load a credential ----

  /** A load yields exactly the stored row of that reference, to its own tenant and subject, while it is active. */
  lemma LoadIff(s: Store, ref: string, tenant: string, subject: string, r: Record)
    ensures LoadStep(s, ref, tenant, subject) == Ok(r)
            <==> && r.ref == ref && ref in s.credentials && s.credentials[ref] == r.row
                 && (r.row.tenant, r.row.subject, r.row.status) == (tenant, subject, Active)
  {
  }

  /** Another owner's credential is not found; only its owner learns that it is revoked. */
  lemma LoadErrorIff(s: Store, ref: string, tenant: string, subject: string)
    ensures LoadStep(s, ref, tenant, subject) == Err(AlreadyRevoked)
            <==> ref in s.credentials && (s.credentials[ref].tenant, s.credentials[ref].subject, s.credentials[ref].status)
                                         == (tenant, subject, Revoked)
    ensures LoadStep(s, ref, tenant, subject) == Err(NotFound)
            <==> !(ref in s.credentials && (s.credentials[ref].tenant, s.credentials[ref].subject) == (tenant, subject))
  {
  }

  // ---- what a step changes ----

  /** A snapshot refreshes exactly when its token and the reply are acceptable and the row is still the active snapshot. */
  lemma RefreshCommitsIff(fold: string -> string, s: System, record: Record, reply: TokenReply, now: int)
    requires Invariant(s) && record in s.snapshots
    ensures Commit(fold, s, Refresh(record, reply, now)).1
            <==> && RefreshGrant(fold, record, reply).Some?
                 && s.store.credentials[record.ref] == record.row && record.row.status == Active
  {
    CommitIffUnchanged(s, record);
  }

  /** A snapshot's refresh is acceptable exactly when it carries a usable token, and the reply passes with that token to fall back on. */
  lemma RefreshAcceptedIff(fold: string -> string, r: Record, reply: TokenReply)
    requires ReadOnly(fold, r.row.provider, r.row.scopes)
    ensures RefreshGrant(fold, r, reply).Some?
            <==> && r.row.secret.Tokens? && IsToken(r.row.secret.refresh)
                 && TokensPass(fold, reply, Some(r.row.secret.refresh))
                 && reply.scope.Text? && Lists(fold, reply.scope.text, ReadScope(fold, r.row.provider))
  {
    TokenIff(RefreshToken(r.row.secret));
    ReplyAcceptedIff(fold, r.row.provider, reply, r.row.scopes, Some(RefreshToken(r.row.secret)));
  }

  lemma RevokeCommitsIff(fold: string -> string, s: System, record: Record, revocationId: string, now: int)
    requires Invariant(s) && record in s.snapshots
    ensures Commit(fold, s, Revoke(record, revocationId, now)).1
            <==> s.store.credentials[record.ref] == record.row && record.row.status == Active
  {
    CommitIffUnchanged(s, record);
  }

  /** An exchange creates its credential exactly for a registered scope set, an acceptable reply and an unused reference. */
  lemma ExchangeCommitsIff(fold: string -> string, s: System, e: Event)
    requires e.Exchange?
    ensures Commit(fold, s, e).1
            <==> && SameScopes(fold, e.provider, e.requested, e.registered) == Ok(true)
                 && ValidateTokenResponse(fold, e.provider, e.reply, e.requested, None).Ok?
                 && e.ref !in s.store.credentials
  {
  }

  /** What was issued for an exchange or a refresh. */
  function IssuedBy(fold: string -> string, e: Event): Option<TokenGrant> {
    match e
    case Exchange(_, _, _, provider, _, requested, _, reply, _) =>
      (match ValidateTokenResponse(fold, provider, reply, requested, None) case Ok(grant) => Some(grant) case Err(_) => None)
    case Refresh(record, reply, _) => RefreshGrant(fold, record, reply)
    case _ => None
  }

  /** The moment of an exchange or a refresh. */
  function Moment(e: Event): int {
    match e
    case Exchange(_, _, _, _, _, _, _, _, now) => now
    case Load(_, _, _) => 0
    case Refresh(_, _, now) => now
    case Revoke(_, _, now) => now
    case Resolve(_, now) => now
  }

  /** Scopes and lifetime are those of the grant, and the tokens too unless the row is a tombstone. */
  predicate Carries(row: Credential, grant: TokenGrant, now: int) {
    && row.scopes == grant.scopes && row.expiresAt == now + grant.seconds
    && (row.status == Active ==> row.secret == Tokens(grant.access, grant.refresh))
    && (row.status == Revoked ==> row.secret == Tombstone)
  }

  /** The columns an exchange fixes. */
  predicate OwnedAsExchanged(row: Credential, e: Event)
    requires e.Exchange?
  {
    (row.tenant, row.subject, row.provider, row.identity, row.createdAt) == (e.tenant, e.subject, e.provider, e.identity, e.now)
  }

  predicate SameOwner(a: Credential, b: Credential) {
    (a.tenant, a.subject, a.provider, a.identity, a.createdAt) == (b.tenant, b.subject, b.provider, b.identity, b.createdAt)
  }

  /** What an event commits to one credential. */
  datatype Mark =
    | Nothing
    | Creation(e: Event, grant: TokenGrant)
    | Renewal(e: Event, grant: TokenGrant)
    | Revocation(e: Event)

  function MarkOf(fold: string -> string, s: System, e: Event, ref: string): Mark {
    if !CommitsVersion(fold, s, e, ref) then Nothing
    else if e.Revoke? then Revocation(e)
    else match IssuedBy(fold, e)
      case Some(grant) => if e.Exchange? then Creation(e, grant) else Renewal(e, grant)
      case None => Nothing
  }

  /** What each event of a run committed to `ref`. */
  function Marks(fold: string -> string, es: seq<Event>, ref: string): seq<Mark> {
    if es == [] then [] else
      var n := |es| - 1;
      Marks(fold, es[..n], ref) + [MarkOf(fold, Run(fold, es[..n]), es[n], ref)]
  }

  lemma MarksOfSnoc(fold: string -> string, es: seq<Event>, ref: string)
    requires es != []
    ensures Marks(fold, es, ref)
         == Marks(fold, es[..|es| - 1], ref) + [MarkOf(fold, Run(fold, es[..|es| - 1]), es[|es| - 1], ref)]
  {
  }

  lemma {:induction false} MarksLength(fold: string -> string, es: seq<Event>, ref: string)
    ensures |Marks(fold, es, ref)| == |es|
  {
    if es == [] {
    } else {
      MarksOfSnoc(fold, es, ref);
      MarksLength(fold, es[..|es| - 1], ref);
    }
  }

  lemma {:induction false} MarkAt(fold: string -> string, es: seq<Event>, ref: string, j: nat)
    requires j < |es|
    ensures |Marks(fold, es, ref)| == |es| && Marks(fold, es, ref)[j] == MarkOf(fold, Run(fold, es[..j]), es[j], ref)
  {
    var n := |es| - 1;
    MarksOfSnoc(fold, es, ref);
    MarksLength(fold, es[..n], ref);
    if j == n {
    } else {
      MarkAt(fold, es[..n], ref, j);
      assert es[..n][..j] == es[..j];
    }
  }

  /** How a row looks after an event that committed the given mark, and where it came from. */
  predicate FollowsFrom(before: map<string, Credential>, ref: string, row: Credential, mark: Mark) {
    match mark
    case Nothing => ref in before && before[ref] == row
    case Creation(e, grant) =>
      ref !in before && e.Exchange? && OwnedAsExchanged(row, e) && row.status == Active && Carries(row, grant, Moment(e))
    case Renewal(e, grant) =>
      ref in before && before[ref].status == Active && SameOwner(row, before[ref]) && row.status == Active && Carries(row, grant, Moment(e))
    case Revocation(e) =>
      ref in before && before[ref].status == Active && SameOwner(row, before[ref]) && row.status == Revoked && row.secret == Tombstone
      && (row.scopes, row.expiresAt) == (before[ref].scopes, before[ref].expiresAt)
      && e.Revoke? && row.revokedAt == Some(e.now) && row.revocationId == Some(e.revocationId)
  }

  lemma StepOnRow(fold: string -> string, s: System, e: Event, ref: string)
    ensures var after, mark := Step(fold, s, e).store.credentials, MarkOf(fold, s, e, ref);
            if ref in after then FollowsFrom(s.store.credentials, ref, after[ref], mark) else ref !in s.store.credentials && mark == Nothing
  {
  }

  /** The exchange that created a row, and the commit whose tokens it carries. */
  ghost predicate Stems(marks: seq<Mark>, row: Credential, i: nat, k: nat) {
    && i < |marks| && marks[i].Creation? && marks[i].e.Exchange? && OwnedAsExchanged(row, marks[i].e)
    && (forall x | 0 <= x < |marks| && marks[x].Creation? :: x == i)
    && k < |marks| && (marks[k].Creation? || marks[k].Renewal?) && Carries(row, marks[k].grant, Moment(marks[k].e))
    && (forall x | k < x < |marks| :: !marks[x].Creation? && !marks[x].Renewal?)
    && (row.status == Revoked <==> exists x :: 0 <= x < |marks| && marks[x].Revocation?)
  }

  ghost predicate AllNothing(marks: seq<Mark>) {
    forall x | 0 <= x < |marks| :: marks[x] == Nothing
  }

  lemma NextStems(marks: seq<Mark>, mark: Mark, before: map<string, Credential>, ref: string, row: Credential, i: nat, k: nat)
    returns (created: nat, issued: nat)
    requires FollowsFrom(before, ref, row, mark)
    requires if ref in before then Stems(marks, before[ref], i, k) else AllNothing(marks)
    ensures Stems(marks + [mark], row, created, issued)
  {
    var longer, n := marks + [mark], |marks|;
    assert forall x | 0 <= x < n :: longer[x] == marks[x];
    assert longer[n] == mark;
    created := if mark.Creation? then n else i;
    issued := if mark.Creation? || mark.Renewal? then n else k;
  }

  /**
    Where a row comes from, in every reachable state: one exchange created it for its owner; scopes and lifetime are
    those of the last commit that issued tokens for it, and so are the tokens themselves until it is revoked.
   */
  lemma {:induction false} RowStemsFromCommits(fold: string -> string, es: seq<Event>, ref: string) returns (i: nat, k: nat)
    ensures ref in Run(fold, es).store.credentials ==> Stems(Marks(fold, es, ref), Run(fold, es).store.credentials[ref], i, k)
    ensures ref !in Run(fold, es).store.credentials ==> AllNothing(Marks(fold, es, ref))
  {
    if es == [] {
      i, k := 0, 0;
    } else {
      var n := |es| - 1;
      RunOfSnoc(fold, es);
      i, k := RowStemsFromCommits(fold, es[..n], ref);
      StepOnRow(fold, Run(fold, es[..n]), es[n], ref);
      if ref in Run(fold, es).store.credentials {
        i, k := NextStems(Marks(fold, es[..n], ref), MarkOf(fold, Run(fold, es[..n]), es[n], ref),
                          Run(fold, es[..n]).store.credentials, ref, Run(fold, es).store.credentials[ref], i, k);
      }
    }
  }

  /** Event `i` is an exchange of that owner whose commit created `ref`. */
  ghost predicate CreatedFor(fold: string -> string, es: seq<Event>, i: nat, ref: string, tenant: string, subject: string) {
    && i < |es| && es[i].Exchange? && es[i].ref == ref && es[i].tenant == tenant && es[i].subject == subject
    && Commit(fold, Run(fold, es[..i]), es[i]).1
  }

  /** Event `j` is a revocation whose commit was of `ref`. */
  ghost predicate RevokedAt(fold: string -> string, es: seq<Event>, j: nat, ref: string) {
    j < |es| && es[j].Revoke? && es[j].record.ref == ref && Commit(fold, Run(fold, es[..j]), es[j]).1
  }

  lemma MarksAreCommits(fold: string -> string, s: System, e: Event, ref: string)
    ensures MarkOf(fold, s, e, ref).Creation? <==> e.Exchange? && e.ref == ref && Commit(fold, s, e).1
    ensures MarkOf(fold, s, e, ref).Revocation? <==> e.Revoke? && e.record.ref == ref && Commit(fold, s, e).1
    ensures MarkOf(fold, s, e, ref) != Nothing ==> MarkOf(fold, s, e, ref).e == e
  {
  }

  lemma CommitsAtMarks(fold: string -> string, es: seq<Event>, ref: string, j: nat)
    requires j < |es|
    ensures |Marks(fold, es, ref)| == |es|
    ensures Marks(fold, es, ref)[j].Revocation? <==> RevokedAt(fold, es, j, ref)
    ensures Marks(fold, es, ref)[j].Creation? <==> es[j].Exchange? && CreatedFor(fold, es, j, ref, es[j].tenant, es[j].subject)
    ensures Marks(fold, es, ref)[j] != Nothing ==> Marks(fold, es, ref)[j].e == es[j]
  {
    MarkAt(fold, es, ref, j);
    MarksAreCommits(fold, Run(fold, es[..j]), es[j], ref);
  }

  lemma LoadFromMarks(fold: string -> string, es: seq<Event>, marks: seq<Mark>, store: Store, ref: string, tenant: string, subject: string,
                      i: nat, k: nat)
    requires |es| > 0 ==> |marks| == |es|
    requires |es| == 0 ==> marks == []
    requires forall x: nat | x < |es| :: marks[x].Revocation? <==> RevokedAt(fold, es, x, ref)
    requires forall x: nat | x < |es| :: marks[x].Creation? <==> es[x].Exchange? && CreatedFor(fold, es, x, ref, es[x].tenant, es[x].subject)
    requires forall x: nat | x < |es| :: marks[x] != Nothing ==> marks[x].e == es[x]
    requires if ref in store.credentials then Stems(marks, store.credentials[ref], i, k) else AllNothing(marks)
    ensures LoadStep(store, ref, tenant, subject).Ok?
            <==> && (exists x: nat :: CreatedFor(fold, es, x, ref, tenant, subject))
                 && !exists j: nat :: RevokedAt(fold, es, j, ref)
  {
    if ref in store.credentials {
      var row := store.credentials[ref];
      assert CreatedFor(fold, es, i, ref, row.tenant, row.subject);
      forall x: nat | CreatedFor(fold, es, x, ref, tenant, subject)
        ensures x == i
      {
        assert marks[x].Creation?;
      }
      assert row.status == Revoked <==> exists j: nat :: RevokedAt(fold, es, j, ref);
    } else {
      forall x: nat
        ensures !CreatedFor(fold, es, x, ref, tenant, subject)
      {
        assert x < |es| ==> marks[x] == Nothing;
      }
    }
  }

  /**
    Who can load, over runs: a load succeeds exactly when an exchange of that very tenant and subject created the
    reference and no revocation of it has been committed.
   */
  lemma LoadSucceedsIff(fold: string -> string, es: seq<Event>, ref: string, tenant: string, subject: string)
    ensures LoadStep(Run(fold, es).store, ref, tenant, subject).Ok?
            <==> && (exists i: nat :: CreatedFor(fold, es, i, ref, tenant, subject))
                 && !exists j: nat :: RevokedAt(fold, es, j, ref)
  {
    var marks := Marks(fold, es, ref);
    var i, k := RowStemsFromCommits(fold, es, ref);
    forall x: nat | x < |es|
      ensures |marks| == |es| && (marks[x].Revocation? <==> RevokedAt(fold, es, x, ref))
      ensures marks[x].Creation? <==> es[x].Exchange? && CreatedFor(fold, es, x, ref, es[x].tenant, es[x].subject)
      ensures marks[x] != Nothing ==> marks[x].e == es[x]
    {
      CommitsAtMarks(fold, es, ref, x);
    }
    LoadFromMarks(fold, es, marks, Run(fold, es).store, ref, tenant, subject, i, k);
  }

  /** One audit is written with every commit, for the owner of the row and at its moment; a resolution writes one alone. */
  lemma OneAuditPerCommit(fold: string -> string, s: System, e: Event)
    ensures var before, after := s.store.audits, Step(fold, s, e).store.audits;
            && (Commit(fold, s, e).1 ==>
                  var row := Step(fold, s, e).store.credentials[CommitsTo(e)];
                  after == before + [Audit(row.tenant, row.subject, CommitsTo(e),
                                           if e.Exchange? then Created else if e.Refresh? then Refreshed(row.version) else RevokedEvent,
                                           Moment(e))])
            && (!Commit(fold, s, e).1 && !e.Resolve? ==> after == before)
  {
  }
}
