/**
  The approval and action ledger of the BFF: one-time approvals, bound to one (action id, input digest)
  pair, and the action operations dispatched under them.  Every method is one SQLite transaction.
 */
module HostActions {
  import opened Text
  import opened Wrappers

  /** A UUID, as the integer it stands for; its text is ASCII and determines it. */
  type Uuid = nat

  datatype Binding = Binding(action: Uuid, tenant: string, subject: string, digest: string, candidate: Uuid, revision: int)

  /** An action id and its input digest; the digest text is 64 hexadecimal characters. */
  datatype Pair = Pair(action: Uuid, digest: string)

  datatype Approval = Approval(
    tenant: string, subject: string, candidate: Uuid, revision: int,
    bound: Option<Pair>, createdAt: int, expiresAt: int, verifiedAt: Option<int>)

  datatype Status = Running | Succeeded | RetryWait

  /** `action` and `result` stand for the encrypted columns: decryption gives back what was encrypted. */
  datatype Operation = Operation(
    tenant: string, subject: string, digest: string, status: Status, action: string,
    result: Option<string>, error: Option<string>, attempts: nat, createdAt: int, updatedAt: int)

  /** Approvals by the digest of their reference, operations by action id. */
  datatype Ledger = Ledger(approvals: map<string, Approval>, operations: map<Uuid, Operation>)

  const EMPTY: Ledger := Ledger(map[], map[])
  const RESTART_ERROR := "bff_restart_after_dispatch"

  // ---- what the callers' texts become ----

  /** `_scope`: the stripped text of a tenant or subject, if it is acceptable. */
  function ScopeText(value: string): Option<string> {
    var text := Strip(value);
    if text == "" || |text| > 200 || exists c | c in text :: c < '\U{0021}' || c == '\U{007F}' then None else Some(text)
  }

  /** The fields of an action that its binding is read from; an id or number that does not parse is `None`. */
  datatype Action = Action(id: Option<Uuid>, kind: string, tenant: string, subject: string, digest: string,
                           candidate: Option<Uuid>, revision: Option<int>, parameters: Option<nat>)

  datatype BindingError = ParametersInvalid | IdentityInvalid | KindInvalid | ScopeInvalid | DigestInvalid | RevisionInvalid

  predicate IsDigest(s: string) {
    |s| == 64 && forall c | c in s :: '0' <= c <= '9' || 'a' <= c <= 'f'
  }

  predicate IsKnownKind(kind: string) {
    kind == "create_task" || kind == "update_task" || kind == "knowledge_candidate"
  }

  /** `_action_binding` */
  function ActionBinding(a: Action): Result<Binding, BindingError> {
    if a.parameters.None? || a.parameters.value > 20 then Err(ParametersInvalid)
    else if a.id.None? || a.candidate.None? then Err(IdentityInvalid)
    else if !IsKnownKind(Strip(a.kind)) then Err(KindInvalid)
    else if ScopeText(a.tenant).None? || ScopeText(a.subject).None? then Err(ScopeInvalid)
    else if !IsDigest(Strip(a.digest)) then Err(DigestInvalid)
    else if a.revision.None? || a.revision.value < 1 then Err(RevisionInvalid)
    else Ok(Binding(a.id.value, ScopeText(a.tenant).value, ScopeText(a.subject).value, Strip(a.digest), a.candidate.value, a.revision.value))
  }

  datatype IssueError = IssueScopeInvalid | IssueRevisionInvalid | ReferenceTaken

  datatype Verdict = Confirmed | Denied | TypeError

  datatype ClaimOutcome =
    | Dispatched
    | Replayed(result: string)
    | ApprovalInvalid
    | IdempotencyConflict
    | ClaimTypeError

  /** `hmac.compare_digest` on texts, which raises when either is not ASCII. */
  function CompareDigest(a: string, b: string): Option<bool> {
    if IsAscii(a) && IsAscii(b) then Some(a == b) else None
  }

  /** Whether both texts agree, compared in order: the second comparison is not reached when the first fails. */
  function SameOwner(tenant: string, subject: string, b: Binding): Option<bool> {
    match CompareDigest(tenant, b.tenant)
    case None => None
    case Some(false) => Some(false)
    case Some(true) => CompareDigest(subject, b.subject)
  }

  // ---- the transactions, as functions on the ledger ----

  /** Unbound approvals that have expired go; a reference that is still in use rolls the transaction back. */
  function IssueStep(s: Ledger, ref: string, tenant: string, subject: string, candidate: Uuid, revision: int,
                     now: int, expiresAt: int): (Ledger, bool)
  {
    var kept := map r | r in s.approvals && !(s.approvals[r].expiresAt <= now && s.approvals[r].bound.None?) :: s.approvals[r];
    if ref in kept then (s, false)
    else (s.(approvals := kept[ref := Approval(tenant, subject, candidate, revision, None, now, expiresAt, None)]), true)
  }

  function VerifyStep(s: Ledger, ref: string, b: Binding, now: int): (Ledger, Verdict) {
    if ref !in s.approvals || s.approvals[ref].expiresAt <= now then (s, Denied)
    else
      var row := s.approvals[ref];
      match SameOwner(row.tenant, row.subject, b)
      case None => (s, TypeError)
      case Some(same) =>
        if !same || row.candidate != b.candidate || row.revision != b.revision then (s, Denied)
        else match row.bound
          case Some(pair) => (s, if pair == Pair(b.action, b.digest) then Confirmed else Denied)
          case None =>
            (s.(approvals := s.approvals[ref := row.(bound := Some(Pair(b.action, b.digest)), verifiedAt := Some(now))]), Confirmed)
  }

  /** `issue_candidate_approval`: tenant and subject are checked as scope texts but stored as they were given. */
  function IssueApprovalStep(s: Ledger, ref: string, tenant: string, subject: string, candidate: Uuid, revision: int,
                             now: int, expiresAt: int): (Ledger, Option<IssueError>)
  {
    if ScopeText(tenant).None? || ScopeText(subject).None? then (s, Some(IssueScopeInvalid))
    else if revision < 1 then (s, Some(IssueRevisionInvalid))
    else
      var (after, issued) := IssueStep(s, ref, tenant, subject, candidate, revision, now, expiresAt);
      (after, if issued then None else Some(ReferenceTaken))
  }

  /** `verify_confirmation`: whether the action's binding, if it has one, is confirmed. */
  function VerifyConfirmationStep(s: Ledger, ref: string, a: Action, now: int): (Ledger, Result<Verdict, BindingError>) {
    match ActionBinding(a)
    case Err(e) => (s, Err(e))
    case Ok(b) => var (after, verdict) := VerifyStep(s, ref, b, now); (after, Ok(verdict))
  }

  predicate Approved(s: Ledger, ref: string, pair: Pair) {
    ref in s.approvals && s.approvals[ref].bound == Some(pair)
  }

  function ClaimStep(s: Ledger, ref: string, b: Binding, action: string, now: int): (Ledger, ClaimOutcome) {
    if !Approved(s, ref, Pair(b.action, b.digest)) then (s, ApprovalInvalid)
    else if b.action in s.operations then
      var row := s.operations[b.action];
      match SameOwner(row.tenant, row.subject, b)
      case None => (s, ClaimTypeError)
      case Some(same) =>
        if !same || row.digest != b.digest then (s, IdempotencyConflict)
        else if row.status == Succeeded && row.result.Some? then (s, Replayed(row.result.value))
        else
          (s.(operations := s.operations[b.action :=
             row.(status := Running, attempts := row.attempts + 1, error := None, updatedAt := now)]), Dispatched)
    else
      (s.(operations := s.operations[b.action :=
         Operation(b.tenant, b.subject, b.digest, Running, action, None, None, 1, now, now)]), Dispatched)
  }

  /** The row an update `WHERE action_id=? AND input_digest=? AND status='running'` finds. */
  predicate IsRunning(s: Ledger, action: Uuid, digest: string) {
    action in s.operations && s.operations[action].digest == digest && s.operations[action].status == Running
  }

  function CompleteStep(s: Ledger, action: Uuid, digest: string, result: string, now: int): (Ledger, bool) {
    if !IsRunning(s, action, digest) then (s, false)
    else
      (s.(operations := s.operations[action :=
         s.operations[action].(status := Succeeded, result := Some(result), error := None, updatedAt := now)]), true)
  }

  function FailStep(s: Ledger, action: Uuid, digest: string, error: string, now: int): Ledger {
    if !IsRunning(s, action, digest) then s
    else
      s.(operations := s.operations[action :=
         s.operations[action].(status := RetryWait, error := Some(error), updatedAt := now)])
  }

  function RestartStep(s: Ledger, now: int): Ledger {
    s.(operations := map a | a in s.operations ::
         var row := s.operations[a];
         if row.status == Running then row.(status := RetryWait, error := Some(RESTART_ERROR), updatedAt := now) else row)
  }

  /** The broker: two tables that each transaction updates. */
  class HostActionBroker {
    var approvals: map<string, Approval>
    var operations: map<Uuid, Operation>

    constructor ()
      ensures Contents() == EMPTY
    {
      approvals, operations := map[], map[];
    }

    function Contents(): Ledger
      reads this
    {
      Ledger(approvals, operations)
    }

    method Issue(ref: string, tenant: string, subject: string, candidate: Uuid, revision: int, now: int, expiresAt: int)
      returns (issued: bool)
      modifies this
      ensures (Contents(), issued) == IssueStep(old(Contents()), ref, tenant, subject, candidate, revision, now, expiresAt)
    {
      var before := approvals;
      approvals := map r | r in approvals && !(approvals[r].expiresAt <= now && approvals[r].bound.None?) :: approvals[r];
      if ref in approvals {
        approvals := before;
        return false;
      }
      approvals := approvals[ref := Approval(tenant, subject, candidate, revision, None, now, expiresAt, None)];
      issued := true;
    }

    method IssueApproval(ref: string, tenant: string, subject: string, candidate: Uuid, revision: int, now: int, expiresAt: int)
      returns (error: Option<IssueError>)
      modifies this
      ensures (Contents(), error) == IssueApprovalStep(old(Contents()), ref, tenant, subject, candidate, revision, now, expiresAt)
    {
      if ScopeText(tenant).None? || ScopeText(subject).None? {
        return Some(IssueScopeInvalid);
      }
      if revision < 1 {
        return Some(IssueRevisionInvalid);
      }
      var issued := Issue(ref, tenant, subject, candidate, revision, now, expiresAt);
      error := if issued then None else Some(ReferenceTaken);
    }

    method VerifyConfirmation(ref: string, a: Action, now: int) returns (r: Result<Verdict, BindingError>)
      modifies this
      ensures (Contents(), r) == VerifyConfirmationStep(old(Contents()), ref, a, now)
    {
      var binding := ActionBinding(a);
      if binding.Err? {
        return Err(binding.error);
      }
      var verdict := Verify(ref, binding.value, now);
      r := Ok(verdict);
    }

    method Verify(ref: string, b: Binding, now: int) returns (verdict: Verdict)
      modifies this
      ensures (Contents(), verdict) == VerifyStep(old(Contents()), ref, b, now)
    {
      if ref !in approvals || approvals[ref].expiresAt <= now {
        return Denied;
      }
      var row := approvals[ref];
      var same := SameOwner(row.tenant, row.subject, b);
      if same == None {
        return TypeError;
      }
      if !same.value || row.candidate != b.candidate || row.revision != b.revision {
        return Denied;
      }
      if row.bound.Some? {
        return if row.bound.value == Pair(b.action, b.digest) then Confirmed else Denied;
      }
      approvals := approvals[ref := row.(bound := Some(Pair(b.action, b.digest)), verifiedAt := Some(now))];
      verdict := Confirmed;
    }

    method Claim(ref: string, b: Binding, action: string, now: int) returns (outcome: ClaimOutcome)
      modifies this
      ensures (Contents(), outcome) == ClaimStep(old(Contents()), ref, b, action, now)
    {
      if ref !in approvals || approvals[ref].bound != Some(Pair(b.action, b.digest)) {
        return ApprovalInvalid;
      }
      if b.action in operations {
        var row := operations[b.action];
        var same := SameOwner(row.tenant, row.subject, b);
        if same == None {
          return ClaimTypeError;
        }
        if !same.value || row.digest != b.digest {
          return IdempotencyConflict;
        }
        if row.status == Succeeded && row.result.Some? {
          return Replayed(row.result.value);
        }
        operations := operations[b.action :=
          row.(status := Running, attempts := row.attempts + 1, error := None, updatedAt := now)];
        return Dispatched;
      }
      operations := operations[b.action :=
        Operation(b.tenant, b.subject, b.digest, Running, action, None, None, 1, now, now)];
      outcome := Dispatched;
    }

    method Complete(action: Uuid, digest: string, result: string, now: int) returns (updated: bool)
      modifies this
      ensures (Contents(), updated) == CompleteStep(old(Contents()), action, digest, result, now)
    {
      updated := IsRunning(Contents(), action, digest);
      if updated {
        operations := operations[action :=
          operations[action].(status := Succeeded, result := Some(result), error := None, updatedAt := now)];
      }
    }

    method Fail(action: Uuid, digest: string, error: string, now: int)
      modifies this
      ensures Contents() == FailStep(old(Contents()), action, digest, error, now)
    {
      if IsRunning(Contents(), action, digest) {
        operations := operations[action :=
          operations[action].(status := RetryWait, error := Some(error), updatedAt := now)];
      }
    }

    /** The sweep of `_initialize_sync` over what an earlier process left running. */
    method Restart(now: int)
      modifies this
      ensures Contents() == RestartStep(old(Contents()), now)
    {
      operations := map a | a in operations ::
        if operations[a].status == Running
        then operations[a].(status := RetryWait, error := Some(RESTART_ERROR), updatedAt := now)
        else operations[a];
    }
  }

  // ---- runs ----

  datatype Event =
    | Issue(ref: string, tenant: string, subject: string, candidate: Uuid, revision: int, now: int, expiresAt: int)
    | Verify(ref: string, binding: Binding, now: int)
    | Claim(ref: string, binding: Binding, payload: string, now: int)
    | Complete(action: Uuid, digest: string, result: string, now: int)
    | Fail(action: Uuid, digest: string, error: string, now: int)
    | Restart(now: int)

  function Step(s: Ledger, e: Event): Ledger {
    match e
    case Issue(ref, tenant, subject, candidate, revision, now, expiresAt) =>
      IssueStep(s, ref, tenant, subject, candidate, revision, now, expiresAt).0
    case Verify(ref, binding, now) => VerifyStep(s, ref, binding, now).0
    case Claim(ref, binding, payload, now) => ClaimStep(s, ref, binding, payload, now).0
    case Complete(action, digest, result, now) => CompleteStep(s, action, digest, result, now).0
    case Fail(action, digest, error, now) => FailStep(s, action, digest, error, now)
    case Restart(now) => RestartStep(s, now)
  }

  function RunFrom(s: Ledger, es: seq<Event>): Ledger {
    if es == [] then s else Step(RunFrom(s, es[..|es| - 1]), es[|es| - 1])
  }

  function Run(es: seq<Event>): Ledger {
    RunFrom(EMPTY, es)
  }

  lemma {:induction false} RunSplit(s: Ledger, es: seq<Event>, n: nat)
    requires n <= |es|
    ensures RunFrom(s, es) == RunFrom(RunFrom(s, es[..n]), es[n..])
  {
    if n == |es| {
      assert es[..n] == es;
    } else {
      RunSplit(s, es[..|es| - 1], n);
      assert es[..|es| - 1][..n] == es[..n] && es[..|es| - 1][n..] == es[n..][..|es| - n - 1];
    }
  }

  // ---- approvals over runs ----

  /** Some surviving approval carries the row's pair. */
  ghost predicate Backed(s: Ledger, action: Uuid)
    requires action in s.operations
  {
    exists ref :: Approved(s, ref, Pair(action, s.operations[action].digest))
  }

  ghost predicate BoundBeforeExpiry(a: Approval) {
    && (a.bound.Some? <==> a.verifiedAt.Some?)
    && (a.bound.Some? ==> a.verifiedAt.value < a.expiresAt)
  }

  /** A result exactly when succeeded, an error exactly when waiting for a retry, and at least one attempt. */
  ghost predicate Settled(row: Operation) {
    && (row.result.Some? <==> row.status == Succeeded)
    && (row.error.Some? <==> row.status == RetryWait)
    && row.attempts >= 1
  }

  ghost predicate Invariant(s: Ledger) {
    && (forall a | a in s.operations :: Backed(s, a) && Settled(s.operations[a]))
    && (forall ref | ref in s.approvals :: BoundBeforeExpiry(s.approvals[ref]))
  }

  /** A bound approval is never removed or altered by a step. */
  lemma BoundApprovalStays(s: Ledger, e: Event, ref: string)
    requires ref in s.approvals && s.approvals[ref].bound.Some?
    ensures ref in Step(s, e).approvals && Step(s, e).approvals[ref] == s.approvals[ref]
  {
  }

  lemma StepKeepsBacking(s: Ledger, e: Event, a: Uuid)
    requires a in Step(s, e).operations && (a in s.operations ==> Backed(s, a))
    ensures Backed(Step(s, e), a)
  {
    var t := Step(s, e);
    if a in s.operations {
      assert t.operations[a].digest == s.operations[a].digest;
      var ref :| Approved(s, ref, Pair(a, s.operations[a].digest));
      BoundApprovalStays(s, e, ref);
      assert Approved(t, ref, Pair(a, t.operations[a].digest));
    } else {
      assert Approved(t, e.ref, Pair(a, t.operations[a].digest));
    }
  }

  lemma StepKeepsRows(s: Ledger, e: Event, a: Uuid)
    requires a in Step(s, e).operations && (a in s.operations ==> Settled(s.operations[a]))
    ensures Settled(Step(s, e).operations[a])
  {
  }

  lemma StepKeepsApprovals(s: Ledger, e: Event, ref: string)
    requires ref in Step(s, e).approvals && (ref in s.approvals ==> BoundBeforeExpiry(s.approvals[ref]))
    ensures BoundBeforeExpiry(Step(s, e).approvals[ref])
  {
  }

  lemma StepKeepsInvariant(s: Ledger, e: Event)
    requires Invariant(s)
    ensures Invariant(Step(s, e))
  {
    var t := Step(s, e);
    forall a | a in t.operations
      ensures Backed(t, a) && Settled(t.operations[a])
    {
      StepKeepsBacking(s, e, a);
      StepKeepsRows(s, e, a);
    }
    forall ref | ref in t.approvals
      ensures BoundBeforeExpiry(t.approvals[ref])
    {
      StepKeepsApprovals(s, e, ref);
    }
  }

  /** Approval safety and the shape of the rows, in every reachable ledger. */
  lemma {:induction false} RunKeepsInvariant(es: seq<Event>)
    ensures Invariant(Run(es))
  {
    if es == [] {
    } else {
      RunKeepsInvariant(es[..|es| - 1]);
      StepKeepsInvariant(Run(es[..|es| - 1]), es[|es| - 1]);
    }
  }

  /** Once bound, an approval outlives every run unchanged: pair, expiry and moment of verification. */
  lemma {:induction false} BoundForever(s: Ledger, es: seq<Event>, ref: string)
    requires ref in s.approvals && s.approvals[ref].bound.Some?
    ensures ref in RunFrom(s, es).approvals && RunFrom(s, es).approvals[ref] == s.approvals[ref]
  {
    if es == [] {
    } else {
      BoundForever(s, es[..|es| - 1], ref);
      BoundApprovalStays(RunFrom(s, es[..|es| - 1]), es[|es| - 1], ref);
    }
  }

  /** The event is a verification of `ref` for the pair, and it is confirmed. */
  predicate Confirms(s: Ledger, e: Event, ref: string, pair: Pair) {
    && e.Verify? && e.ref == ref && Pair(e.binding.action, e.binding.digest) == pair
    && VerifyStep(s, ref, e.binding, e.now).1 == Confirmed
  }

  /** Event `i` of the run confirms `ref` for the pair. */
  ghost predicate ConfirmedAt(es: seq<Event>, i: nat, ref: string, pair: Pair)
    requires i < |es|
  {
    Confirms(Run(es[..i]), es[i], ref, pair)
  }

  lemma ApprovedInStep(s: Ledger, e: Event, ref: string, pair: Pair)
    ensures Approved(Step(s, e), ref, pair) <==> Approved(s, ref, pair) || Confirms(s, e, ref, pair)
  {
    if Approved(s, ref, pair) {
      BoundApprovalStays(s, e, ref);
    }
  }

  lemma ConfirmedInPrefix(es: seq<Event>, n: nat, i: nat, ref: string, pair: Pair)
    requires i < n <= |es|
    ensures ConfirmedAt(es[..n], i, ref, pair) <==> ConfirmedAt(es, i, ref, pair)
  {
    assert es[..n][..i] == es[..i];
  }

  lemma RunOfSnoc(es: seq<Event>)
    requires es != []
    ensures Run(es) == Step(Run(es[..|es| - 1]), es[|es| - 1])
  {
  }

  /** A pair is bound to a reference exactly when some verification of it was confirmed. */
  lemma {:induction false} BoundIffConfirmed(es: seq<Event>, ref: string, pair: Pair)
    ensures Approved(Run(es), ref, pair) <==> exists i: nat :: i < |es| && ConfirmedAt(es, i, ref, pair)
  {
    if es == [] {
    } else {
      var n := |es| - 1;
      BoundIffConfirmed(es[..n], ref, pair);
      RunOfSnoc(es);
      ApprovedInStep(Run(es[..n]), es[n], ref, pair);
      forall i: nat | i < n
        ensures ConfirmedAt(es[..n], i, ref, pair) <==> ConfirmedAt(es, i, ref, pair)
      {
        ConfirmedInPrefix(es, n, i, ref, pair);
      }
      assert ConfirmedAt(es, n, ref, pair) <==> Confirms(Run(es[..n]), es[n], ref, pair);
    }
  }

  /**
    A claim passes the approval check exactly when its reference was confirmed for its pair at some
    earlier point of the run, however many issues, clean-ups, restarts and other claims lie between.
   */
  lemma ClaimApprovedIffConfirmed(es: seq<Event>, ref: string, b: Binding, payload: string, now: int)
    ensures ClaimStep(Run(es), ref, b, payload, now).1 != ApprovalInvalid
            <==> exists i: nat :: i < |es| && ConfirmedAt(es, i, ref, Pair(b.action, b.digest))
  {
    BoundIffConfirmed(es, ref, Pair(b.action, b.digest));
  }

  /** One reference is never confirmed for two different pairs. */
  lemma OnePairPerReference(es: seq<Event>, i: nat, j: nat, ref: string, p: Pair, q: Pair)
    requires i < |es| && j < |es| && ConfirmedAt(es, i, ref, p) && ConfirmedAt(es, j, ref, q)
    ensures p == q
  {
    BoundIffConfirmed(es, ref, p);
    BoundIffConfirmed(es, ref, q);
  }

  // ---- an issued approval can be used ----

  lemma UntouchedApprovalStays(s: Ledger, e: Event, ref: string)
    requires ref in s.approvals && !(e.Verify? && e.ref == ref) && (e.Issue? ==> e.now < s.approvals[ref].expiresAt)
    ensures ref in Step(s, e).approvals && Step(s, e).approvals[ref] == s.approvals[ref]
  {
  }

  lemma {:induction false} UntouchedApprovalSurvives(s: Ledger, es: seq<Event>, ref: string)
    requires ref in s.approvals
    requires forall i | 0 <= i < |es| ::
               !(es[i].Verify? && es[i].ref == ref) && (es[i].Issue? ==> es[i].now < s.approvals[ref].expiresAt)
    ensures ref in RunFrom(s, es).approvals && RunFrom(s, es).approvals[ref] == s.approvals[ref]
  {
    if es == [] {
    } else {
      UntouchedApprovalSurvives(s, es[..|es| - 1], ref);
      UntouchedApprovalStays(RunFrom(s, es[..|es| - 1]), es[|es| - 1], ref);
    }
  }

  /** An action that names the stored owner and candidate of an approval. */
  function ActionFor(a: Approval): Action {
    Action(Some(0), "create_task", a.tenant, a.subject, seq(64, _ => '0'), Some(a.candidate), Some(a.revision), Some(0))
  }

  lemma ScopeTextIsStripped(value: string)
    ensures ScopeText(value).Some? ==> IsStripped(ScopeText(value).value)
    ensures ScopeText(value).Some? ==> (ScopeText(value).value == value <==> IsStripped(value))
  {
    StripMeaning(value);
  }

  lemma ActionForHasBinding(a: Approval)
    requires ScopeText(a.tenant) == Some(a.tenant) && ScopeText(a.subject) == Some(a.subject) && a.revision >= 1
    ensures ActionBinding(ActionFor(a)) == Ok(Binding(0, a.tenant, a.subject, ActionFor(a).digest, a.candidate, a.revision))
  {
    var digest, kind := ActionFor(a).digest, "create_task";
    StripMeaning(digest);
    StripMeaning(kind);
    assert IsDigest(digest);
  }

  /** The owner of an approval, as it is stored, is text that a binding can carry and a comparison can read. */
  predicate OwnerIsPlain(a: Approval) {
    IsAscii(a.tenant) && IsAscii(a.subject) && IsStripped(a.tenant) && IsStripped(a.subject)
  }

  /** A stored owner that is not ASCII matches no binding at all: the comparison raises or fails. */
  lemma NonAsciiOwnerIsNeverConfirmed(s: Ledger, ref: string, b: Binding, now: int)
    requires ref in s.approvals && !(IsAscii(s.approvals[ref].tenant) && IsAscii(s.approvals[ref].subject))
    ensures VerifyStep(s, ref, b, now).1 != Confirmed && VerifyStep(s, ref, b, now).0 == s
  {
  }

  /** Nobody can confirm an approval whose stored owner is padded or not ASCII: no action has a binding that matches it. */
  lemma OtherOwnersAreNeverConfirmed(s: Ledger, ref: string, a: Action, now: int)
    requires ref in s.approvals && !OwnerIsPlain(s.approvals[ref])
    ensures VerifyConfirmationStep(s, ref, a, now).1 != Ok(Confirmed) && VerifyConfirmationStep(s, ref, a, now).0 == s
  {
    ScopeTextIsStripped(a.tenant);
    ScopeTextIsStripped(a.subject);
    if ActionBinding(a).Ok? && !(IsAscii(s.approvals[ref].tenant) && IsAscii(s.approvals[ref].subject)) {
      NonAsciiOwnerIsNeverConfirmed(s, ref, ActionBinding(a).value, now);
    }
  }

  /** The owner texts a caller may pass and still not be able to use the approval. */
  lemma UnusableOwnersAreAccepted()
    ensures ScopeText("t ") == Some("t") && ScopeText("\U{00E9}") == Some("\U{00E9}") && ScopeText("u") == Some("u")
    ensures !IsStripped("t ") && IsAscii("t ") && !IsAscii("\U{00E9}") && IsStripped("\U{00E9}")
  {
    StripMeaning("u");
    StripMeaning("\U{00E9}");
    assert "t "[..1] == "t" && StripRight("t") == "t";
    assert StripRight("t ") == StripRight("t");
    assert StripLeft("t ") == "t ";
    assert '\U{00E9}' in "\U{00E9}";
  }

  /**
    Such approvals are issued: for a padded owner and for one that is not ASCII, the issue on an empty ledger succeeds,
    and no action is confirmed for the approval at any moment.
   */
  lemma UnusableApprovalsAreIssued(tenant: string)
    requires tenant == "t " || tenant == "\U{00E9}"
    ensures var (issued, error) := IssueApprovalStep(EMPTY, "ref", tenant, "u", 7, 1, 0, 300);
            && error == None && "ref" in issued.approvals
            && forall a, now :: VerifyConfirmationStep(issued, "ref", a, now).1 != Ok(Confirmed)
  {
    UnusableOwnersAreAccepted();
    var issued := IssueApprovalStep(EMPTY, "ref", tenant, "u", 7, 1, 0, 300).0;
    forall a, now
      ensures VerifyConfirmationStep(issued, "ref", a, now).1 != Ok(Confirmed)
    {
      OtherOwnersAreNeverConfirmed(issued, "ref", a, now);
    }
  }

  /**
    Exactly which issued approvals can be used.  Whatever happened to other references since, some action is
    confirmed at a moment before the expiry if and only if tenant and subject were given in ASCII and without
    surrounding white space.
   */
  lemma IssuedApprovalIsUsableIff(s: Ledger, ref: string, tenant: string, subject: string, candidate: Uuid, revision: int,
                                  issued: int, expiresAt: int, es: seq<Event>, verified: int)
    requires IssueApprovalStep(s, ref, tenant, subject, candidate, revision, issued, expiresAt).1 == None
    requires forall i | 0 <= i < |es| :: !(es[i].Verify? && es[i].ref == ref) && (es[i].Issue? ==> es[i].now < expiresAt)
    requires verified < expiresAt
    ensures var start := IssueApprovalStep(s, ref, tenant, subject, candidate, revision, issued, expiresAt).0;
            (exists a :: VerifyConfirmationStep(RunFrom(start, es), ref, a, verified).1 == Ok(Confirmed))
            <==> IsAscii(tenant) && IsAscii(subject) && IsStripped(tenant) && IsStripped(subject)
  {
    var start := IssueApprovalStep(s, ref, tenant, subject, candidate, revision, issued, expiresAt).0;
    UntouchedApprovalSurvives(start, es, ref);
    var now := RunFrom(start, es);
    var row := now.approvals[ref];
    ScopeTextIsStripped(tenant);
    ScopeTextIsStripped(subject);
    if OwnerIsPlain(row) {
      ActionForHasBinding(row);
      assert VerifyConfirmationStep(now, ref, ActionFor(row), verified).1 == Ok(Confirmed);
    } else {
      forall a
        ensures VerifyConfirmationStep(now, ref, a, verified).1 != Ok(Confirmed)
      {
        OtherOwnersAreNeverConfirmed(now, ref, a, verified);
      }
    }
  }

  /** An unbound, unexpired approval for a plain owner is confirmed for a binding that names it, and then lets a new action through. */
  lemma UnboundApprovalWorks(s: Ledger, ref: string, b: Binding, verified: int, payload: string, claimed: int)
    requires IsAscii(b.tenant) && IsAscii(b.subject) && ref in s.approvals
    requires var row := s.approvals[ref];
             (row.tenant, row.subject, row.candidate, row.revision, row.bound) == (b.tenant, b.subject, b.candidate, b.revision, None)
             && verified < row.expiresAt
    ensures var (after, verdict) := VerifyStep(s, ref, b, verified);
            verdict == Confirmed && (b.action !in after.operations ==> ClaimStep(after, ref, b, payload, claimed).1 == Dispatched)
  {
  }

  /**
    The way through: an approval issued for the owner and candidate of an action's binding is confirmed for it at
    any moment before its expiry, whatever happened to other references in between, and a new action is
    then dispatched.
   */
  lemma IssuedApprovalWorks(s: Ledger, ref: string, a: Action, issued: int, expiresAt: int, es: seq<Event>,
                            verified: int, payload: string, claimed: int)
    requires ActionBinding(a).Ok? && IsAscii(ActionBinding(a).value.tenant) && IsAscii(ActionBinding(a).value.subject)
    requires var b := ActionBinding(a).value;
             IssueApprovalStep(s, ref, b.tenant, b.subject, b.candidate, b.revision, issued, expiresAt).1 == None
    requires forall i | 0 <= i < |es| :: !(es[i].Verify? && es[i].ref == ref) && (es[i].Issue? ==> es[i].now < expiresAt)
    requires verified < expiresAt
    ensures var b := ActionBinding(a).value;
            var start := IssueApprovalStep(s, ref, b.tenant, b.subject, b.candidate, b.revision, issued, expiresAt).0;
            var (after, verdict) := VerifyConfirmationStep(RunFrom(start, es), ref, a, verified);
            && verdict == Ok(Confirmed)
            && (b.action !in after.operations ==> ClaimStep(after, ref, b, payload, claimed).1 == Dispatched)
  {
    var b := ActionBinding(a).value;
    var start := IssueApprovalStep(s, ref, b.tenant, b.subject, b.candidate, b.revision, issued, expiresAt).0;
    UntouchedApprovalSurvives(start, es, ref);
    UnboundApprovalWorks(RunFrom(start, es), ref, b, verified, payload, claimed);
  }

  // ---- results over runs ----

  /** The columns of a row that are written once, at its first claim. */
  function FixedColumns(row: Operation): (string, string, string, string, int) {
    (row.tenant, row.subject, row.digest, row.action, row.createdAt)
  }

  lemma RowPersistsInStep(s: Ledger, e: Event, a: Uuid)
    requires a in s.operations
    ensures a in Step(s, e).operations && FixedColumns(Step(s, e).operations[a]) == FixedColumns(s.operations[a])
  {
  }

  /** No run drops a row or changes its owner, digest, encrypted action or creation time. */
  lemma {:induction false} RowPersists(s: Ledger, es: seq<Event>, a: Uuid)
    requires a in s.operations
    ensures a in RunFrom(s, es).operations
    ensures FixedColumns(RunFrom(s, es).operations[a]) == FixedColumns(s.operations[a])
  {
    if es == [] {
    } else {
      RowPersists(s, es[..|es| - 1], a);
      RowPersistsInStep(RunFrom(s, es[..|es| - 1]), es[|es| - 1], a);
    }
  }

  /** A succeeded operation is frozen: no run changes any column of its row. */
  lemma {:induction false} SucceededIsFrozen(s: Ledger, es: seq<Event>, a: Uuid)
    requires Invariant(s) && a in s.operations && s.operations[a].status == Succeeded
    ensures a in RunFrom(s, es).operations && RunFrom(s, es).operations[a] == s.operations[a]
  {
    if es == [] {
    } else {
      SucceededIsFrozen(s, es[..|es| - 1], a);
    }
  }

  predicate Completes(s: Ledger, e: Event, a: Uuid) {
    e.Complete? && e.action == a && CompleteStep(s, a, e.digest, e.result, e.now).1
  }

  predicate Dispatches(s: Ledger, e: Event, a: Uuid) {
    e.Claim? && e.binding.action == a && ClaimStep(s, e.ref, e.binding, e.payload, e.now).1 == Dispatched
  }

  /** How often operation `a` was completed. */
  function Completions(es: seq<Event>, a: Uuid): nat {
    if es == [] then 0 else
      var n := |es| - 1;
      Completions(es[..n], a) + if Completes(Run(es[..n]), es[n], a) then 1 else 0
  }

  /** How many claims of `a` were answered with a dispatch and not with a replay. */
  function DispatchCount(es: seq<Event>, a: Uuid): nat {
    if es == [] then 0 else
      var n := |es| - 1;
      DispatchCount(es[..n], a) + if Dispatches(Run(es[..n]), es[n], a) then 1 else 0
  }

  function Attempts(s: Ledger, a: Uuid): nat {
    if a in s.operations then s.operations[a].attempts else 0
  }

  predicate HasSucceeded(s: Ledger, a: Uuid) {
    a in s.operations && s.operations[a].status == Succeeded
  }

  lemma CountersInStep(s: Ledger, e: Event, a: Uuid)
    requires a in s.operations ==> Settled(s.operations[a])
    ensures Attempts(Step(s, e), a) == Attempts(s, a) + if Dispatches(s, e, a) then 1 else 0
    ensures HasSucceeded(Step(s, e), a) <==> HasSucceeded(s, a) || Completes(s, e, a)
    ensures !(HasSucceeded(s, a) && Completes(s, e, a))
  {
  }

  /** The attempt counter counts dispatches, and an operation is completed once if it succeeded and never otherwise. */
  lemma {:induction false} CountersAreExact(es: seq<Event>, a: Uuid)
    ensures Attempts(Run(es), a) == DispatchCount(es, a)
    ensures Completions(es, a) == if HasSucceeded(Run(es), a) then 1 else 0
  {
    if es == [] {
    } else {
      var n := |es| - 1;
      CountersAreExact(es[..n], a);
      RunKeepsInvariant(es[..n]);
      RunOfSnoc(es);
      CountersInStep(Run(es[..n]), es[n], a);
    }
  }

  ghost predicate CompletedAt(es: seq<Event>, i: nat, a: Uuid, result: string)
    requires i < |es|
  {
    es[i].Complete? && es[i].action == a && es[i].result == result
    && CompleteStep(Run(es[..i]), a, es[i].digest, result, es[i].now).1
  }

  /**
    After a completion, every later claim that names the same owner and pair under a confirmed reference
    replays exactly the completed result and changes nothing.
   */
  lemma LaterClaimsReplay(es: seq<Event>, i: nat, result: string, ref: string, b: Binding, payload: string, now: int)
    requires i < |es| && CompletedAt(es, i, b.action, result)
    requires Approved(Run(es), ref, Pair(b.action, b.digest))
    requires var row := Run(es[..i]).operations[b.action];
             row.digest == b.digest && SameOwner(row.tenant, row.subject, b) == Some(true)
    ensures ClaimStep(Run(es), ref, b, payload, now) == (Run(es), Replayed(result))
  {
    RunKeepsInvariant(es[..i + 1]);
    assert es[..i + 1][..i] == es[..i];
    RunSplit(EMPTY, es, i + 1);
    SucceededIsFrozen(Run(es[..i + 1]), es[i + 1..], b.action);
  }

  /** And a replay never answers anything else: what it returns was completed earlier in the run. */
  lemma {:induction false} ReplaysWereCompleted(es: seq<Event>, a: Uuid)
    requires a in Run(es).operations && Run(es).operations[a].result.Some?
    ensures exists i: nat :: i < |es| && CompletedAt(es, i, a, Run(es).operations[a].result.value)
  {
    var n := |es| - 1;
    var init := es[..n];
    var result := Run(es).operations[a].result.value;
    if a in Run(init).operations && Run(init).operations[a].result == Some(result) {
      ReplaysWereCompleted(init, a);
      var i: nat :| i < n && CompletedAt(init, i, a, result);
      assert init[..i] == es[..i];
      assert CompletedAt(es, i, a, result);
    } else {
      assert CompletedAt(es, n, a, result);
    }
  }

  // ---- overlapping claims ----

  /** The row of the claimed action belongs to the claimant, under the claimed digest. */
  predicate OwnsRow(s: Ledger, b: Binding) {
    && b.action in s.operations && s.operations[b.action].digest == b.digest
    && SameOwner(s.operations[b.action].tenant, s.operations[b.action].subject, b) == Some(true)
  }

  /**
    In every reachable ledger a claim is dispatched exactly when it is approved and its action is new, or is the
    claimant's own and has not succeeded.  That the action may be running does not matter.
   */
  lemma DispatchedIff(es: seq<Event>, ref: string, b: Binding, payload: string, now: int)
    ensures var s := Run(es);
            ClaimStep(s, ref, b, payload, now).1 == Dispatched
            <==> && Approved(s, ref, Pair(b.action, b.digest))
                 && (b.action !in s.operations || (OwnsRow(s, b) && !HasSucceeded(s, b.action)))
  {
    RunKeepsInvariant(es);
  }

  lemma ClaimKeepsRunning(s: Ledger, e: Event)
    requires e.Claim? && Approved(s, e.ref, Pair(e.binding.action, e.binding.digest))
    requires OwnsRow(s, e.binding) && IsRunning(s, e.binding.action, e.binding.digest)
    ensures Dispatches(s, e, e.binding.action)
    ensures Approved(Step(s, e), e.ref, Pair(e.binding.action, e.binding.digest))
    ensures OwnsRow(Step(s, e), e.binding) && IsRunning(Step(s, e), e.binding.action, e.binding.digest)
  {
  }

  /** So while an action is running, every matching claim dispatches it once more, any number of times. */
  lemma {:induction false} RunningActionIsDispatchedAgain(es: seq<Event>, claims: seq<Event>, ref: string, b: Binding)
    requires Approved(Run(es), ref, Pair(b.action, b.digest)) && OwnsRow(Run(es), b) && IsRunning(Run(es), b.action, b.digest)
    requires forall i | 0 <= i < |claims| :: claims[i].Claim? && claims[i].ref == ref && claims[i].binding == b
    ensures DispatchCount(es + claims, b.action) == DispatchCount(es, b.action) + |claims|
    ensures Approved(Run(es + claims), ref, Pair(b.action, b.digest)) && OwnsRow(Run(es + claims), b)
    ensures IsRunning(Run(es + claims), b.action, b.digest)
  {
    if claims == [] {
      assert es + claims == es;
    } else {
      var n := |claims| - 1;
      var init := es + claims[..n];
      assert (es + claims)[..|es + claims| - 1] == init;
      RunningActionIsDispatchedAgain(es, claims[..n], ref, b);
      RunOfSnoc(es + claims);
      ClaimKeepsRunning(Run(init), claims[n]);
    }
  }

  /** An instance: issued, verified and claimed twice, an action has been handed out twice and completed by nobody. */
  lemma OverlappingDispatch()
    ensures var b := Binding(1, "t", "u", "d", 7, 1);
            var es := [Issue("ref", "t", "u", 7, 1, 0, 300), Verify("ref", b, 1), Claim("ref", b, "p", 2), Claim("ref", b, "p", 3)];
            DispatchCount(es, 1) == 2 && Completions(es, 1) == 0 && IsRunning(Run(es), 1, "d")
  {
    var b := Binding(1, "t", "u", "d", 7, 1);
    var first := [Issue("ref", "t", "u", 7, 1, 0, 300), Verify("ref", b, 1), Claim("ref", b, "p", 2)];
    var again := [Claim("ref", b, "p", 3)];
    assert first[..2][..1][..0] == [] && first[..2][..1] == [first[0]] && first[..2] == [first[0], first[1]];
    RunOfSnoc(first);
    RunOfSnoc(first[..2]);
    RunOfSnoc(first[..2][..1]);
    assert DispatchCount(first[..2], 1) == 0 by {
      CountersAreExact(first[..2], 1);
    }
    CountersAreExact(first, 1);
    RunningActionIsDispatchedAgain(first, again, "ref", b);
    assert first + again == [Issue("ref", "t", "u", 7, 1, 0, 300), Verify("ref", b, 1), Claim("ref", b, "p", 2), Claim("ref", b, "p", 3)];
    CountersAreExact(first + again, 1);
  }

  // ---- what a confirmation is of ----

  /** What an event does to the approval of one reference. */
  datatype Fate = Kept | Issued(e: Event) | Removed

  /** An accepted issue stores its own approval and removes every other that has expired unbound. */
  function FateOf(s: Ledger, e: Event, ref: string): Fate {
    if !e.Issue? || !IssueStep(s, e.ref, e.tenant, e.subject, e.candidate, e.revision, e.now, e.expiresAt).1 then Kept
    else if e.ref == ref then Issued(e)
    else if ref in s.approvals && s.approvals[ref].bound.None? && s.approvals[ref].expiresAt <= e.now then Removed
    else Kept
  }

  function Fates(es: seq<Event>, ref: string): seq<Fate> {
    if es == [] then [] else
      var n := |es| - 1;
      Fates(es[..n], ref) + [FateOf(Run(es[..n]), es[n], ref)]
  }

  /** The approval is the one that event issued, but for its binding. */
  predicate AsIssued(a: Approval, e: Event) {
    && e.Issue?
    && (a.tenant, a.subject, a.candidate, a.revision, a.createdAt, a.expiresAt)
       == (e.tenant, e.subject, e.candidate, e.revision, e.now, e.expiresAt)
  }

  lemma ApprovalInStep(s: Ledger, e: Event, ref: string)
    ensures var after := Step(s, e).approvals;
            match FateOf(s, e, ref)
            case Kept => (ref in after <==> ref in s.approvals)
                         && (ref in after ==> after[ref].(bound := s.approvals[ref].bound, verifiedAt := s.approvals[ref].verifiedAt) == s.approvals[ref])
            case Issued(x) => x == e && ref in after && AsIssued(after[ref], e) && after[ref].bound == None
            case Removed => ref !in after
  {
  }

  /** Event `i` issued the approval, and it has been kept since. */
  ghost predicate KeptSince(fates: seq<Fate>, i: nat) {
    i < |fates| && fates[i].Issued? && fates[i].e.Issue? && forall j | i < j < |fates| :: fates[j] == Kept
  }

  /** No issue of it, or a removal since. */
  ghost predicate NotStored(fates: seq<Fate>) {
    forall i | 0 <= i < |fates| && fates[i].Issued? :: exists j :: i < j < |fates| && fates[j] != Kept
  }

  lemma NextFate(fates: seq<Fate>, fate: Fate, i: nat)
    ensures KeptSince(fates, i) && fate == Kept ==> KeptSince(fates + [fate], i) && (fates + [fate])[i] == fates[i]
    ensures NotStored(fates) && !fate.Issued? ==> NotStored(fates + [fate])
    ensures fate == Removed ==> NotStored(fates + [fate])
  {
    var longer := fates + [fate];
    assert forall x | 0 <= x < |fates| :: longer[x] == fates[x];
    assert longer[|fates|] == fate;
    if NotStored(fates) && !fate.Issued? {
      forall x | 0 <= x < |longer| && longer[x].Issued?
        ensures exists j :: x < j < |longer| && longer[j] != Kept
      {
        var j :| x < j < |fates| && fates[j] != Kept;
        assert longer[j] != Kept;
      }
    }
  }

  /** A stored approval is exactly an issued one that has been kept: nothing else creates, removes or rewrites it. */
  lemma {:induction false} ApprovalStemsFromIssue(es: seq<Event>, ref: string) returns (i: nat)
    ensures ref in Run(es).approvals ==> KeptSince(Fates(es, ref), i) && AsIssued(Run(es).approvals[ref], Fates(es, ref)[i].e)
    ensures ref !in Run(es).approvals ==> NotStored(Fates(es, ref))
  {
    if es == [] {
      i := 0;
    } else {
      var n := |es| - 1;
      RunOfSnoc(es);
      i := ApprovalStemsFromIssue(es[..n], ref);
      var fate := FateOf(Run(es[..n]), es[n], ref);
      ApprovalInStep(Run(es[..n]), es[n], ref);
      NextFate(Fates(es[..n], ref), fate, i);
      if fate.Issued? {
        i := |Fates(es[..n], ref)|;
      }
    }
  }

  /** What `fates` records of an event. */
  lemma {:induction false} FateAt(es: seq<Event>, ref: string, j: nat)
    ensures |Fates(es, ref)| == |es|
    ensures j < |es| ==> Fates(es, ref)[j] == FateOf(Run(es[..j]), es[j], ref)
  {
    if es == [] {
    } else {
      var n := |es| - 1;
      FateAt(es[..n], ref, j);
      if j < n {
        assert es[..n][..j] == es[..j];
      }
    }
  }

  /** Event `i` of the run is the accepted issue of `ref` for that owner, candidate and revision, and stands until the end. */
  ghost predicate IssuedFor(es: seq<Event>, i: nat, ref: string, b: Binding) {
    && i < |es| && es[i].Issue? && |Fates(es, ref)| == |es| && KeptSince(Fates(es, ref), i)
    && es[i].ref == ref
    && (es[i].tenant, es[i].subject, es[i].candidate, es[i].revision) == (b.tenant, b.subject, b.candidate, b.revision)
  }

  lemma ConfirmedOfRow(s: Ledger, ref: string, b: Binding, now: int)
    requires ref in s.approvals
    ensures var row := s.approvals[ref];
            VerifyStep(s, ref, b, now).1 == Confirmed
            <==> && (row.tenant, row.subject, row.candidate, row.revision) == (b.tenant, b.subject, b.candidate, b.revision)
                 && now < row.expiresAt && IsAscii(b.tenant) && IsAscii(b.subject)
                 && (row.bound.Some? ==> row.bound.value == Pair(b.action, b.digest))
  {
  }

  lemma OneKeptIssue(fates: seq<Fate>, i: nat, k: nat)
    requires KeptSince(fates, i) && KeptSince(fates, k)
    ensures i == k
  {
  }

  lemma NotBoth(fates: seq<Fate>, i: nat)
    requires NotStored(fates)
    ensures !KeptSince(fates, i)
  {
  }

  /** A reference is bound to another pair exactly if one was confirmed. */
  lemma OtherPairsConfirmed(es: seq<Event>, ref: string, own: Pair)
    ensures ref in Run(es).approvals && Run(es).approvals[ref].bound.Some? && Run(es).approvals[ref].bound.value != own
            <==> exists j: nat, pair :: j < |es| && ConfirmedAt(es, j, ref, pair) && pair != own
  {
    if ref in Run(es).approvals && Run(es).approvals[ref].bound.Some? {
      BoundIffConfirmed(es, ref, Run(es).approvals[ref].bound.value);
    }
    forall j: nat, pair | j < |es| && ConfirmedAt(es, j, ref, pair)
      ensures Approved(Run(es), ref, pair)
    {
      BoundIffConfirmed(es, ref, pair);
    }
  }

  /**
    Exactly when a verification is confirmed, in any run: the approval was issued for just that owner, candidate and
    revision and has been kept since, both owner texts are ASCII, the moment is before the expiry, and the
    reference has not been confirmed for another pair.
   */
  lemma ConfirmedIff(es: seq<Event>, ref: string, b: Binding, now: int)
    ensures VerifyStep(Run(es), ref, b, now).1 == Confirmed
            <==> && (exists i: nat :: IssuedFor(es, i, ref, b) && now < es[i].expiresAt)
                 && IsAscii(b.tenant) && IsAscii(b.subject)
                 && !exists j: nat, pair :: j < |es| && ConfirmedAt(es, j, ref, pair) && pair != Pair(b.action, b.digest)
  {
    var i := ApprovalStemsFromIssue(es, ref);
    OtherPairsConfirmed(es, ref, Pair(b.action, b.digest));
    FateAt(es, ref, i);
    if ref in Run(es).approvals {
      assert es[i] == Fates(es, ref)[i].e;
      forall k: nat | IssuedFor(es, k, ref, b)
        ensures k == i
      {
        OneKeptIssue(Fates(es, ref), i, k);
      }
      ConfirmedOfRow(Run(es), ref, b, now);
    } else {
      forall k: nat
        ensures !IssuedFor(es, k, ref, b)
      {
        NotBoth(Fates(es, ref), k);
      }
    }
  }

  // ---- whom a claim answers ----

  /** In every reachable ledger a result is replayed exactly to an approved claim of the row's own owner and digest, after success. */
  lemma ReplayedIff(es: seq<Event>, ref: string, b: Binding, payload: string, now: int, result: string)
    ensures var s := Run(es);
            ClaimStep(s, ref, b, payload, now).1 == Replayed(result)
            <==> && Approved(s, ref, Pair(b.action, b.digest)) && OwnsRow(s, b) && HasSucceeded(s, b.action)
                 && s.operations[b.action].result == Some(result)
  {
    RunKeepsInvariant(es);
  }

  /** An approved claim conflicts exactly when the row is another owner's or carries another digest, as far as texts compare. */
  lemma ConflictIff(s: Ledger, ref: string, b: Binding, payload: string, now: int)
    ensures ClaimStep(s, ref, b, payload, now).1 == IdempotencyConflict
            <==> && Approved(s, ref, Pair(b.action, b.digest)) && b.action in s.operations
                 && SameOwner(s.operations[b.action].tenant, s.operations[b.action].subject, b).Some? && !OwnsRow(s, b)
    ensures b.action in s.operations ==>
              (OwnsRow(s, b) <==>
                var row := s.operations[b.action];
                (row.tenant, row.subject, row.digest) == (b.tenant, b.subject, b.digest) && IsAscii(b.tenant) && IsAscii(b.subject))
  {
  }

  /** Event `i` is the dispatched claim that made the row. */
  ghost predicate ClaimedFirst(es: seq<Event>, i: nat, a: Uuid, row: Operation) {
    && i < |es| && es[i].Claim? && es[i].binding.action == a && Dispatches(Run(es[..i]), es[i], a) && a !in Run(es[..i]).operations
    && FixedColumns(row) == (es[i].binding.tenant, es[i].binding.subject, es[i].binding.digest, es[i].payload, es[i].now)
  }

  lemma NewRowIsClaims(s: Ledger, e: Event, a: Uuid)
    requires a in Step(s, e).operations && a !in s.operations
    ensures e.Claim? && e.binding.action == a && Dispatches(s, e, a)
    ensures FixedColumns(Step(s, e).operations[a]) == (e.binding.tenant, e.binding.subject, e.binding.digest, e.payload, e.now)
  {
  }

  /** Every row is its first claim's: owner, digest, encrypted action and creation time. */
  lemma {:induction false} RowIsFirstClaims(es: seq<Event>, a: Uuid) returns (i: nat)
    requires a in Run(es).operations
    ensures ClaimedFirst(es, i, a, Run(es).operations[a])
  {
    assert es != [];
    var n := |es| - 1;
    RunOfSnoc(es);
    if a in Run(es[..n]).operations {
      i := RowIsFirstClaims(es[..n], a);
      RowPersistsInStep(Run(es[..n]), es[n], a);
      assert es[..n][..i] == es[..i];
    } else {
      NewRowIsClaims(Run(es[..n]), es[n], a);
      i := n;
    }
  }

  // ---- failures and restarts ----

  /** The event gives a running row that error. */
  predicate Reports(s: Ledger, e: Event, a: Uuid, error: string) {
    && a in s.operations && s.operations[a].status == Running
    && ((e.Fail? && e.action == a && e.digest == s.operations[a].digest && e.error == error)
        || (e.Restart? && error == "bff_restart_after_dispatch"))
  }

  /** The event does not touch the error column of the row. */
  predicate UnchangedError(s: Ledger, e: Event, a: Uuid)
    requires a in s.operations
  {
    Step(s, e).operations[a].error == s.operations[a].error
  }

  lemma ErrorInStep(s: Ledger, e: Event, a: Uuid, error: string)
    requires a in s.operations
    ensures Step(s, e).operations[a].error == Some(error)
            <==> Reports(s, e, a, error) || (s.operations[a].error == Some(error) && UnchangedError(s, e, a))
  {
  }

  lemma NewRowHasNoError(s: Ledger, e: Event, a: Uuid)
    requires a in Step(s, e).operations && a !in s.operations
    ensures Step(s, e).operations[a].error == None
  {
  }

  /** An error is one that a failure reported, or the restart's own, while the action was running. */
  lemma {:induction false} ErrorsWereReported(es: seq<Event>, a: Uuid, error: string)
    requires a in Run(es).operations && Run(es).operations[a].error == Some(error)
    ensures exists j: nat :: j < |es| && Reports(Run(es[..j]), es[j], a, error)
  {
    assert es != [];
    var n := |es| - 1;
    RunOfSnoc(es);
    if a in Run(es[..n]).operations {
      ErrorInStep(Run(es[..n]), es[n], a, error);
      if !Reports(Run(es[..n]), es[n], a, error) {
        ErrorsWereReported(es[..n], a, error);
        var j: nat :| j < n && Reports(Run(es[..n][..j]), es[..n][j], a, error);
        assert es[..n][..j] == es[..j];
      }
    } else {
      NewRowHasNoError(Run(es[..n]), es[n], a);
    }
  }

  /** A restart leaves nothing running, touches only what was, and keeps every approval. */
  lemma RestartSweeps(s: Ledger, now: int, a: Uuid)
    ensures RestartStep(s, now).approvals == s.approvals && (a in RestartStep(s, now).operations <==> a in s.operations)
    ensures a in s.operations ==>
              var before, after := s.operations[a], RestartStep(s, now).operations[a];
              && after.status != Running && (before.status != Running ==> after == before)
              && (before.status == Running ==>
                    after.status == RetryWait && after.error == Some("bff_restart_after_dispatch") && after.updatedAt == now
                    && after.attempts == before.attempts && after.result == before.result && FixedColumns(after) == FixedColumns(before))
  {
  }

  lemma ChangedRowIsStamped(s: Ledger, e: Event, a: Uuid)
    requires a in Step(s, e).operations
    ensures (a in s.operations && Step(s, e).operations[a] == s.operations[a]) || Step(s, e).operations[a].updatedAt == e.now
  {
  }

  /** Every row shows the instant of the last event that changed it: since then it has been as it is. */
  lemma {:induction false} UpdatedAtIsLastChange(es: seq<Event>, a: Uuid) returns (i: nat)
    requires a in Run(es).operations
    ensures i < |es| && es[i].now == Run(es).operations[a].updatedAt
    ensures forall j | i < j <= |es| :: a in Run(es[..j]).operations && Run(es[..j]).operations[a] == Run(es).operations[a]
  {
    assert es != [];
    var n := |es| - 1;
    var init := es[..n];
    ChangedRowIsStamped(Run(init), es[n], a);
    assert es[..|es|] == es;
    if a in Run(init).operations && Run(es).operations[a] == Run(init).operations[a] {
      i := UpdatedAtIsLastChange(init, a);
      assert forall j | i < j <= n :: init[..j] == es[..j];
    } else {
      i := n;
    }
  }

  /** Completing and failing find exactly the running row with that digest; what they find is as they say afterwards. */
  lemma OutcomeIff(s: Ledger, a: Uuid, digest: string, result: string, error: string, now: int)
    ensures var running := a in s.operations && s.operations[a].digest == digest && s.operations[a].status == Running;
            && (CompleteStep(s, a, digest, result, now).1 <==> running)
            && (running ==>
                  var done, failed := CompleteStep(s, a, digest, result, now).0.operations[a], FailStep(s, a, digest, error, now).operations[a];
                  && (done.status, done.result, done.error, done.updatedAt) == (Succeeded, Some(result), None, now)
                  && (failed.status, failed.result, failed.error, failed.updatedAt) == (RetryWait, s.operations[a].result, Some(error), now))
            && (!running ==> CompleteStep(s, a, digest, result, now).0 == s && FailStep(s, a, digest, error, now) == s)
  {
  }

  // ---- exactly what is issued and bound ----

  /** An issue is rolled back exactly when its reference is stored and does not go in the clean-up; otherwise exactly the expired unbound ones go. */
  lemma IssuedIff(s: Ledger, ref: string, tenant: string, subject: string, candidate: Uuid, revision: int, now: int, expiresAt: int, other: string)
    ensures var (after, issued) := IssueStep(s, ref, tenant, subject, candidate, revision, now, expiresAt);
            && (issued <==> ref in s.approvals ==> s.approvals[ref].bound == None && s.approvals[ref].expiresAt <= now)
            && (!issued ==> after == s) && after.operations == s.operations
            && (issued ==> ref in after.approvals
                           && after.approvals[ref] == Approval(tenant, subject, candidate, revision, None, now, expiresAt, None))
            && (issued && other != ref ==>
                  (other in after.approvals <==>
                     other in s.approvals && (s.approvals[other].bound.Some? || now < s.approvals[other].expiresAt)))
            && (issued && other != ref && other in after.approvals ==> after.approvals[other] == s.approvals[other])
  {
  }

  /** The text is what stripping leaves of the value, has 1 to 200 characters, and none of them is a space or a control. */
  lemma ScopeTextIff(value: string, text: string)
    ensures ScopeText(value) == Some(text)
            <==> && Strip(value) == text && 1 <= |text| <= 200
                 && forall c | c in text :: c as int >= 33 && c as int != 127
  {
  }

  lemma HexDigits(c: char)
    ensures c in "0123456789abcdef" <==> '0' <= c <= '9' || 'a' <= c <= 'f'
  {
    var hex := "0123456789abcdef";
    if '0' <= c <= '9' {
      assert hex[c as int - '0' as int] == c;
    } else if 'a' <= c <= 'f' {
      assert hex[c as int - 'a' as int + 10] == c;
    }
  }

  /** Exactly which actions have a binding, and which. */
  lemma BindingIff(a: Action, b: Binding)
    ensures ActionBinding(a) == Ok(b)
            <==> && a.parameters.Some? && a.parameters.value <= 20
                 && a.id == Some(b.action) && a.candidate == Some(b.candidate) && a.revision == Some(b.revision) && b.revision >= 1
                 && Strip(a.kind) in ["create_task", "update_task", "knowledge_candidate"]
                 && ScopeText(a.tenant) == Some(b.tenant) && ScopeText(a.subject) == Some(b.subject)
                 && Strip(a.digest) == b.digest && |b.digest| == 64 && forall c | c in b.digest :: c in "0123456789abcdef"
  {
    var hex := "0123456789abcdef";
    forall c: char
      ensures c in hex <==> '0' <= c <= '9' || 'a' <= c <= 'f'
    {
      HexDigits(c);
    }
  }
}
