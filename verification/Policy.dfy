/**
  The policy and delegation decision.  `lower` is `str.lower`; nothing here depends on which function it is.
  Rate limits and revisions are fields that the decision does not read.
 */
module Policy {
  import opened Wrappers
  import opened Text

  type Uuid = nat

  datatype ActionType =
    | Label | Archive | MarkRead | CreateTask | UpdateTask | KnowledgeCandidate | DraftReply | SendReply | Forward | BulkSend

  datatype AutomationLevel = L0Observe | L1Recommend | L2ReviewQueue | L3ABoundedOrganize | L3BBoundedReply | L4HighRisk

  datatype AgentPolicy = AgentPolicy(
    id: Uuid, tenant: string, owner: string, connections: set<Uuid>, folders: set<string>, actions: set<ActionType>,
    domains: set<string>, dataClasses: set<string>, threadOnly: bool, level: AutomationLevel,
    validFrom: int, validUntil: int, enabled: bool)

  datatype Grant = Grant(
    id: Uuid, tenant: string, policy: Uuid, agent: string, capabilities: set<ActionType>,
    grantedAt: int, expiresAt: int, revokedAt: Option<int>)

  datatype Request = Request(
    action: ActionType, tenant: string, agent: string, connection: Option<Uuid>, folder: Option<string>, thread: Option<Uuid>,
    recipients: seq<string>, dataClasses: set<string>, newRecipient: bool, attachment: bool, bcc: bool,
    groupRecipient: bool, externalRecipient: bool, largeRecipientSet: bool, highRiskTerms: bool)

  datatype Reason =
    | PolicyMissing | PolicyDisabled | TenantMismatch | PolicyOwnerMismatch | PolicyExpired | ActionNotAllowed
    | ConnectionNotAllowed | FolderNotAllowed | DataClassNotAllowed | RecipientDomainNotAllowed | ThreadRequired
    | ApprovalRequired | DelegationMissing | DelegationScopeMismatch | DelegationAgentMismatch | DelegationExpired
    | DelegationActionNotAllowed | DelegationAllowed

  datatype Decision = Decision(allowed: bool, reason: Reason, policy: Option<Uuid>, grant: Option<Uuid>,
                               requiredApproval: bool, level: AutomationLevel)

  function Denied(reason: Reason, policy: Option<Uuid>, grant: Option<Uuid>): Decision {
    Decision(false, reason, policy, grant, true, L4HighRisk)
  }

  /** `address.rsplit("@", 1)[-1]` */
  function AfterLastAt(address: string): string {
    if address == "" || address[|address| - 1] == '@' then ""
    else AfterLastAt(address[..|address| - 1]) + [address[|address| - 1]]
  }

  function RecipientDomains(lower: string -> string, recipients: seq<string>): set<string> {
    set a | a in recipients :: lower(AfterLastAt(a))
  }

  predicate InHighRiskGroup(action: ActionType) {
    action in {Forward, BulkSend, CreateTask, UpdateTask, KnowledgeCandidate}
  }

  predicate HighRisk(policy: AgentPolicy, r: Request) {
    var risky :=
      || InHighRiskGroup(r.action)
      || r.newRecipient
      || r.highRiskTerms
      || (r.attachment && r.action == SendReply)
      || (r.bcc && r.action == SendReply)
      || (r.groupRecipient && r.action == SendReply)
      || (r.externalRecipient && r.action == SendReply)
      || (r.largeRecipientSet && r.action == SendReply);
    if r.action == SendReply then
      risky || r.newRecipient || r.highRiskTerms || policy.level != L3BBoundedReply
    else risky
  }

  /** The checks against the policy, in order; the grant matters only for who may act. */
  function PolicyReason(lower: string -> string, policy: AgentPolicy, grant: Option<Grant>, r: Request, now: int): Option<Reason> {
    if !policy.enabled then Some(PolicyDisabled)
    else if policy.tenant != r.tenant then Some(TenantMismatch)
    else if policy.owner != r.agent && !(grant.Some? && grant.value.policy == policy.id && grant.value.agent == r.agent) then
      Some(PolicyOwnerMismatch)
    else if !(policy.validFrom <= now < policy.validUntil) then Some(PolicyExpired)
    else if r.action !in policy.actions then Some(ActionNotAllowed)
    else if policy.connections != {} && (r.connection.None? || r.connection.value !in policy.connections) then
      Some(ConnectionNotAllowed)
    else if policy.folders != {} && (r.folder.None? || r.folder.value !in policy.folders) then Some(FolderNotAllowed)
    else if !(r.dataClasses <= policy.dataClasses) then Some(DataClassNotAllowed)
    else if policy.domains != {} && !(RecipientDomains(lower, r.recipients) <= policy.domains) then
      Some(RecipientDomainNotAllowed)
    else if policy.threadOnly && r.thread.None? then Some(ThreadRequired)
    else None
  }

  /** `evaluate_policy` */
  function Evaluate(lower: string -> string, policy: Option<AgentPolicy>, grant: Option<Grant>, r: Request, now: int): (d: Decision)
    ensures d.allowed <==> d.reason == DelegationAllowed
    ensures d.allowed ==> policy.Some? && grant.Some? && d.policy == Some(policy.value.id) && d.grant == Some(grant.value.id)
                          && d.level == policy.value.level
    ensures d.requiredApproval <==> !d.allowed
    ensures !d.allowed ==> d.level == L4HighRisk
  {
    if policy.None? then Denied(PolicyMissing, None, None)
    else
      var p := policy.value;
      var reason := PolicyReason(lower, p, grant, r, now);
      if reason.Some? then Denied(reason.value, Some(p.id), None)
      else if HighRisk(p, r) then Denied(ApprovalRequired, Some(p.id), if grant.Some? then Some(grant.value.id) else None)
      else if grant.None? then Denied(DelegationMissing, Some(p.id), None)
      else
        var g := grant.value;
        if g.tenant != p.tenant || g.policy != p.id then Denied(DelegationScopeMismatch, Some(p.id), Some(g.id))
        else if g.agent != r.agent then Denied(DelegationAgentMismatch, Some(p.id), Some(g.id))
        else if g.revokedAt.Some? || !(g.grantedAt <= now < g.expiresAt) then Denied(DelegationExpired, Some(p.id), Some(g.id))
        else if r.action !in g.capabilities then Denied(DelegationActionNotAllowed, Some(p.id), Some(g.id))
        else Decision(true, DelegationAllowed, Some(p.id), Some(g.id), false, p.level)
  }

  predicate Allows(lower: string -> string, policy: Option<AgentPolicy>, grant: Option<Grant>, r: Request, now: int) {
    Evaluate(lower, policy, grant, r, now).allowed
  }

  // ---- the exact condition ----

  /** An empty set of connections, folders or domains places no limit. */
  predicate Within<T(==)>(limit: set<T>, values: set<T>) {
    limit == {} || values <= limit
  }

  /** An optional value lies within a limit; a missing one does so only when there is no limit. */
  predicate OptionWithin<T(==)>(limit: set<T>, value: Option<T>) {
    limit == {} || (value.Some? && value.value in limit)
  }

  /** Nothing about the request calls for a human: a reply must be plain, inside the conversation, and on level L3B. */
  predicate Routine(level: AutomationLevel, r: Request) {
    && r.action in {Label, Archive, MarkRead, DraftReply, SendReply}
    && !r.newRecipient && !r.highRiskTerms
    && (r.action == SendReply ==>
          && level == L3BBoundedReply
          && !r.attachment && !r.bcc && !r.groupRecipient && !r.externalRecipient && !r.largeRecipientSet)
  }

  /** The grant hands this policy's authority to the agent. */
  predicate Delegates(policy: AgentPolicy, grant: Grant, r: Request) {
    && grant.policy == policy.id && grant.tenant == policy.tenant == r.tenant && grant.agent == r.agent
    && policy.enabled && grant.revokedAt.None?
    && r.action in policy.actions * grant.capabilities
  }

  predicate InScope(lower: string -> string, policy: AgentPolicy, r: Request) {
    && OptionWithin(policy.connections, r.connection) && OptionWithin(policy.folders, r.folder)
    && Within(policy.domains, RecipientDomains(lower, r.recipients))
    && r.dataClasses <= policy.dataClasses
    && (policy.threadOnly ==> r.thread.Some?)
  }

  function Max(a: int, b: int): int { if a >= b then a else b }

  function Min(a: int, b: int): int { if a <= b then a else b }

  /**
    The decision is positive exactly when the grant delegates the action, the request is in scope and routine,
    and the clock lies where the lifetimes of policy and grant overlap.  Who owns the policy does not matter.
   */
  lemma AllowedIff(lower: string -> string, policy: AgentPolicy, grant: Grant, r: Request, now: int)
    ensures Allows(lower, Some(policy), Some(grant), r, now)
       <==> && Delegates(policy, grant, r) && InScope(lower, policy, r) && Routine(policy.level, r)
            && Max(policy.validFrom, grant.grantedAt) <= now < Min(policy.validUntil, grant.expiresAt)
  {
  }

  /** The policy itself permits the request: it is enabled and in force, the agent may use it, the action is listed and in scope. */
  predicate Permits(lower: string -> string, policy: AgentPolicy, grant: Option<Grant>, r: Request, now: int) {
    && policy.enabled && policy.tenant == r.tenant
    && (policy.owner == r.agent || (grant.Some? && grant.value.policy == policy.id && grant.value.agent == r.agent))
    && policy.validFrom <= now < policy.validUntil
    && r.action in policy.actions && InScope(lower, policy, r)
  }

  /** Human approval is asked for exactly when the policy permits a request that is not routine, whatever the state of the grant. */
  lemma ApprovalRequiredIff(lower: string -> string, policy: AgentPolicy, grant: Option<Grant>, r: Request, now: int)
    ensures Evaluate(lower, Some(policy), grant, r, now).reason == ApprovalRequired
       <==> Permits(lower, policy, grant, r, now) && !Routine(policy.level, r)
  {
  }

  // ---- the reason of a refusal ----

  /** How early a reason is looked at. */
  function Rank(reason: Reason): nat {
    match reason
    case PolicyMissing => 0
    case PolicyDisabled => 1
    case TenantMismatch => 2
    case PolicyOwnerMismatch => 3
    case PolicyExpired => 4
    case ActionNotAllowed => 5
    case ConnectionNotAllowed => 6
    case FolderNotAllowed => 7
    case DataClassNotAllowed => 8
    case RecipientDomainNotAllowed => 9
    case ThreadRequired => 10
    case ApprovalRequired => 11
    case DelegationMissing => 12
    case DelegationScopeMismatch => 13
    case DelegationAgentMismatch => 14
    case DelegationExpired => 15
    case DelegationActionNotAllowed => 16
    case DelegationAllowed => 17
  }

  /** Whether a reason applies to a request, by itself; the positive one always does. */
  predicate Applies(lower: string -> string, policy: Option<AgentPolicy>, grant: Option<Grant>, r: Request, now: int, reason: Reason) {
    match reason
    case PolicyMissing => policy.None?
    case PolicyDisabled => policy.Some? && !policy.value.enabled
    case TenantMismatch => policy.Some? && policy.value.tenant != r.tenant
    case PolicyOwnerMismatch =>
      policy.Some? && policy.value.owner != r.agent
      && (grant.Some? ==> grant.value.policy != policy.value.id || grant.value.agent != r.agent)
    case PolicyExpired => policy.Some? && (now < policy.value.validFrom || policy.value.validUntil <= now)
    case ActionNotAllowed => policy.Some? && r.action !in policy.value.actions
    case ConnectionNotAllowed => policy.Some? && !OptionWithin(policy.value.connections, r.connection)
    case FolderNotAllowed => policy.Some? && !OptionWithin(policy.value.folders, r.folder)
    case DataClassNotAllowed => policy.Some? && exists c | c in r.dataClasses :: c !in policy.value.dataClasses
    case RecipientDomainNotAllowed => policy.Some? && !Within(policy.value.domains, RecipientDomains(lower, r.recipients))
    case ThreadRequired => policy.Some? && policy.value.threadOnly && r.thread.None?
    case ApprovalRequired => policy.Some? && !Routine(policy.value.level, r)
    case DelegationMissing => grant.None?
    case DelegationScopeMismatch =>
      policy.Some? && grant.Some? && (grant.value.tenant, grant.value.policy) != (policy.value.tenant, policy.value.id)
    case DelegationAgentMismatch => grant.Some? && grant.value.agent != r.agent
    case DelegationExpired =>
      grant.Some? && (grant.value.revokedAt.Some? || now < grant.value.grantedAt || grant.value.expiresAt <= now)
    case DelegationActionNotAllowed => grant.Some? && r.action !in grant.value.capabilities
    case DelegationAllowed => true
  }

  lemma GivenReasonApplies(lower: string -> string, policy: Option<AgentPolicy>, grant: Option<Grant>, r: Request, now: int)
    ensures Applies(lower, policy, grant, r, now, Evaluate(lower, policy, grant, r, now).reason)
  {
  }

  lemma EarlierReasonsDoNot(lower: string -> string, policy: Option<AgentPolicy>, grant: Option<Grant>, r: Request, now: int, other: Reason)
    ensures Rank(other) < Rank(Evaluate(lower, policy, grant, r, now).reason) ==> !Applies(lower, policy, grant, r, now, other)
  {
  }

  lemma RankIsInjective(a: Reason, b: Reason)
    ensures Rank(a) == Rank(b) ==> a == b
  {
  }

  /** The reason given is the one of least rank that applies. */
  lemma ReasonIsFirstThatApplies(lower: string -> string, policy: Option<AgentPolicy>, grant: Option<Grant>, r: Request, now: int,
                                 reason: Reason)
    ensures Evaluate(lower, policy, grant, r, now).reason == reason
       <==> && Applies(lower, policy, grant, r, now, reason)
            && forall other | Rank(other) < Rank(reason) :: !Applies(lower, policy, grant, r, now, other)
  {
    var given := Evaluate(lower, policy, grant, r, now).reason;
    GivenReasonApplies(lower, policy, grant, r, now);
    forall other
      ensures Rank(other) < Rank(given) ==> !Applies(lower, policy, grant, r, now, other)
    {
      EarlierReasonsDoNot(lower, policy, grant, r, now, other);
    }
    RankIsInjective(given, reason);
  }

  // ---- monotonicity ----

  predicate WiderLimit<T(==)>(narrow: set<T>, wide: set<T>) {
    wide == {} || (narrow != {} && narrow <= wide)
  }

  /** At least as wide in everything but the automation level. */
  predicate WiderPolicy(p: AgentPolicy, q: AgentPolicy) {
    && q.id == p.id && q.tenant == p.tenant && (p.enabled ==> q.enabled)
    && WiderLimit(p.connections, q.connections) && WiderLimit(p.folders, q.folders) && WiderLimit(p.domains, q.domains)
    && p.actions <= q.actions && p.dataClasses <= q.dataClasses && (q.threadOnly ==> p.threadOnly)
    && q.validFrom <= p.validFrom && p.validUntil <= q.validUntil
  }

  predicate WiderGrant(g: Grant, h: Grant) {
    && h.policy == g.policy && h.tenant == g.tenant && h.agent == g.agent && g.capabilities <= h.capabilities
    && h.grantedAt <= g.grantedAt && g.expiresAt <= h.expiresAt && (g.revokedAt.None? ==> h.revokedAt.None?)
  }

  /** The same action in the same place, with no more recipients, data classes or risk flags. */
  predicate Narrower(s: Request, r: Request) {
    && s.action == r.action && s.tenant == r.tenant && s.agent == r.agent && s.connection == r.connection && s.folder == r.folder
    && (r.thread.Some? ==> s.thread.Some?)
    && (forall a | a in s.recipients :: a in r.recipients) && s.dataClasses <= r.dataClasses
    && (s.newRecipient ==> r.newRecipient) && (s.attachment ==> r.attachment) && (s.bcc ==> r.bcc)
    && (s.groupRecipient ==> r.groupRecipient) && (s.externalRecipient ==> r.externalRecipient)
    && (s.largeRecipientSet ==> r.largeRecipientSet) && (s.highRiskTerms ==> r.highRiskTerms)
  }

  lemma ScopeIsMonotone(lower: string -> string, p: AgentPolicy, q: AgentPolicy, r: Request, s: Request)
    requires WiderPolicy(p, q) && Narrower(s, r) && InScope(lower, p, r)
    ensures InScope(lower, q, s)
  {
    assert RecipientDomains(lower, s.recipients) <= RecipientDomains(lower, r.recipients);
  }

  /**
    Whatever is allowed stays allowed under any wider policy and grant and for any narrower request, exactly
    when the wider policy still sits on level L3B in the case of a reply; for other actions its level is free.
   */
  lemma MonotoneIff(lower: string -> string, p: AgentPolicy, q: AgentPolicy, g: Grant, h: Grant, r: Request, s: Request, now: int)
    requires Allows(lower, Some(p), Some(g), r, now)
    requires WiderPolicy(p, q) && WiderGrant(g, h) && Narrower(s, r)
    ensures Allows(lower, Some(q), Some(h), s, now) <==> (r.action == SendReply ==> q.level == L3BBoundedReply)
  {
    AllowedIff(lower, p, g, r, now);
    AllowedIff(lower, q, h, s, now);
    ScopeIsMonotone(lower, p, q, r, s);
  }

  /** In particular with the level unchanged. */
  lemma Monotone(lower: string -> string, p: AgentPolicy, q: AgentPolicy, g: Grant, h: Grant, r: Request, s: Request, now: int)
    requires Allows(lower, Some(p), Some(g), r, now)
    requires WiderPolicy(p, q) && q.level == p.level && WiderGrant(g, h) && Narrower(s, r)
    ensures Allows(lower, Some(q), Some(h), s, now)
  {
    AllowedIff(lower, p, g, r, now);
    MonotoneIff(lower, p, q, g, h, r, s, now);
  }

  /** The level is no ladder: there is an allowed reply that every policy of another level, higher ones included, refuses. */
  lemma LevelIsNotMonotone(lower: string -> string)
    ensures exists p, g, r, now ::
              && Allows(lower, Some(p), Some(g), r, now)
              && forall level | level != L3BBoundedReply ::
                   Evaluate(lower, Some(p.(level := level)), Some(g), r, now).reason == ApprovalRequired
  {
    var p := AgentPolicy(1, "t", "o", {}, {}, {SendReply}, {}, {}, false, L3BBoundedReply, 0, 2, true);
    var g := Grant(2, "t", 1, "a", {SendReply}, 0, 2, None);
    var r := Request(SendReply, "t", "a", None, None, None, [], {}, false, false, false, false, false, false, false);
    AllowedIff(lower, p, g, r, 1);
    assert Allows(lower, Some(p), Some(g), r, 1);
  }

  // ---- policies as they are built ----

  /** The constructor lowers and strips the domains and drops blank ones. */
  function NormalDomains(lower: string -> string, raw: set<string>): set<string> {
    set d | d in raw && Strip(d) != "" :: Strip(lower(d))
  }

  /** A domain list of nothing but blanks therefore means any domain, exactly like an empty one. */
  lemma NoLimitIffBlank(lower: string -> string, raw: set<string>)
    ensures NormalDomains(lower, raw) == {} <==> forall d | d in raw :: Strip(d) == ""
  {
    if NormalDomains(lower, raw) == {} {
      forall d | d in raw
        ensures Strip(d) == ""
      {
        assert Strip(d) != "" ==> Strip(lower(d)) in NormalDomains(lower, raw);
      }
    }
  }

  /** The domain of an address is what follows its last '@'. */
  lemma {:induction false} DomainOfAddress(local: string, domain: string)
    requires '@' !in domain
    ensures AfterLastAt(local + "@" + domain) == domain
  {
    var address := local + "@" + domain;
    if domain == "" {
    } else {
      var n := |domain| - 1;
      assert address[|address| - 1] == domain[n] && domain[n] in domain;
      assert address[..|address| - 1] == local + "@" + domain[..n];
      DomainOfAddress(local, domain[..n]);
      assert domain[..n] + [domain[n]] == domain;
    }
  }

  /** `domain` is the part of an address behind its last '@', or the whole address without one. */
  predicate IsDomainOf(address: string, domain: string) {
    && '@' !in domain && |domain| <= |address| && address[|address| - |domain|..] == domain
    && (|domain| < |address| ==> address[|address| - |domain| - 1] == '@')
  }

  lemma DropFront(s: string, k: nat)
    requires k < |s|
    ensures s[k..] == s[..|s| - 1][k..] + [s[|s| - 1]]
  {
  }

  lemma {:induction false} AfterLastAtIsDomain(address: string)
    ensures IsDomainOf(address, AfterLastAt(address))
  {
    if address == "" || address[|address| - 1] == '@' {
      assert address[|address|..] == "";
    } else {
      var n := |address| - 1;
      var before := AfterLastAt(address[..n]);
      AfterLastAtIsDomain(address[..n]);
      DropFront(address, n - |before|);
    }
  }

  lemma AtInLonger(address: string, short: string, long: string)
    requires IsDomainOf(address, short) && |short| < |long| <= |address| && address[|address| - |long|..] == long
    ensures '@' in long
  {
    var i := |long| - |short| - 1;
    assert long[i] == address[|address| - |short| - 1];
  }

  lemma OneDomain(address: string, short: string, long: string)
    requires IsDomainOf(address, short) && IsDomainOf(address, long) && |short| <= |long|
    ensures short == long
  {
    if |short| < |long| {
      AtInLonger(address, short, long);
    }
  }

  lemma AfterLastAtIff(address: string, domain: string)
    ensures AfterLastAt(address) == domain <==> IsDomainOf(address, domain)
  {
    var found := AfterLastAt(address);
    AfterLastAtIsDomain(address);
    if IsDomainOf(address, domain) {
      if |found| <= |domain| {
        OneDomain(address, found, domain);
      } else {
        OneDomain(address, domain, found);
      }
    }
  }

  /** Every recipient's domain, lowered, is on the list. */
  ghost predicate DomainsListed(lower: string -> string, domains: set<string>, recipients: seq<string>) {
    forall a, d | a in recipients && IsDomainOf(a, d) :: lower(d) in domains
  }

  lemma DomainsListedIff(lower: string -> string, domains: set<string>, recipients: seq<string>)
    ensures RecipientDomains(lower, recipients) <= domains <==> DomainsListed(lower, domains, recipients)
  {
    forall a, d
      ensures AfterLastAt(a) == d <==> IsDomainOf(a, d)
    {
      AfterLastAtIff(a, d);
    }
    forall a | a in recipients
      ensures lower(AfterLastAt(a)) in RecipientDomains(lower, recipients) && IsDomainOf(a, AfterLastAt(a))
    {
    }
  }

  /** A request that passes every earlier check is refused for its domains exactly when there is a limit and one is not on it. */
  lemma DomainRefusedIff(lower: string -> string, policy: AgentPolicy, grant: Option<Grant>, r: Request, now: int)
    ensures Evaluate(lower, Some(policy), grant, r, now).reason == RecipientDomainNotAllowed
       <==> && (forall other | Rank(other) < 9 :: !Applies(lower, Some(policy), grant, r, now, other))
            && policy.domains != {} && !DomainsListed(lower, policy.domains, r.recipients)
  {
    DomainsListedIff(lower, policy.domains, r.recipients);
    ReasonIsFirstThatApplies(lower, Some(policy), grant, r, now, RecipientDomainNotAllowed);
  }

  /** Every decision names the policy there is, and the grant there is once the policy permits the request. */
  lemma DecisionNames(lower: string -> string, policy: Option<AgentPolicy>, grant: Option<Grant>, r: Request, now: int)
    ensures var d := Evaluate(lower, policy, grant, r, now);
            && d.policy == (if policy.Some? then Some(policy.value.id) else None)
            && d.grant == (if policy.Some? && Permits(lower, policy.value, grant, r, now) && grant.Some? then Some(grant.value.id) else None)
  {
  }

  /**
    With a domain limit, an allowed request mails only addresses whose lowered domain is on the list.
   */
  lemma RecipientsStayOnList(lower: string -> string, policy: AgentPolicy, grant: Grant, r: Request, now: int, local: string, domain: string)
    requires Allows(lower, Some(policy), Some(grant), r, now) && policy.domains != {}
    requires '@' !in domain && local + "@" + domain in r.recipients
    ensures lower(domain) in policy.domains
  {
    AllowedIff(lower, policy, grant, r, now);
    DomainOfAddress(local, domain);
    assert lower(AfterLastAt(local + "@" + domain)) in RecipientDomains(lower, r.recipients);
  }
}
