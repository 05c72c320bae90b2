/**
  Quota leases of the local host store.

  The two tables `host_quota_leases` and `host_quota_usage` are a map and an append-only sequence; one
  transaction is one step.  Instants are microseconds; module IsoTime shows that the ISO texts the
  tables really hold compare the same way.
 */
module Quota {
  import opened Sets
  import opened Text

  const HOUR: int := 3_600_000_000
  const DAY: int := 24 * HOUR
  const LEASE_TTL: int := HOUR

  /** A UUID, as the integer it stands for. */
  type LeaseId = nat

  /** The text of an account's UUID, or the empty string when the caller names no account. */
  type Account = s: string | '|' !in s

  datatype Scope = Scope(tenant: string, subject: string, account: Account)

  datatype Lease = Lease(scope: Scope, operation: string, acquiredAt: int, expiresAt: int)

  datatype UsageRow = UsageRow(scopeKey: string, operation: string, consumedAt: int)

  datatype Tables = Tables(leases: map<LeaseId, Lease>, usage: seq<UsageRow>)

  /** A limit that is not positive is switched off. */
  datatype Limits = Limits(concurrent: int, perHour: int, perDay: int)

  datatype Outcome = Granted | Refused | IdCollision

  const EMPTY: Tables := Tables(map[], [])

  function ScopeKey(s: Scope): string {
    s.tenant + "|" + s.subject + "|" + s.account
  }

  /** The leases a concurrency check counts at `now`. */
  function Live(leases: map<LeaseId, Lease>, scope: Scope, operation: string, now: int): set<LeaseId> {
    set id | id in leases && leases[id].scope == scope && leases[id].operation == operation && leases[id].expiresAt > now
  }

  /** The number of usage rows of one key and operation strictly after `since`. */
  function UsedSince(usage: seq<UsageRow>, key: string, operation: string, since: int): nat {
    if usage == [] then 0 else
      var row := usage[|usage| - 1];
      UsedSince(usage[..|usage| - 1], key, operation, since)
      + if row.scopeKey == key && row.operation == operation && row.consumedAt > since then 1 else 0
  }

  /** Whether the three checks before the insertion all pass. */
  predicate Admits(t: Tables, now: int, scope: Scope, operation: string, limits: Limits) {
    && (limits.concurrent > 0 ==> |Live(t.leases, scope, operation, now)| < limits.concurrent)
    && (limits.perHour > 0 ==> UsedSince(t.usage, ScopeKey(scope), operation, now - HOUR) < limits.perHour)
    && (limits.perDay > 0 ==> UsedSince(t.usage, ScopeKey(scope), operation, now - DAY) < limits.perDay)
  }

  function AcquireStep(t: Tables, now: int, id: LeaseId, scope: Scope, operation: string, limits: Limits): (Tables, Outcome) {
    if !Admits(t, now, scope, operation, limits) then (t, Refused)
    else if id in t.leases then (t, IdCollision)
    else (t.(leases := t.leases[id := Lease(scope, operation, now, now + LEASE_TTL)]), Granted)
  }

  function ReleaseStep(t: Tables, now: int, id: LeaseId, consume: bool): Tables {
    if id !in t.leases then t
    else
      var row := t.leases[id];
      Tables(t.leases - {id},
             if consume then t.usage + [UsageRow(ScopeKey(row.scope), row.operation, now)] else t.usage)
  }

  /** The store itself; `lease_id` is the fresh UUID the code draws. */
  class QuotaStore {
    var leases: map<LeaseId, Lease>
    var usage: seq<UsageRow>

    constructor ()
      ensures Contents() == EMPTY
    {
      leases, usage := map[], [];
    }

    function Contents(): Tables
      reads this
    {
      Tables(leases, usage)
    }

    method AcquireQuota(now: int, leaseId: LeaseId, scope: Scope, operation: string, limits: Limits)
      returns (outcome: Outcome)
      modifies this
      ensures (Contents(), outcome) == AcquireStep(old(Contents()), now, leaseId, scope, operation, limits)
    {
      if limits.concurrent > 0 {
        var active := |Live(leases, scope, operation, now)|;
        if active >= limits.concurrent {
          return Refused;
        }
      }
      var key := ScopeKey(scope);
      if limits.perHour > 0 {
        var hourly := UsedSince(usage, key, operation, now - HOUR);
        if hourly >= limits.perHour {
          return Refused;
        }
      }
      if limits.perDay > 0 {
        var daily := UsedSince(usage, key, operation, now - DAY);
        if daily >= limits.perDay {
          return Refused;
        }
      }
      if leaseId in leases {
        return IdCollision;
      }
      leases := leases[leaseId := Lease(scope, operation, now, now + LEASE_TTL)];
      outcome := Granted;
    }

    method ReleaseQuota(now: int, leaseId: LeaseId, consume: bool)
      modifies this
      ensures Contents() == ReleaseStep(old(Contents()), now, leaseId, consume)
    {
      if leaseId !in leases {
        return;
      }
      var row := leases[leaseId];
      if consume {
        usage := usage + [UsageRow(ScopeKey(row.scope), row.operation, now)];
      }
      leases := leases - {leaseId};
    }
  }

  // ---- runs ----

  datatype Event =
    | Acquire(now: int, id: LeaseId, scope: Scope, operation: string, limits: Limits)
    | Release(now: int, id: LeaseId, consume: bool)

  function Step(t: Tables, e: Event): Tables {
    match e
    case Acquire(now, id, scope, operation, limits) => AcquireStep(t, now, id, scope, operation, limits).0
    case Release(now, id, consume) => ReleaseStep(t, now, id, consume)
  }

  function Run(es: seq<Event>): Tables {
    if es == [] then EMPTY else Step(Run(es[..|es| - 1]), es[|es| - 1])
  }

  ghost predicate ClockNeverRunsBack(es: seq<Event>) {
    forall i, j | 0 <= i < j < |es| :: es[i].now <= es[j].now
  }

  /** Every acquisition for the watched scope and operation asks for the same limits. */
  ghost predicate FixedLimits(es: seq<Event>, scope: Scope, operation: string, limits: Limits) {
    forall i | 0 <= i < |es| && es[i].Acquire? && es[i].scope == scope && es[i].operation == operation ::
      es[i].limits == limits
  }

  /** No other scope of the run shares the watched scope's key. */
  ghost predicate KeyIsOwn(es: seq<Event>, scope: Scope) {
    forall i | 0 <= i < |es| && es[i].Acquire? && ScopeKey(es[i].scope) == ScopeKey(scope) :: es[i].scope == scope
  }

  /** The release at `i`, if it will write a usage row of the watched scope, comes while its lease is live. */
  ghost predicate PromptAt(es: seq<Event>, i: nat, scope: Scope, operation: string)
    requires i < |es|
  {
    es[i].Release? && es[i].consume && es[i].id in Run(es[..i]).leases ==>
      var lease := Run(es[..i]).leases[es[i].id];
      lease.scope == scope && lease.operation == operation ==> es[i].now < lease.expiresAt
  }

  ghost predicate PromptReleases(es: seq<Event>, scope: Scope, operation: string) {
    forall i: nat | i < |es| :: PromptAt(es, i, scope, operation)
  }

  /** Live leases and recorded usage together never pass a window's limit by more than the leases in flight. */
  ghost predicate WithinBound(t: Tables, scope: Scope, operation: string, limits: Limits, now: int) {
    var live := |Live(t.leases, scope, operation, now)|;
    var key := ScopeKey(scope);
    && live <= limits.concurrent
    && (limits.perHour > 0 ==> UsedSince(t.usage, key, operation, now - HOUR) + live <= limits.perHour + limits.concurrent - 1)
    && (limits.perDay > 0 ==> UsedSince(t.usage, key, operation, now - DAY) + live <= limits.perDay + limits.concurrent - 1)
  }

  ghost predicate KeysOwned(t: Tables, scope: Scope) {
    forall id | id in t.leases :: ScopeKey(t.leases[id].scope) == ScopeKey(scope) ==> t.leases[id].scope == scope
  }

  lemma {:induction false} UsedSinceShrinks(usage: seq<UsageRow>, key: string, operation: string, early: int, late: int)
    requires early <= late
    ensures UsedSince(usage, key, operation, late) <= UsedSince(usage, key, operation, early)
  {
    if usage == [] {
    } else {
      UsedSinceShrinks(usage[..|usage| - 1], key, operation, early, late);
    }
  }

  /** Time alone only lets leases expire and usage leave its window. */
  lemma BoundSurvivesTime(t: Tables, scope: Scope, operation: string, limits: Limits, now: int, later: int)
    requires now <= later && WithinBound(t, scope, operation, limits, now)
    ensures WithinBound(t, scope, operation, limits, later)
  {
    SubsetSize(Live(t.leases, scope, operation, later), Live(t.leases, scope, operation, now));
    UsedSinceShrinks(t.usage, ScopeKey(scope), operation, now - HOUR, later - HOUR);
    UsedSinceShrinks(t.usage, ScopeKey(scope), operation, now - DAY, later - DAY);
  }

  lemma LiveAfterInsert(leases: map<LeaseId, Lease>, id: LeaseId, lease: Lease, scope: Scope, operation: string, now: int)
    requires id !in leases
    ensures Live(leases[id := lease], scope, operation, now)
         == Live(leases, scope, operation, now)
            + if lease.scope == scope && lease.operation == operation && lease.expiresAt > now then {id} else {}
  {
  }

  lemma LiveAfterDelete(leases: map<LeaseId, Lease>, id: LeaseId, scope: Scope, operation: string, now: int)
    ensures Live(leases - {id}, scope, operation, now) == Live(leases, scope, operation, now) - {id}
  {
  }

  lemma UsedSinceAppend(usage: seq<UsageRow>, row: UsageRow, key: string, operation: string, since: int)
    ensures UsedSince(usage + [row], key, operation, since)
         == UsedSince(usage, key, operation, since)
            + if row.scopeKey == key && row.operation == operation && row.consumedAt > since then 1 else 0
  {
    assert (usage + [row])[..|usage|] == usage;
  }

  lemma AcquireKeepsBound(t: Tables, e: Event, scope: Scope, operation: string, limits: Limits)
    requires limits.concurrent > 0 && e.Acquire? && WithinBound(t, scope, operation, limits, e.now)
    requires e.scope == scope && e.operation == operation ==> e.limits == limits
    ensures WithinBound(Step(t, e), scope, operation, limits, e.now)
  {
    if AcquireStep(t, e.now, e.id, e.scope, e.operation, e.limits).1 == Granted {
      LiveAfterInsert(t.leases, e.id, Lease(e.scope, e.operation, e.now, e.now + LEASE_TTL), scope, operation, e.now);
    }
  }

  /** One more usage row of the scope fits into both windows, judged on the counts as they are. */
  ghost predicate HasRoom(t: Tables, scope: Scope, operation: string, limits: Limits, now: int) {
    var live := |Live(t.leases, scope, operation, now)|;
    var key := ScopeKey(scope);
    && (limits.perHour > 0 ==> UsedSince(t.usage, key, operation, now - HOUR) + live < limits.perHour + limits.concurrent - 1)
    && (limits.perDay > 0 ==> UsedSince(t.usage, key, operation, now - DAY) + live < limits.perDay + limits.concurrent - 1)
  }

  /**
    Exactly which releases keep the bound: the lease is gone, nothing is consumed, the row belongs to
    another scope or operation, the lease is still live, or there is room left in each window.
   */
  lemma ReleaseKeepsBoundIff(t: Tables, e: Event, scope: Scope, operation: string, limits: Limits)
    requires limits.concurrent > 0 && e.Release? && WithinBound(t, scope, operation, limits, e.now) && KeysOwned(t, scope)
    ensures WithinBound(Step(t, e), scope, operation, limits, e.now)
            <==> (|| e.id !in t.leases || !e.consume
                  || t.leases[e.id].scope != scope || t.leases[e.id].operation != operation
                  || e.now < t.leases[e.id].expiresAt || HasRoom(t, scope, operation, limits, e.now))
  {
    if e.id in t.leases {
      var row := t.leases[e.id];
      var key := ScopeKey(scope);
      var used := UsageRow(ScopeKey(row.scope), row.operation, e.now);
      LiveAfterDelete(t.leases, e.id, scope, operation, e.now);
      UsedSinceAppend(t.usage, used, key, operation, e.now - HOUR);
      UsedSinceAppend(t.usage, used, key, operation, e.now - DAY);
      var live := Live(t.leases, scope, operation, e.now);
      if row.scope == scope && row.operation == operation && e.now < row.expiresAt {
        assert e.id in live;
        assert |live - {e.id}| == |live| - 1;
      } else {
        assert live - {e.id} == live;
      }
    }
  }

  lemma {:induction false} RunOwnsKeys(es: seq<Event>, scope: Scope)
    requires KeyIsOwn(es, scope)
    ensures KeysOwned(Run(es), scope)
  {
    if es == [] {
    } else {
      RunOwnsKeys(es[..|es| - 1], scope);
    }
  }

  lemma PromptPrefix(es: seq<Event>, n: nat, scope: Scope, operation: string)
    requires n <= |es| && PromptReleases(es, scope, operation)
    ensures PromptReleases(es[..n], scope, operation)
  {
    forall i: nat | i < n
      ensures PromptAt(es[..n], i, scope, operation)
    {
      assert PromptAt(es, i, scope, operation);
      assert es[..n][..i] == es[..i];
    }
  }

  /**
    The quota bound over every run: with fixed limits, a clock that does not run back, an own key and
    releases before expiry, no reachable state exceeds the bound, now or at any later time.
   */
  lemma {:induction false} QuotaBound(es: seq<Event>, scope: Scope, operation: string, limits: Limits, now: int)
    requires limits.concurrent > 0
    requires ClockNeverRunsBack(es) && (forall i | 0 <= i < |es| :: es[i].now <= now)
    requires FixedLimits(es, scope, operation, limits) && KeyIsOwn(es, scope)
    requires PromptReleases(es, scope, operation)
    ensures WithinBound(Run(es), scope, operation, limits, now)
  {
    if es == [] {
      assert Live(EMPTY.leases, scope, operation, now) == {};
    } else {
      var n := |es| - 1;
      var e := es[n];
      var before := Run(es[..n]);
      PromptPrefix(es, n, scope, operation);
      QuotaBound(es[..n], scope, operation, limits, e.now);
      if e.Acquire? {
        AcquireKeepsBound(before, e, scope, operation, limits);
      } else {
        assert PromptAt(es, n, scope, operation);
        RunOwnsKeys(es[..n], scope);
        ReleaseKeepsBoundIff(before, e, scope, operation, limits);
      }
      BoundSurvivesTime(Run(es), scope, operation, limits, e.now, now);
    }
  }

  /** The state after event `i` is within the bound at the moment of that event. */
  ghost predicate BoundAt(es: seq<Event>, i: nat, scope: Scope, operation: string, limits: Limits)
    requires i < |es|
  {
    WithinBound(Run(es[..i + 1]), scope, operation, limits, es[i].now)
  }

  /** A consuming release at `i` that comes late for its lease of the watched scope finds room. */
  ghost predicate RoomAt(es: seq<Event>, i: nat, scope: Scope, operation: string, limits: Limits)
    requires i < |es|
  {
    PromptAt(es, i, scope, operation) || HasRoom(Run(es[..i]), scope, operation, limits, es[i].now)
  }

  /** One event keeps the bound exactly if it is no late release without room. */
  lemma StepBoundIff(es: seq<Event>, i: nat, scope: Scope, operation: string, limits: Limits)
    requires i < |es| && limits.concurrent > 0 && FixedLimits(es, scope, operation, limits) && KeyIsOwn(es, scope)
    requires WithinBound(Run(es[..i]), scope, operation, limits, es[i].now)
    ensures BoundAt(es, i, scope, operation, limits) <==> RoomAt(es, i, scope, operation, limits)
  {
    var before, e := Run(es[..i]), es[i];
    assert es[..i + 1][..i] == es[..i];
    assert Run(es[..i + 1]) == Step(before, e);
    if e.Acquire? {
      AcquireKeepsBound(before, e, scope, operation, limits);
    } else {
      RunOwnsKeys(es[..i], scope);
      ReleaseKeepsBoundIff(before, e, scope, operation, limits);
    }
  }

  /** The bound after one event is the bound before the next. */
  lemma BoundBefore(es: seq<Event>, i: nat, scope: Scope, operation: string, limits: Limits)
    requires i < |es| && limits.concurrent > 0 && ClockNeverRunsBack(es)
    requires i > 0 ==> BoundAt(es, i - 1, scope, operation, limits)
    ensures WithinBound(Run(es[..i]), scope, operation, limits, es[i].now)
  {
    if i == 0 {
      assert Live(EMPTY.leases, scope, operation, es[i].now) == {};
    } else {
      BoundSurvivesTime(Run(es[..i]), scope, operation, limits, es[i - 1].now, es[i].now);
    }
  }

  lemma {:induction false} RoomGivesBound(es: seq<Event>, i: nat, scope: Scope, operation: string, limits: Limits)
    requires i < |es| && limits.concurrent > 0
    requires ClockNeverRunsBack(es) && FixedLimits(es, scope, operation, limits) && KeyIsOwn(es, scope)
    requires forall j: nat | j <= i :: RoomAt(es, j, scope, operation, limits)
    ensures BoundAt(es, i, scope, operation, limits)
  {
    if i == 0 {
      BoundBefore(es, i, scope, operation, limits);
    } else {
      RoomGivesBound(es, i - 1, scope, operation, limits);
      BoundBefore(es, i, scope, operation, limits);
    }
    StepBoundIff(es, i, scope, operation, limits);
  }

  /**
    The exact condition on a run: with fixed limits, a clock that does not run back and an own key, every state is
    within the bound at the moment it arises (and so, until the next event, at every later one) if and only
    if each consuming release that comes late for a lease of the scope finds room in both windows.
   */
  lemma RunWithinBoundIff(es: seq<Event>, scope: Scope, operation: string, limits: Limits)
    requires limits.concurrent > 0
    requires ClockNeverRunsBack(es) && FixedLimits(es, scope, operation, limits) && KeyIsOwn(es, scope)
    ensures (forall i: nat | i < |es| :: BoundAt(es, i, scope, operation, limits))
       <==> forall i: nat | i < |es| :: RoomAt(es, i, scope, operation, limits)
  {
    if forall i: nat | i < |es| :: BoundAt(es, i, scope, operation, limits) {
      forall i: nat | i < |es|
        ensures RoomAt(es, i, scope, operation, limits)
      {
        BoundBefore(es, i, scope, operation, limits);
        StepBoundIff(es, i, scope, operation, limits);
      }
    }
    if forall i: nat | i < |es| :: RoomAt(es, i, scope, operation, limits) {
      forall i: nat | i < |es|
        ensures BoundAt(es, i, scope, operation, limits)
      {
        RoomGivesBound(es, i, scope, operation, limits);
      }
    }
  }

  /** The concurrency limit alone needs neither prompt releases nor an own key. */
  lemma {:induction false} ConcurrencyBound(es: seq<Event>, scope: Scope, operation: string, limits: Limits, now: int)
    requires limits.concurrent > 0
    requires ClockNeverRunsBack(es) && (forall i | 0 <= i < |es| :: es[i].now <= now)
    requires FixedLimits(es, scope, operation, limits)
    ensures |Live(Run(es).leases, scope, operation, now)| <= limits.concurrent
  {
    if es == [] {
      assert Live(EMPTY.leases, scope, operation, now) == {};
    } else {
      var n := |es| - 1;
      var e := es[n];
      var before := Run(es[..n]);
      ConcurrencyBound(es[..n], scope, operation, limits, e.now);
      if e.Acquire? && AcquireStep(before, e.now, e.id, e.scope, e.operation, e.limits).1 == Granted {
        LiveAfterInsert(before.leases, e.id, Lease(e.scope, e.operation, e.now, e.now + LEASE_TTL), scope, operation, e.now);
      } else if e.Release? && e.id in before.leases {
        LiveAfterDelete(before.leases, e.id, scope, operation, e.now);
        SubsetSize(Live(Run(es).leases, scope, operation, e.now), Live(before.leases, scope, operation, e.now));
      }
      SubsetSize(Live(Run(es).leases, scope, operation, now), Live(Run(es).leases, scope, operation, e.now));
    }
  }

  // ---- exactly when a lease is granted, and what it is ----

  /** The test that a window's query puts to row `i`. */
  function InWindow(usage: seq<UsageRow>, key: string, operation: string, since: int): nat -> bool {
    (i: nat) => i < |usage| && usage[i].scopeKey == key && usage[i].operation == operation && usage[i].consumedAt > since
  }

  lemma {:induction false} UsedSinceBelow(usage: seq<UsageRow>, key: string, operation: string, since: int)
    ensures UsedSince(usage, key, operation, since) == |Below(InWindow(usage, key, operation, since), |usage|)|
  {
    var here := InWindow(usage, key, operation, since);
    if usage == [] {
      assert Below(here, 0) == {};
    } else {
      var n := |usage| - 1;
      UsedSinceBelow(usage[..n], key, operation, since);
      BelowSame(InWindow(usage[..n], key, operation, since), here, n);
      BelowNext(here, n);
    }
  }

  /** The recorded usage counts the rows of the window, each once. */
  lemma UsedSinceCounts(usage: seq<UsageRow>, key: string, operation: string, since: int)
    ensures UsedSince(usage, key, operation, since)
         == |set i: nat | i < |usage| && usage[i].scopeKey == key && usage[i].operation == operation && usage[i].consumedAt > since|
  {
    UsedSinceBelow(usage, key, operation, since);
    assert Below(InWindow(usage, key, operation, since), |usage|)
        == set i: nat | i < |usage| && usage[i].scopeKey == key && usage[i].operation == operation && usage[i].consumedAt > since;
  }

  /**
    An acquisition is refused exactly when one of the limits that are switched on is used up: by leases of the scope
    and operation that have not expired, or by usage of the last hour, or of the last day.
   */
  lemma RefusedIff(t: Tables, now: int, id: LeaseId, scope: Scope, operation: string, limits: Limits)
    ensures AcquireStep(t, now, id, scope, operation, limits).1 == Refused
            <==> var key := scope.tenant + "|" + scope.subject + "|" + scope.account;
                 || (limits.concurrent > 0 && limits.concurrent <=
                       |set l | l in t.leases && t.leases[l].scope == scope && t.leases[l].operation == operation && now < t.leases[l].expiresAt|)
                 || (limits.perHour > 0 && limits.perHour <=
                       |set i: nat | i < |t.usage| && t.usage[i].scopeKey == key && t.usage[i].operation == operation
                                     && t.usage[i].consumedAt > now - 3_600_000_000|)
                 || (limits.perDay > 0 && limits.perDay <=
                       |set i: nat | i < |t.usage| && t.usage[i].scopeKey == key && t.usage[i].operation == operation
                                     && t.usage[i].consumedAt > now - 86_400_000_000|)
  {
    var key := scope.tenant + "|" + scope.subject + "|" + scope.account;
    UsedSinceCounts(t.usage, key, operation, now - 3_600_000_000);
    UsedSinceCounts(t.usage, key, operation, now - 86_400_000_000);
    assert Live(t.leases, scope, operation, now)
        == set l | l in t.leases && t.leases[l].scope == scope && t.leases[l].operation == operation && now < t.leases[l].expiresAt;
  }

  /** What is not refused is granted under a new id, for exactly one hour from now, and touches nothing else. */
  lemma GrantedIff(t: Tables, now: int, id: LeaseId, scope: Scope, operation: string, limits: Limits)
    ensures var (after, outcome) := AcquireStep(t, now, id, scope, operation, limits);
            && (outcome == Granted <==> outcome != Refused && id !in t.leases)
            && after.usage == t.usage
            && (outcome != Granted ==> after == t)
            && (outcome == Granted ==>
                  && after.leases.Keys == t.leases.Keys + {id}
                  && after.leases[id] == Lease(scope, operation, now, now + 3_600_000_000)
                  && forall other | other in t.leases :: after.leases[other] == t.leases[other])
  {
  }

  /** A consuming return at `i` for that key and operation, after `since`. */
  ghost predicate ReturnsAt(es: seq<Event>, i: nat, key: string, operation: string, since: int)
    requires i < |es|
  {
    && es[i].Release? && es[i].consume && es[i].id in Run(es[..i]).leases && es[i].now > since
    && ScopeKey(Run(es[..i]).leases[es[i].id].scope) == key && Run(es[..i]).leases[es[i].id].operation == operation
  }

  lemma LastReturnCounts(es: seq<Event>, key: string, operation: string, since: int)
    requires es != []
    ensures UsedSince(Run(es).usage, key, operation, since)
         == UsedSince(Run(es[..|es| - 1]).usage, key, operation, since)
            + if ReturnsAt(es, |es| - 1, key, operation, since) then 1 else 0
  {
    var n := |es| - 1;
    var before, e := Run(es[..n]), es[n];
    if e.Release? && e.consume && e.id in before.leases {
      var lease := before.leases[e.id];
      UsedSinceAppend(before.usage, UsageRow(ScopeKey(lease.scope), lease.operation, e.now), key, operation, since);
    }
  }

  ghost function Returning(es: seq<Event>, key: string, operation: string, since: int): nat -> bool {
    (i: nat) => i < |es| && ReturnsAt(es, i, key, operation, since)
  }

  lemma ReturnsInPrefix(es: seq<Event>, n: nat, i: nat, key: string, operation: string, since: int)
    requires i < n <= |es|
    ensures ReturnsAt(es[..n], i, key, operation, since) <==> ReturnsAt(es, i, key, operation, since)
  {
    assert es[..n][..i] == es[..i];
  }

  /** Over any run, what a window counts is the consuming returns made in it, at the moments of their releases. */
  lemma {:induction false} UsedSinceIsReturns(es: seq<Event>, key: string, operation: string, since: int)
    ensures UsedSince(Run(es).usage, key, operation, since) == |Below(Returning(es, key, operation, since), |es|)|
  {
    var here := Returning(es, key, operation, since);
    if es == [] {
      assert Below(here, 0) == {};
    } else {
      var n := |es| - 1;
      var before := Returning(es[..n], key, operation, since);
      UsedSinceIsReturns(es[..n], key, operation, since);
      forall i: nat | i < n
        ensures before(i) == here(i)
      {
        ReturnsInPrefix(es, n, i, key, operation, since);
      }
      BelowSame(before, here, n);
      BelowNext(here, n);
      LastReturnCounts(es, key, operation, since);
    }
  }

  // ---- a release at or after expiry breaks the bound, whatever the limits ----

  lemma RunAppend(es: seq<Event>, e: Event)
    ensures (es + [e])[..|es|] == es
    ensures Run(es + [e]) == Step(Run(es), e)
  {
    assert (es + [e])[..|es|] == es;
  }

  /** Every hypothesis of QuotaBound, for a run that ends by `now`. */
  ghost predicate Disciplined(es: seq<Event>, scope: Scope, operation: string, limits: Limits, now: int) {
    && ClockNeverRunsBack(es) && (forall i | 0 <= i < |es| :: es[i].now <= now)
    && FixedLimits(es, scope, operation, limits) && KeyIsOwn(es, scope) && PromptReleases(es, scope, operation)
  }

  lemma DisciplinedAppend(es: seq<Event>, e: Event, scope: Scope, operation: string, limits: Limits)
    requires Disciplined(es, scope, operation, limits, e.now)
    requires e.Acquire? ==> e.scope == scope && e.operation == operation && e.limits == limits
    requires e.Release? && e.id in Run(es).leases ==> e.now < Run(es).leases[e.id].expiresAt
    ensures Disciplined(es + [e], scope, operation, limits, e.now)
  {
    var longer := es + [e];
    forall i: nat | i < |longer|
      ensures PromptAt(longer, i, scope, operation)
    {
      if i < |es| {
        assert PromptAt(es, i, scope, operation);
      }
      assert longer[..i] == es[..i];
    }
  }

  /** Lease 0 was taken at time 0 and has expired by `now`; `live` leases with ids up to `live` are held beside it. */
  ghost predicate Held(t: Tables, scope: Scope, operation: string, now: int, live: nat) {
    && |Live(t.leases, scope, operation, now)| == live
    && (forall i | i in t.leases :: i <= live)
    && 0 in t.leases && t.leases[0] == Lease(scope, operation, 0, LEASE_TTL) && LEASE_TTL <= now
  }

  /** The smaller of the window limits that are switched on. */
  function Tightest(limits: Limits): int {
    if limits.perHour <= 0 then limits.perDay
    else if limits.perDay <= 0 then limits.perHour
    else if limits.perHour <= limits.perDay then limits.perHour else limits.perDay
  }

  /** Both windows hold `used` rows of the scope. */
  ghost predicate Used(t: Tables, scope: Scope, operation: string, now: int, used: nat) {
    && UsedSince(t.usage, ScopeKey(scope), operation, now - HOUR) == used
    && UsedSince(t.usage, ScopeKey(scope), operation, now - DAY) == used
  }

  lemma HoldOnce(t: Tables, scope: Scope, operation: string, limits: Limits, now: int, n: nat, used: nat)
    requires 0 < n <= limits.concurrent && Held(t, scope, operation, now, n - 1)
    requires Used(t, scope, operation, now, used) && used < Tightest(limits)
    ensures var after := Step(t, Acquire(now, n, scope, operation, limits));
            && Held(after, scope, operation, now, n) && Used(after, scope, operation, now, used)
            && n in after.leases && after.leases[n] == Lease(scope, operation, now, now + LEASE_TTL)
  {
    assert Admits(t, now, scope, operation, limits);
    LiveAfterInsert(t.leases, n, Lease(scope, operation, now, now + LEASE_TTL), scope, operation, now);
  }

  lemma SpendFreesLease(t: Tables, scope: Scope, operation: string, now: int)
    requires Held(t, scope, operation, now, 1)
    requires 1 in t.leases && t.leases[1] == Lease(scope, operation, now, now + LEASE_TTL)
    ensures Held(Step(t, Release(now, 1, true)), scope, operation, now, 0)
  {
    LiveAfterDelete(t.leases, 1, scope, operation, now);
    assert 1 in Live(t.leases, scope, operation, now);
  }

  lemma SpendCounts(t: Tables, scope: Scope, operation: string, now: int, used: nat)
    requires Used(t, scope, operation, now, used)
    requires 1 in t.leases && t.leases[1] == Lease(scope, operation, now, now + LEASE_TTL)
    ensures Used(Step(t, Release(now, 1, true)), scope, operation, now, used + 1)
  {
    var row := UsageRow(ScopeKey(scope), operation, now);
    UsedSinceAppend(t.usage, row, ScopeKey(scope), operation, now - HOUR);
    UsedSinceAppend(t.usage, row, ScopeKey(scope), operation, now - DAY);
  }

  /** Keep lease 0 past its expiry, then acquire and consume `n` times at `now`. */
  lemma {:induction false} SpendTheWindow(scope: Scope, operation: string, limits: Limits, now: int, n: nat) returns (es: seq<Event>)
    requires limits.concurrent > 0 && n < Tightest(limits) && now >= LEASE_TTL
    ensures Disciplined(es, scope, operation, limits, now)
    ensures Held(Run(es), scope, operation, now, 0) && Used(Run(es), scope, operation, now, n)
  {
    if n == 0 {
      var first := Acquire(0, 0, scope, operation, limits);
      es := [] + [first];
      assert Live(EMPTY.leases, scope, operation, 0) == {};
      RunAppend([], first);
      assert Live(Run(es).leases, scope, operation, now) == {};
      DisciplinedAppend([], first, scope, operation, limits);
    } else {
      var spent := SpendTheWindow(scope, operation, limits, now, n - 1);
      var acquire, release := Acquire(now, 1, scope, operation, limits), Release(now, 1, true);
      HoldOnce(Run(spent), scope, operation, limits, now, 1, n - 1);
      RunAppend(spent, acquire);
      DisciplinedAppend(spent, acquire, scope, operation, limits);
      var acquired := spent + [acquire];
      SpendFreesLease(Run(acquired), scope, operation, now);
      SpendCounts(Run(acquired), scope, operation, now, n - 1);
      RunAppend(acquired, release);
      DisciplinedAppend(acquired, release, scope, operation, limits);
      es := acquired + [release];
    }
  }

  /** Then fill the concurrency limit with `n` live leases. */
  lemma {:induction false} HoldLeases(scope: Scope, operation: string, limits: Limits, now: int, n: nat) returns (es: seq<Event>)
    requires limits.concurrent > 0 && Tightest(limits) > 0 && n <= limits.concurrent && now >= LEASE_TTL
    ensures Disciplined(es, scope, operation, limits, now)
    ensures Held(Run(es), scope, operation, now, n) && Used(Run(es), scope, operation, now, Tightest(limits) - 1)
  {
    if n == 0 {
      es := SpendTheWindow(scope, operation, limits, now, Tightest(limits) - 1);
    } else {
      var held := HoldLeases(scope, operation, limits, now, n - 1);
      var acquire := Acquire(now, n, scope, operation, limits);
      HoldOnce(Run(held), scope, operation, limits, now, n, Tightest(limits) - 1);
      RunAppend(held, acquire);
      DisciplinedAppend(held, acquire, scope, operation, limits);
      es := held + [acquire];
    }
  }

  /** A run that is disciplined up to one consuming release at `now`, after which the bound is exceeded. */
  ghost predicate BreaksLate(es: seq<Event>, scope: Scope, operation: string, limits: Limits, now: int) {
    && Disciplined(es, scope, operation, limits, now)
    && 0 in Run(es).leases && Run(es).leases[0].expiresAt <= now
    && !WithinBound(Run(es + [Release(now, 0, true)]), scope, operation, limits, now)
  }

  lemma LastReleaseBreaks(es: seq<Event>, scope: Scope, operation: string, limits: Limits, now: int)
    requires limits.concurrent > 0 && Tightest(limits) > 0 && Disciplined(es, scope, operation, limits, now)
    requires Held(Run(es), scope, operation, now, limits.concurrent) && Used(Run(es), scope, operation, now, Tightest(limits) - 1)
    ensures BreaksLate(es, scope, operation, limits, now)
  {
    var before, row := Run(es), UsageRow(ScopeKey(scope), operation, now);
    RunAppend(es, Release(now, 0, true));
    LiveAfterDelete(before.leases, 0, scope, operation, now);
    assert Live(before.leases, scope, operation, now) - {0} == Live(before.leases, scope, operation, now);
    UsedSinceAppend(before.usage, row, ScopeKey(scope), operation, now - HOUR);
    UsedSinceAppend(before.usage, row, ScopeKey(scope), operation, now - DAY);
  }

  /** Without a window limit the bound is the concurrency limit, which no release breaks. */
  lemma OnlyWindowsBreak(es: seq<Event>, scope: Scope, operation: string, limits: Limits, now: int)
    requires limits.concurrent > 0 && limits.perHour <= 0 && limits.perDay <= 0
    ensures Disciplined(es, scope, operation, limits, now)
            ==> WithinBound(Run(es + [Release(now, 0, true)]), scope, operation, limits, now)
  {
    if Disciplined(es, scope, operation, limits, now) {
      var longer := es + [Release(now, 0, true)];
      assert forall i | 0 <= i < |es| :: longer[i] == es[i];
      ConcurrencyBound(longer, scope, operation, limits, now);
    }
  }

  /**
    "No later than expiry" would not do.  For every moment `now` from the expiry of a lease taken at 0 on, some
    run that meets every condition of QuotaBound up to there is taken over the bound by one release at
    `now`, exactly for the limits that switch on a window.
   */
  lemma LateReleaseBreaksBound(scope: Scope, operation: string, limits: Limits, now: int)
    requires limits.concurrent > 0 && now >= LEASE_TTL
    ensures (exists es :: BreaksLate(es, scope, operation, limits, now)) <==> limits.perHour > 0 || limits.perDay > 0
  {
    if limits.perHour > 0 || limits.perDay > 0 {
      var es := HoldLeases(scope, operation, limits, now, limits.concurrent);
      LastReleaseBreaks(es, scope, operation, limits, now);
    } else {
      forall es
        ensures !BreaksLate(es, scope, operation, limits, now)
      {
        OnlyWindowsBreak(es, scope, operation, limits, now);
      }
    }
  }

  // ---- what one lease can add ----

  /** How often lease `id` was granted. */
  function Grants(es: seq<Event>, id: LeaseId): nat {
    if es == [] then 0 else
      var n := |es| - 1;
      var e := es[n];
      Grants(es[..n], id)
      + if e.Acquire? && e.id == id && AcquireStep(Run(es[..n]), e.now, id, e.scope, e.operation, e.limits).1 == Granted then 1 else 0
  }

  /** How many releases of lease `id` found it, split by their `consume` flag. */
  function Returns(es: seq<Event>, id: LeaseId, consume: bool): nat {
    if es == [] then 0 else
      var n := |es| - 1;
      var e := es[n];
      Returns(es[..n], id, consume)
      + if e.Release? && e.id == id && e.consume == consume && id in Run(es[..n]).leases then 1 else 0
  }

  /** Conservation: a granted lease is still held, was returned unused, or was returned into one usage row. */
  lemma {:induction false} LeaseConservation(es: seq<Event>, id: LeaseId)
    ensures Grants(es, id) == Returns(es, id, true) + Returns(es, id, false) + if id in Run(es).leases then 1 else 0
  {
    if es == [] {
    } else {
      LeaseConservation(es[..|es| - 1], id);
    }
  }

  /** A release writes a usage row exactly when it finds its lease and consumes, and then exactly one. */
  lemma ReleaseWritesOneRow(es: seq<Event>, e: Event)
    requires e.Release?
    ensures |Run(es + [e]).usage| - |Run(es).usage| == Returns(es + [e], e.id, true) - Returns(es, e.id, true)
    ensures |Run(es + [e]).usage| - |Run(es).usage| == if e.consume && e.id in Run(es).leases then 1 else 0
  {
    RunAppend(es, e);
    assert (es + [e])[..|es|] == es;
  }

  /** The lease whose release wrote each usage row of the run, in order. */
  function Writers(es: seq<Event>): seq<LeaseId> {
    if es == [] then [] else
      var n := |es| - 1;
      var e := es[n];
      Writers(es[..n]) + if e.Release? && e.consume && e.id in Run(es[..n]).leases then [e.id] else []
  }

  /** Over every run the usage rows are exactly the consuming returns: as many, each with the lease that wrote it. */
  lemma {:induction false} UsageRowsAreReturns(es: seq<Event>)
    ensures |Run(es).usage| == |Writers(es)|
    ensures forall id :: multiset(Writers(es))[id] == Returns(es, id, true)
  {
    if es == [] {
    } else {
      UsageRowsAreReturns(es[..|es| - 1]);
    }
  }

  lemma SingleOccurrence(ids: seq<LeaseId>, id: LeaseId)
    requires multiset(ids)[id] <= 1
    ensures forall i, j | 0 <= i < |ids| && 0 <= j < |ids| && ids[i] == id == ids[j] :: i == j
  {
    forall i, j | 0 <= i < j < |ids|
      ensures !(ids[i] == id == ids[j])
    {
      var front, back := ids[..j], ids[j..];
      assert ids == front + back && ids[i] == front[i] && ids[j] == back[0];
      assert multiset(ids) == multiset(front) + multiset(back);
      assert ids[i] in multiset(front) && ids[j] in multiset(back);
    }
  }

  /** A lease id that is granted once writes at most one usage row of the run, however often it is released. */
  lemma AtMostOneRowPerLease(es: seq<Event>, id: LeaseId)
    requires Grants(es, id) <= 1
    ensures |Run(es).usage| == |Writers(es)|
    ensures forall i, j | 0 <= i < |Writers(es)| && 0 <= j < |Writers(es)| && Writers(es)[i] == id == Writers(es)[j] :: i == j
    ensures id in Writers(es) ==> id !in Run(es).leases && Returns(es, id, false) == 0
  {
    UsageRowsAreReturns(es);
    LeaseConservation(es, id);
    assert multiset(Writers(es))[id] <= 1;
    SingleOccurrence(Writers(es), id);
    assert id in Writers(es) <==> id in multiset(Writers(es));
  }

  /** Event `i` granted lease `id` for that scope and operation. */
  ghost predicate GrantedAt(es: seq<Event>, i: nat, id: LeaseId, scope: Scope, operation: string) {
    && i < |es| && es[i].Acquire? && es[i].id == id && es[i].scope == scope && es[i].operation == operation
    && AcquireStep(Run(es[..i]), es[i].now, id, scope, operation, es[i].limits).1 == Granted
  }

  lemma GrantStays(es: seq<Event>, n: nat, i: nat, id: LeaseId, scope: Scope, operation: string)
    requires n <= |es| && GrantedAt(es[..n], i, id, scope, operation)
    ensures GrantedAt(es, i, id, scope, operation)
  {
    assert es[..n][..i] == es[..i];
  }

  lemma {:induction false} LeaseWasGranted(es: seq<Event>, id: LeaseId) returns (i: nat)
    requires id in Run(es).leases
    ensures GrantedAt(es, i, id, Run(es).leases[id].scope, Run(es).leases[id].operation)
  {
    var n := |es| - 1;
    var before := Run(es[..n]);
    if id in before.leases {
      i := LeaseWasGranted(es[..n], id);
      GrantStays(es, n, i, id, before.leases[id].scope, before.leases[id].operation);
    } else {
      i := n;
    }
  }

  /** Every usage row is charged to the scope and operation for which its lease was granted. */
  lemma {:induction false} RowsAreChargedToGrants(es: seq<Event>, k: nat) returns (i: nat, scope: Scope)
    requires k < |Run(es).usage| && k < |Writers(es)|
    ensures GrantedAt(es, i, Writers(es)[k], scope, Run(es).usage[k].operation) && Run(es).usage[k].scopeKey == ScopeKey(scope)
  {
    var n := |es| - 1;
    var before := Run(es[..n]);
    UsageRowsAreReturns(es[..n]);
    if k < |before.usage| {
      i, scope := RowsAreChargedToGrants(es[..n], k);
      GrantStays(es, n, i, Writers(es)[k], scope, before.usage[k].operation);
    } else {
      scope := before.leases[es[n].id].scope;
      i := LeaseWasGranted(es[..n], es[n].id);
      GrantStays(es, n, i, es[n].id, scope, before.leases[es[n].id].operation);
    }
  }

  // ---- scope keys ----

  /** Distinct scopes have distinct keys when neither tenant nor subject contains the separator. */
  lemma ScopeKeyInjective(a: Scope, b: Scope)
    requires '|' !in a.tenant && '|' !in a.subject && '|' !in b.tenant && '|' !in b.subject
    ensures ScopeKey(a) == ScopeKey(b) ==> a == b
  {
    if ScopeKey(a) == ScopeKey(b) {
      var x, y := a.subject + "|" + a.account, b.subject + "|" + b.account;
      assert ScopeKey(a) == a.tenant + "|" + x && ScopeKey(b) == b.tenant + "|" + y;
      SplitAtFirst(a.tenant, '|', x);
      SplitAtFirst(b.tenant, '|', y);
      SplitAtFirst(a.subject, '|', a.account);
      SplitAtFirst(b.subject, '|', b.account);
    }
  }

  function Bars(s: string): nat {
    if s == "" then 0 else (if s[0] == '|' then 1 else 0) + Bars(s[1..])
  }

  lemma {:induction false} BarsOfConcat(a: string, b: string)
    ensures Bars(a + b) == Bars(a) + Bars(b)
  {
    if a == "" {
      assert a + b == b;
    } else {
      assert (a + b)[1..] == a[1..] + b;
      BarsOfConcat(a[1..], b);
    }
  }

  lemma {:induction false} BarsIff(s: string)
    ensures Bars(s) == 0 <==> '|' !in s
  {
    if s == "" {
    } else {
      assert s == [s[0]] + s[1..];
      BarsIff(s[1..]);
    }
  }

  lemma BarsOfKey(a: Scope)
    ensures Bars(ScopeKey(a)) == Bars(a.tenant) + Bars(a.subject) + 2
  {
    BarsOfConcat(a.tenant + "|" + a.subject + "|", a.account);
    BarsOfConcat(a.tenant + "|" + a.subject, "|");
    BarsOfConcat(a.tenant + "|", a.subject);
    BarsOfConcat(a.tenant, "|");
    BarsIff(a.account);
    assert Bars("|") == 1;
  }

  /** The text behind a separator moves across the field boundary; the key stays the same. */
  function Shifted(a: Scope): Scope {
    if '|' in a.tenant then
      var i := IndexOf(a.tenant, '|');
      IndexOfFound(a.tenant, '|');
      Scope(a.tenant[..i], a.tenant[i + 1..] + "|" + a.subject, a.account)
    else
      var i := IndexOf(a.subject, '|');
      IndexOfFound(a.subject, '|');
      if i == |a.subject| then a else Scope(a.tenant + "|" + a.subject[..i], a.subject[i + 1..], a.account)
  }

  lemma Regroup(w: string, x: string, y: string, z: string)
    ensures (w + "|" + x) + "|" + y + "|" + z == w + "|" + (x + "|" + y) + "|" + z
  {
  }

  lemma SplitAtIndex(s: string, i: nat)
    requires i < |s| && s[i] == '|'
    ensures s == s[..i] + "|" + s[i + 1..]
  {
    var t := s[..i] + "|" + s[i + 1..];
    assert |t| == |s|;
    forall k | 0 <= k < |s|
      ensures t[k] == s[k]
    {
    }
  }

  lemma SplitAtBar(s: string)
    requires '|' in s
    ensures var i := IndexOf(s, '|'); i < |s| && s == s[..i] + "|" + s[i + 1..]
  {
    var i := IndexOf(s, '|');
    IndexOfFound(s, '|');
    SplitAtIndex(s, i);
  }

  lemma ShiftKeepsKey(a: Scope)
    requires '|' in a.tenant || '|' in a.subject
    ensures Shifted(a) != a && ScopeKey(Shifted(a)) == ScopeKey(a)
  {
    var b := Shifted(a);
    if '|' in a.tenant {
      SplitAtBar(a.tenant);
      Regroup(b.tenant, a.tenant[IndexOf(a.tenant, '|') + 1..], a.subject, a.account);
      assert |b.tenant| < |a.tenant|;
    } else {
      SplitAtBar(a.subject);
      Regroup(a.tenant, a.subject[..IndexOf(a.subject, '|')], b.subject, a.account);
      assert |b.tenant| > |a.tenant|;
    }
  }

  /** A scope shares its key with another one exactly when its tenant or subject contains the separator. */
  lemma ScopeKeyIsOwnIff(a: Scope)
    ensures (forall b: Scope :: ScopeKey(b) == ScopeKey(a) ==> b == a) <==> '|' !in a.tenant && '|' !in a.subject
  {
    if '|' in a.tenant || '|' in a.subject {
      ShiftKeepsKey(a);
    } else {
      forall b: Scope | ScopeKey(b) == ScopeKey(a)
        ensures b == a
      {
        BarsOfKey(a);
        BarsOfKey(b);
        BarsIff(a.tenant);
        BarsIff(a.subject);
        BarsIff(b.tenant);
        BarsIff(b.subject);
        ScopeKeyInjective(a, b);
      }
    }
  }

  /** So the key is a scope's own in every run, whatever other scopes appear, when its tenant and subject have no separator. */
  lemma OwnKeyInEveryRun(es: seq<Event>, scope: Scope)
    requires '|' !in scope.tenant && '|' !in scope.subject
    ensures KeyIsOwn(es, scope)
  {
    ScopeKeyIsOwnIff(scope);
  }

  /** For instance, these two scopes share recorded usage. */
  lemma ScopeKeyCollision()
    ensures var a, b := Scope("t|s", "u", ""), Scope("t", "s|u", ""); a != b && ScopeKey(a) == ScopeKey(b)
  {
    assert Scope("t|s", "u", "").tenant != Scope("t", "s|u", "").tenant;
  }
}
