/**
  The migration planner and runner: a ledger of applied versions, a plan computed from it, and one
  transaction per planned migration that runs a script and changes one ledger row.
 */
module Migrations {
  import opened Wrappers

  datatype Migration = Migration(version: int, name: string, checksum: string)

  datatype Direction = Upgrade | Down

  datatype PlanError = UnknownVersion | GapOrOutOfOrder | NoMigrations

  /** What `discover_migrations` returns: versions strictly increase. */
  ghost predicate Sorted(ms: seq<Migration>) {
    forall i, j | 0 <= i < j < |ms| :: ms[i].version < ms[j].version
  }

  function Versions(ms: seq<Migration>): seq<int> {
    seq(|ms|, i requires 0 <= i < |ms| => ms[i].version)
  }

  function VersionSet(ms: seq<Migration>): set<int> {
    set m | m in ms :: m.version
  }

  /** `[m for m in ms if p(m)]` */
  function Where(ms: seq<Migration>, p: Migration -> bool): seq<Migration> {
    if ms == [] then [] else (if p(ms[0]) then [ms[0]] else []) + Where(ms[1..], p)
  }

  // the conditions of the planner's comprehensions

  function InLedger(applied: set<int>): Migration -> bool {
    (m: Migration) => m.version in applied
  }

  function AtMost(bound: int): Migration -> bool {
    (m: Migration) => m.version <= bound
  }

  function Pending(upper: int, applied: set<int>): Migration -> bool {
    (m: Migration) => m.version <= upper && m.version !in applied
  }

  function Above(lower: int, applied: set<int>): Migration -> bool {
    (m: Migration) => m.version > lower && m.version in applied
  }

  function Reverse(ms: seq<Migration>): seq<Migration> {
    if ms == [] then [] else Reverse(ms[1..]) + [ms[0]]
  }

  function Min(a: nat, b: nat): nat {
    if a <= b then a else b
  }

  /** `migration_plan` */
  function Plan(ms: seq<Migration>, applied: set<int>, direction: Direction, target: Option<int>): Result<seq<Migration>, PlanError> {
    if !(applied <= VersionSet(ms)) then Err(UnknownVersion)
    else
      var appliedOrder := Versions(Where(ms, InLedger(applied)));
      match direction
      case Upgrade =>
        if target.None? && ms == [] then Err(NoMigrations)
        else
          var upper := if target.Some? then target.value else ms[|ms| - 1].version;
          var expected := Versions(Where(ms, AtMost(upper)));
          if appliedOrder != expected[..Min(|appliedOrder|, |expected|)] then Err(GapOrOutOfOrder)
          else Ok(Where(ms, Pending(upper, applied)))
      case Down =>
        var lower := if target.Some? then target.value else 0;
        if appliedOrder != [] && appliedOrder != Versions(Where(ms, AtMost(appliedOrder[|appliedOrder| - 1])))
        then Err(GapOrOutOfOrder)
        else Ok(Where(Reverse(ms), Above(lower, applied)))
  }

  // ---- what a plan is ----

  /** How many versions do not exceed `bound`. */
  function UpTo(ms: seq<Migration>, bound: int): (n: nat)
    ensures n <= |ms|
  {
    if ms == [] || ms[|ms| - 1].version <= bound then |ms| else UpTo(ms[..|ms| - 1], bound)
  }

  lemma {:induction false} UpToSplits(ms: seq<Migration>, bound: int)
    requires Sorted(ms)
    ensures forall i | 0 <= i < |ms| :: ms[i].version <= bound <==> i < UpTo(ms, bound)
  {
    if ms == [] || ms[|ms| - 1].version <= bound {
    } else {
      var init := ms[..|ms| - 1];
      assert forall i | 0 <= i < |init| :: init[i] == ms[i];
      UpToSplits(init, bound);
    }
  }

  lemma HeadSlice(ms: seq<Migration>, b: nat)
    requires 0 < b <= |ms|
    ensures ms[0..b] == [ms[0]] + ms[1..][0..b - 1]
  {
  }

  lemma TailSlice(ms: seq<Migration>, a: nat, b: nat)
    requires 0 < a <= b <= |ms|
    ensures ms[a..b] == ms[1..][a - 1..b - 1]
  {
    var left, right := ms[a..b], ms[1..][a - 1..b - 1];
    assert |left| == |right|;
    forall i | 0 <= i < |left|
      ensures left[i] == right[i]
    {
      assert right[i] == ms[1..][a - 1 + i] == ms[a + i];
    }
  }

  /** A filter that passes exactly the positions from `a` to `b` is a slice. */
  lemma {:induction false} WhereIsSlice(ms: seq<Migration>, p: Migration -> bool, a: nat, b: nat)
    requires a <= b <= |ms| && forall i | 0 <= i < |ms| :: p(ms[i]) <==> a <= i < b
    ensures Where(ms, p) == ms[a..b]
  {
    if ms == [] {
    } else {
      var tail := ms[1..];
      forall i | 0 <= i < |tail|
        ensures p(tail[i]) <==> a <= i + 1 < b
      {
        assert tail[i] == ms[i + 1];
      }
      assert p(ms[0]) <==> a == 0 < b;
      if a == 0 < b {
        WhereIsSlice(tail, p, 0, b - 1);
        HeadSlice(ms, b);
      } else if b == 0 {
        WhereIsSlice(tail, p, 0, 0);
      } else if a > 0 {
        WhereIsSlice(tail, p, a - 1, b - 1);
        TailSlice(ms, a, b);
      }
    }
  }

  lemma {:induction false} WhereMembers(ms: seq<Migration>, p: Migration -> bool)
    ensures forall m :: m in Where(ms, p) <==> m in ms && p(m)
    ensures |Where(ms, p)| <= |ms|
  {
    if ms == [] {
    } else {
      WhereMembers(ms[1..], p);
      assert ms == [ms[0]] + ms[1..];
    }
  }

  lemma {:induction false} ReverseIndex(ms: seq<Migration>)
    ensures |Reverse(ms)| == |ms| && forall i | 0 <= i < |ms| :: Reverse(ms)[i] == ms[|ms| - 1 - i]
  {
    if ms == [] {
    } else {
      ReverseIndex(ms[1..]);
    }
  }

  lemma ReverseAt(ms: seq<Migration>, i: nat)
    ensures |Reverse(ms)| == |ms| && (i < |ms| ==> Reverse(ms)[i] == ms[|ms| - 1 - i])
  {
    ReverseIndex(ms);
  }

  lemma ReverseSlice(ms: seq<Migration>, a: nat, b: nat)
    requires a <= b <= |ms|
    ensures |Reverse(ms)| == |ms|
    ensures Reverse(ms)[|ms| - b..|ms| - a] == Reverse(ms[a..b])
  {
    var part := ms[a..b];
    ReverseAt(ms, 0);
    ReverseAt(part, 0);
    var left, right := Reverse(ms)[|ms| - b..|ms| - a], Reverse(part);
    assert |left| == |right| == b - a;
    forall i | 0 <= i < b - a
      ensures left[i] == right[i]
    {
      ReverseAt(ms, |ms| - b + i);
      ReverseAt(part, i);
      assert part[b - a - 1 - i] == ms[b - 1 - i];
    }
  }

  lemma PrefixSet(ms: seq<Migration>, n: nat)
    requires Sorted(ms) && n <= |ms|
    ensures forall i | 0 <= i < |ms| :: ms[i].version in VersionSet(ms[..n]) <==> i < n
  {
    forall i | 0 <= i < |ms|
      ensures ms[i].version in VersionSet(ms[..n]) <==> i < n
    {
      if i < n {
        assert ms[..n][i] == ms[i];
      }
    }
  }

  /** The ledger is the contiguous prefix of length `n` of the known versions. */
  ghost predicate IsPrefix(ms: seq<Migration>, applied: set<int>, n: nat) {
    n <= |ms| && applied == VersionSet(ms[..n])
  }

  lemma PrefixLengthUnique(ms: seq<Migration>, applied: set<int>, n: nat, k: nat)
    requires Sorted(ms) && IsPrefix(ms, applied, n) && IsPrefix(ms, applied, k)
    ensures n == k
  {
    PrefixSet(ms, n);
    PrefixSet(ms, k);
    var least := Min(n, k);
    assert least < |ms| ==> (ms[least].version in applied <==> least < n) && (ms[least].version in applied <==> least < k);
  }

  lemma SameVersionsInOrder(found: seq<Migration>, init: seq<Migration>)
    requires Versions(found) == Versions(init)
    ensures |found| == |init| && forall i | 0 <= i < |init| :: found[i].version == init[i].version
    ensures VersionSet(found) == VersionSet(init)
  {
    assert |found| == |Versions(found)| && |init| == |Versions(init)|;
    forall i | 0 <= i < |init|
      ensures found[i].version == init[i].version
    {
      assert found[i].version == Versions(found)[i] && init[i].version == Versions(init)[i];
    }
    forall i | 0 <= i < |init|
      ensures found[i].version in VersionSet(init) && init[i].version in VersionSet(found)
    {
      assert init[i] in init && found[i] in found;
    }
  }

  /** If the applied versions in order are those of a prefix, the applied set is that prefix. */
  lemma OrderGivesPrefix(ms: seq<Migration>, applied: set<int>, found: seq<Migration>, n: nat)
    requires applied <= VersionSet(ms) && n <= |ms|
    requires forall m :: m in found <==> m in ms && m.version in applied
    requires Versions(found) == Versions(ms[..n])
    ensures IsPrefix(ms, applied, n)
  {
    SameVersionsInOrder(found, ms[..n]);
    forall v | v in applied
      ensures v in VersionSet(found)
    {
      assert v in VersionSet(ms);
    }
    assert VersionSet(found) <= applied;
  }

  lemma OrderOfPrefix(ms: seq<Migration>, applied: set<int>, n: nat)
    requires Sorted(ms) && IsPrefix(ms, applied, n)
    ensures applied <= VersionSet(ms) && Where(ms, InLedger(applied)) == ms[..n]
  {
    PrefixSet(ms, n);
    WhereIsSlice(ms, InLedger(applied), 0, n);
  }

  /** The last version that an upgrade may reach, as a position. */
  function Upper(ms: seq<Migration>, target: Option<int>): (c: nat)
    requires ms != []
    ensures c <= |ms|
  {
    UpTo(ms, if target.Some? then target.value else ms[|ms| - 1].version)
  }

  function Lower(ms: seq<Migration>, target: Option<int>): nat {
    UpTo(ms, if target.Some? then target.value else 0)
  }

  lemma AcceptedUpgradeIsPrefix(ms: seq<Migration>, applied: set<int>, target: Option<int>)
    requires Sorted(ms) && ms != [] && Plan(ms, applied, Upgrade, target).Ok?
    ensures exists n: nat :: IsPrefix(ms, applied, n) && n <= Upper(ms, target)
  {
    var upper := if target.Some? then target.value else ms[|ms| - 1].version;
    var c := Upper(ms, target);
    UpToSplits(ms, upper);
    WhereIsSlice(ms, AtMost(upper), 0, c);
    WhereMembers(ms, InLedger(applied));
    var found := Where(ms, InLedger(applied));
    var n := |found|;
    assert |Versions(found)| == n && |Versions(ms[..c])| == c;
    assert n <= c;
    assert Versions(ms[..c])[..n] == Versions(ms[..n]);
    OrderGivesPrefix(ms, applied, found, n);
  }

  lemma UpgradePlanOfPrefix(ms: seq<Migration>, applied: set<int>, target: Option<int>, n: nat)
    requires Sorted(ms) && ms != [] && IsPrefix(ms, applied, n) && n <= Upper(ms, target)
    ensures Plan(ms, applied, Upgrade, target) == Ok(ms[n..Upper(ms, target)])
  {
    var upper := if target.Some? then target.value else ms[|ms| - 1].version;
    var c := Upper(ms, target);
    UpToSplits(ms, upper);
    WhereIsSlice(ms, AtMost(upper), 0, c);
    OrderOfPrefix(ms, applied, n);
    assert Versions(ms[..c])[..n] == Versions(ms[..n]);
    PrefixSet(ms, n);
    WhereIsSlice(ms, Pending(upper, applied), n, c);
  }

  /** An upgrade plan is accepted exactly for a contiguous prefix within the target, and is the stretch up to it. */
  lemma UpgradePlanIff(ms: seq<Migration>, applied: set<int>, target: Option<int>)
    requires Sorted(ms) && ms != []
    ensures Plan(ms, applied, Upgrade, target).Ok? <==> exists n: nat :: IsPrefix(ms, applied, n) && n <= Upper(ms, target)
    ensures forall n: nat | IsPrefix(ms, applied, n) && n <= Upper(ms, target) ::
              Plan(ms, applied, Upgrade, target) == Ok(ms[n..Upper(ms, target)])
  {
    if Plan(ms, applied, Upgrade, target).Ok? {
      AcceptedUpgradeIsPrefix(ms, applied, target);
    }
    forall n: nat | IsPrefix(ms, applied, n) && n <= Upper(ms, target)
      ensures Plan(ms, applied, Upgrade, target) == Ok(ms[n..Upper(ms, target)])
    {
      UpgradePlanOfPrefix(ms, applied, target, n);
    }
  }

  lemma StrayIff(ms: seq<Migration>, applied: set<int>)
    ensures !(applied <= VersionSet(ms)) <==> exists v | v in applied :: forall m | m in ms :: m.version != v
  {
    var strays := applied - VersionSet(ms);
    if v :| v in strays {
      assert forall m | m in ms :: m.version != v;
    } else {
      assert forall v | v in applied :: v !in strays;
    }
    if v :| v in applied && forall m | m in ms :: m.version != v {
      assert v !in VersionSet(ms);
    }
  }

  lemma FirstOf(ms: seq<Migration>)
    ensures ms == [] || ms[0] in ms
  {
  }

  /** Why a plan is refused: a version that no migration has, nothing to upgrade to, and otherwise a ledger that is no prefix. */
  lemma PlanErrorIff(ms: seq<Migration>, applied: set<int>, direction: Direction, target: Option<int>)
    ensures var plan, stray := Plan(ms, applied, direction, target), exists v | v in applied :: forall m | m in ms :: m.version != v;
            && (plan == Err(UnknownVersion) <==> stray)
            && (plan == Err(NoMigrations) <==> ms == [] && applied == {} && direction == Upgrade && target == None)
            && (plan == Err(GapOrOutOfOrder) ==> !stray && applied != {})
  {
    StrayIff(ms, applied);
    if applied == {} {
      WhereMembers(ms, InLedger(applied));
      FirstOf(Where(ms, InLedger(applied)));
    }
  }

  lemma AcceptedDownIsPrefix(ms: seq<Migration>, applied: set<int>, target: Option<int>)
    requires Sorted(ms) && Plan(ms, applied, Down, target).Ok?
    ensures exists n: nat :: IsPrefix(ms, applied, n)
  {
    WhereMembers(ms, InLedger(applied));
    var found := Where(ms, InLedger(applied));
    if found == [] {
      assert Versions(found) == Versions(ms[..0]);
      OrderGivesPrefix(ms, applied, found, 0);
    } else {
      var last := Versions(found)[|found| - 1];
      UpToSplits(ms, last);
      WhereIsSlice(ms, AtMost(last), 0, UpTo(ms, last));
      OrderGivesPrefix(ms, applied, found, UpTo(ms, last));
    }
  }

  lemma AtMostIsPrefix(ms: seq<Migration>, n: nat)
    requires Sorted(ms) && 0 < n <= |ms|
    ensures Where(ms, AtMost(ms[n - 1].version)) == ms[..n]
  {
    WhereIsSlice(ms, AtMost(ms[n - 1].version), 0, n);
  }

  lemma LastVersion(ms: seq<Migration>, n: nat)
    requires n <= |ms|
    ensures |Versions(ms[..n])| == n && (n > 0 ==> Versions(ms[..n])[n - 1] == ms[n - 1].version)
  {
  }

  /** A prefix passes the planner's check of the applied order. */
  lemma DownOrderPasses(ms: seq<Migration>, applied: set<int>, n: nat)
    requires Sorted(ms) && IsPrefix(ms, applied, n)
    ensures applied <= VersionSet(ms)
    ensures var order := Versions(Where(ms, InLedger(applied)));
            order != [] ==> order == Versions(Where(ms, AtMost(order[|order| - 1])))
  {
    OrderOfPrefix(ms, applied, n);
    LastVersion(ms, n);
    if n > 0 {
      AtMostIsPrefix(ms, n);
    }
  }

  lemma DownSelection(ms: seq<Migration>, applied: set<int>, lower: int, n: nat)
    requires Sorted(ms) && IsPrefix(ms, applied, n)
    ensures Where(Reverse(ms), Above(lower, applied)) == Reverse(ms[Min(n, UpTo(ms, lower))..n])
  {
    var k := Min(n, UpTo(ms, lower));
    var backwards, selected := Reverse(ms), Above(lower, applied);
    UpToSplits(ms, lower);
    PrefixSet(ms, n);
    ReverseAt(ms, 0);
    forall i | 0 <= i < |ms|
      ensures selected(backwards[i]) <==> |ms| - n <= i < |ms| - k
    {
      ReverseAt(ms, i);
      var j := |ms| - 1 - i;
      assert selected(ms[j]) <==> UpTo(ms, lower) <= j < n;
    }
    WhereIsSlice(backwards, selected, |ms| - n, |ms| - k);
    ReverseSlice(ms, k, n);
  }

  lemma DownPlanOfPrefix(ms: seq<Migration>, applied: set<int>, target: Option<int>, n: nat)
    requires Sorted(ms) && IsPrefix(ms, applied, n)
    ensures Plan(ms, applied, Down, target) == Ok(Reverse(ms[Min(n, Lower(ms, target))..n]))
  {
    DownOrderPasses(ms, applied, n);
    DownSelection(ms, applied, if target.Some? then target.value else 0, n);
  }

  /** A down plan is accepted exactly for a contiguous prefix, and is the stretch above the target backwards. */
  lemma DownPlanIff(ms: seq<Migration>, applied: set<int>, target: Option<int>)
    requires Sorted(ms)
    ensures Plan(ms, applied, Down, target).Ok? <==> exists n: nat :: IsPrefix(ms, applied, n)
    ensures forall n: nat | IsPrefix(ms, applied, n) ::
              Plan(ms, applied, Down, target) == Ok(Reverse(ms[Min(n, Lower(ms, target))..n]))
  {
    if Plan(ms, applied, Down, target).Ok? {
      AcceptedDownIsPrefix(ms, applied, target);
    }
    forall n: nat | IsPrefix(ms, applied, n)
      ensures Plan(ms, applied, Down, target) == Ok(Reverse(ms[Min(n, Lower(ms, target))..n]))
    {
      DownPlanOfPrefix(ms, applied, target, n);
    }
  }

  // ---- the database and its runner ----

  /** The ledger table, and the schema that the scripts change. */
  datatype Database<S> = Database(ledger: map<int, (string, string)>, schema: S)

  /** A script fails or yields the new schema. */
  datatype Scripts<!S> = Scripts(up: (Migration, S) -> Option<S>, down: (Migration, S) -> Option<S>)

  datatype ApplyError =
    | TargetInvalid
    | ChecksumMismatch(version: int)
    | PlanRefused(error: PlanError)
    | ScriptFailed(version: int)

  /** One transaction: the script and the ledger row together, or neither. */
  function Transact<S>(db: Database<S>, m: Migration, direction: Direction, scripts: Scripts<S>): Option<Database<S>> {
    var schema := if direction == Upgrade then scripts.up(m, db.schema) else scripts.down(m, db.schema);
    match schema
    case None => None
    case Some(s) =>
      Some(Database(if direction == Upgrade then db.ledger[m.version := (m.name, m.checksum)] else db.ledger - {m.version}, s))
  }

  /** The database after all of `plan`, or nothing when some script fails. */
  function Execute<S>(db: Database<S>, plan: seq<Migration>, direction: Direction, scripts: Scripts<S>): Option<Database<S>> {
    if plan == [] then Some(db)
    else
      match Execute(db, plan[..|plan| - 1], direction, scripts)
      case None => None
      case Some(before) => Transact(before, plan[|plan| - 1], direction, scripts)
  }

  /** A migration that is not in the ledger, or is there with the name and checksum of its file. */
  predicate RowMatches(m: Migration, ledger: map<int, (string, string)>) {
    m.version in ledger ==> ledger[m.version] == (m.name, m.checksum)
  }

  /** Every known version in the ledger carries the name and checksum of its file. */
  ghost predicate ChecksumsMatch(ms: seq<Migration>, ledger: map<int, (string, string)>) {
    forall m | m in ms :: RowMatches(m, ledger)
  }

  ghost predicate FirstMismatch(ms: seq<Migration>, ledger: map<int, (string, string)>, i: nat) {
    i < |ms| && !RowMatches(ms[i], ledger) && forall j | 0 <= j < i :: RowMatches(ms[j], ledger)
  }

  /** Why a run is refused before anything is executed: the first check that fails. */
  ghost predicate RefusedWith(ms: seq<Migration>, ledger: map<int, (string, string)>, direction: Direction, target: Option<int>,
                              error: ApplyError)
  {
    if target.Some? && target.value < 0 then error == TargetInvalid
    else if !ChecksumsMatch(ms, ledger) then exists i: nat :: FirstMismatch(ms, ledger, i) && error == ChecksumMismatch(ms[i].version)
    else Plan(ms, ledger.Keys, direction, target).Err? && error == PlanRefused(Plan(ms, ledger.Keys, direction, target).error)
  }

  /** The target is valid and the ledger is accepted for a run in this direction. */
  ghost predicate Accepted(ms: seq<Migration>, ledger: map<int, (string, string)>, direction: Direction, target: Option<int>) {
    && (target.Some? ==> target.value >= 0)
    && ChecksumsMatch(ms, ledger) && Plan(ms, ledger.Keys, direction, target).Ok?
  }

  class Runner<S(!new)> {
    var db: Database<S>

    constructor (db: Database<S>)
      ensures this.db == db
    {
      this.db := db;
    }

    /** The first known migration whose ledger row differs from its file, if any. */
    method CheckSums(ms: seq<Migration>) returns (bad: Option<int>)
      ensures bad == None <==> ChecksumsMatch(ms, db.ledger)
      ensures bad.Some? ==> exists i: nat :: FirstMismatch(ms, db.ledger, i) && bad.value == ms[i].version
    {
      for i := 0 to |ms|
        invariant forall j | 0 <= j < i :: RowMatches(ms[j], db.ledger)
      {
        if ms[i].version in db.ledger && db.ledger[ms[i].version] != (ms[i].name, ms[i].checksum) {
          assert ms[i] in ms && FirstMismatch(ms, db.ledger, i);
          return Some(ms[i].version);
        }
      }
      bad := None;
    }

    /** One transaction per planned migration; `committed` counts those that took effect before a script failed. */
    method RunPlan(plan: seq<Migration>, direction: Direction, scripts: Scripts<S>) returns (committed: nat)
      modifies this
      ensures committed <= |plan| && Execute(old(db), plan[..committed], direction, scripts) == Some(db)
      ensures committed < |plan| ==> Execute(old(db), plan[..committed + 1], direction, scripts) == None
    {
      committed := 0;
      while committed < |plan|
        invariant committed <= |plan| && Execute(old(db), plan[..committed], direction, scripts) == Some(db)
      {
        assert plan[..committed + 1][..committed] == plan[..committed];
        var next := Transact(db, plan[committed], direction, scripts);
        if next.None? {
          return;
        }
        db := next.value;
        committed := committed + 1;
      }
    }

    /**
      `apply`.  A refused ledger changes nothing; otherwise the database ends exactly `committed` transactions
      of the plan further, which is all of it unless the next script failed.
     */
    method Apply(ms: seq<Migration>, direction: Direction, target: Option<int>, scripts: Scripts<S>)
      returns (r: Result<seq<int>, ApplyError>, committed: nat)
      modifies this
      ensures !Accepted(ms, old(db).ledger, direction, target) ==>
                r.Err? && RefusedWith(ms, old(db).ledger, direction, target, r.error) && db == old(db)
      ensures Accepted(ms, old(db).ledger, direction, target) ==>
                var plan := Plan(ms, old(db).ledger.Keys, direction, target).value;
                && committed <= |plan|
                && Execute(old(db), plan[..committed], direction, scripts) == Some(db)
                && r == (if committed == |plan| then Ok(Versions(plan)) else Err(ScriptFailed(plan[committed].version)))
                && (r.Err? ==> Execute(old(db), plan[..committed + 1], direction, scripts) == None)
    {
      committed := 0;
      if target.Some? && target.value < 0 {
        return Err(TargetInvalid), 0;
      }
      var bad := CheckSums(ms);
      if bad.Some? {
        return Err(ChecksumMismatch(bad.value)), 0;
      }
      var planned := Plan(ms, db.ledger.Keys, direction, target);
      if planned.Err? {
        return Err(PlanRefused(planned.error)), 0;
      }
      var plan := planned.value;
      committed := RunPlan(plan, direction, scripts);
      r := if committed == |plan| then Ok(Versions(plan)) else Err(ScriptFailed(plan[committed].version));
    }
  }

  // ---- what executing a plan does to the ledger and to the schema ----

  function Entries(plan: seq<Migration>): map<int, (string, string)> {
    if plan == [] then map[] else
      var m := plan[|plan| - 1];
      Entries(plan[..|plan| - 1])[m.version := (m.name, m.checksum)]
  }

  function LedgerAfter(ledger: map<int, (string, string)>, plan: seq<Migration>, direction: Direction): map<int, (string, string)> {
    if direction == Upgrade then ledger + Entries(plan) else ledger - VersionSet(plan)
  }

  function RunScripts<S>(schema: S, plan: seq<Migration>, direction: Direction, scripts: Scripts<S>): Option<S> {
    if plan == [] then Some(schema)
    else
      match RunScripts(schema, plan[..|plan| - 1], direction, scripts)
      case None => None
      case Some(s) => if direction == Upgrade then scripts.up(plan[|plan| - 1], s) else scripts.down(plan[|plan| - 1], s)
  }

  lemma VersionSetConcat(a: seq<Migration>, b: seq<Migration>)
    ensures VersionSet(a + b) == VersionSet(a) + VersionSet(b)
  {
  }

  /** Ledger and schema evolve independently: the scripts decide only whether the plan goes through. */
  lemma {:induction false} ExecuteSplits<S>(db: Database<S>, plan: seq<Migration>, direction: Direction, scripts: Scripts<S>)
    ensures Execute(db, plan, direction, scripts)
         == (match RunScripts(db.schema, plan, direction, scripts)
             case None => None
             case Some(s) => Some(Database(LedgerAfter(db.ledger, plan, direction), s)))
  {
    if plan == [] {
      assert db.ledger + map[] == db.ledger && db.ledger - VersionSet([]) == db.ledger;
    } else {
      var init, m := plan[..|plan| - 1], plan[|plan| - 1];
      ExecuteSplits(db, init, direction, scripts);
      assert plan == init + [m];
      VersionSetConcat(init, [m]);
      assert VersionSet([m]) == {m.version};
      assert (db.ledger + Entries(init))[m.version := (m.name, m.checksum)] == db.ledger + Entries(plan);
      assert (db.ledger - VersionSet(init)) - {m.version} == db.ledger - VersionSet(plan);
    }
  }

  lemma {:induction false} EntriesOf(plan: seq<Migration>)
    ensures Entries(plan).Keys == VersionSet(plan)
    ensures forall v | v in Entries(plan) :: exists m :: m in plan && m.version == v && Entries(plan)[v] == (m.name, m.checksum)
  {
    if plan == [] {
    } else {
      var init, m := plan[..|plan| - 1], plan[|plan| - 1];
      EntriesOf(init);
      assert plan == init + [m];
    }
  }

  lemma SameVersionSameMigration(ms: seq<Migration>, a: Migration, b: Migration)
    requires Sorted(ms) && a in ms && b in ms && a.version == b.version
    ensures a == b
  {
  }

  /** A prefix of the known versions and the stretch after it. */
  lemma StretchAfterPrefix(ms: seq<Migration>, n: nat, c: nat)
    requires Sorted(ms) && n <= c <= |ms|
    ensures VersionSet(ms[..c]) == VersionSet(ms[..n]) + VersionSet(ms[n..c])
    ensures VersionSet(ms[..n]) !! VersionSet(ms[n..c])
  {
    assert ms[..c] == ms[..n] + ms[n..c];
    VersionSetConcat(ms[..n], ms[n..c]);
    PrefixSet(ms, n);
    forall x | x in ms[n..c]
      ensures x.version !in VersionSet(ms[..n])
    {
      var i :| 0 <= i < c - n && ms[n..c][i] == x;
      assert ms[n + i] == x;
    }
  }

  lemma EntriesMatch(ms: seq<Migration>, ledger: map<int, (string, string)>, plan: seq<Migration>)
    requires Sorted(ms) && ChecksumsMatch(ms, ledger) && forall m :: m in plan ==> m in ms
    ensures ChecksumsMatch(ms, ledger + Entries(plan))
  {
    EntriesOf(plan);
    forall m | m in ms && m.version in Entries(plan)
      ensures Entries(plan)[m.version] == (m.name, m.checksum)
    {
      var x :| x in plan && x.version == m.version && Entries(plan)[m.version] == (x.name, x.checksum);
      SameVersionSameMigration(ms, x, m);
    }
  }

  /** A committed stretch of an upgrade lengthens the prefix, and deleting the stretch gives the old ledger back. */
  lemma UpgradeExtendsPrefix<S>(ms: seq<Migration>, db: Database<S>, n: nat, c: nat, scripts: Scripts<S>)
    requires Sorted(ms) && n <= c <= |ms| && IsPrefix(ms, db.ledger.Keys, n) && ChecksumsMatch(ms, db.ledger)
    requires Execute(db, ms[n..c], Upgrade, scripts).Some?
    ensures var after := Execute(db, ms[n..c], Upgrade, scripts).value.ledger;
            IsPrefix(ms, after.Keys, c) && ChecksumsMatch(ms, after) && after - VersionSet(ms[n..c]) == db.ledger
  {
    var plan := ms[n..c];
    ExecuteSplits(db, plan, Upgrade, scripts);
    EntriesOf(plan);
    EntriesMatch(ms, db.ledger, plan);
    StretchAfterPrefix(ms, n, c);
    assert (db.ledger + Entries(plan)) - VersionSet(plan) == db.ledger;
  }

  lemma ReverseSet(ms: seq<Migration>)
    ensures VersionSet(Reverse(ms)) == VersionSet(ms)
  {
    ReverseIndex(ms);
    forall i | 0 <= i < |ms|
      ensures ms[i] in Reverse(ms) && Reverse(ms)[i] in ms
    {
      assert Reverse(ms)[|ms| - 1 - i] == ms[i];
    }
  }

  /** A committed stretch of a rollback shortens the prefix. */
  lemma DownShrinksPrefix<S>(ms: seq<Migration>, db: Database<S>, n: nat, c: nat, scripts: Scripts<S>)
    requires Sorted(ms) && n <= c <= |ms| && IsPrefix(ms, db.ledger.Keys, c) && ChecksumsMatch(ms, db.ledger)
    requires Execute(db, Reverse(ms[n..c]), Down, scripts).Some?
    ensures var after := Execute(db, Reverse(ms[n..c]), Down, scripts).value.ledger;
            IsPrefix(ms, after.Keys, n) && ChecksumsMatch(ms, after)
  {
    ExecuteSplits(db, Reverse(ms[n..c]), Down, scripts);
    ReverseSet(ms[n..c]);
    StretchAfterPrefix(ms, n, c);
  }

  // ---- crash and resume ----

  lemma SliceHeads(ms: seq<Migration>, n: nat, c: nat, k: nat)
    requires n <= c <= |ms| && k <= c - n
    ensures ms[n..c][..k] == ms[n..n + k] && ms[n..c][k..] == ms[n + k..c]
  {
  }

  lemma CrashResumeUp<S>(ms: seq<Migration>, db: Database<S>, target: Option<int>, scripts: Scripts<S>, n: nat, k: nat)
    requires Sorted(ms) && ms != [] && IsPrefix(ms, db.ledger.Keys, n) && ChecksumsMatch(ms, db.ledger)
    requires n + k <= Upper(ms, target) && Execute(db, ms[n..n + k], Upgrade, scripts).Some?
    ensures var after := Execute(db, ms[n..n + k], Upgrade, scripts).value.ledger;
            && ChecksumsMatch(ms, after) && IsPrefix(ms, after.Keys, n + k)
            && Plan(ms, after.Keys, Upgrade, target) == Ok(ms[n + k..Upper(ms, target)])
  {
    UpgradeExtendsPrefix(ms, db, n, n + k, scripts);
    var applied := Execute(db, ms[n..n + k], Upgrade, scripts).value.ledger.Keys;
    UpgradePlanOfPrefix(ms, applied, target, n + k);
  }

  lemma CrashResumeDown<S>(ms: seq<Migration>, db: Database<S>, target: Option<int>, scripts: Scripts<S>, n: nat, k: nat)
    requires Sorted(ms) && IsPrefix(ms, db.ledger.Keys, n) && ChecksumsMatch(ms, db.ledger)
    requires Min(n, Lower(ms, target)) + k <= n && Execute(db, Reverse(ms[n - k..n]), Down, scripts).Some?
    ensures var after := Execute(db, Reverse(ms[n - k..n]), Down, scripts).value.ledger;
            && ChecksumsMatch(ms, after) && IsPrefix(ms, after.Keys, n - k)
            && Plan(ms, after.Keys, Down, target) == Ok(Reverse(ms[Min(n, Lower(ms, target))..n - k]))
  {
    DownShrinksPrefix(ms, db, n - k, n, scripts);
    var applied := Execute(db, Reverse(ms[n - k..n]), Down, scripts).value.ledger.Keys;
    DownPlanOfPrefix(ms, applied, target, n - k);
    assert Min(n - k, Lower(ms, target)) == Min(n, Lower(ms, target));
  }

  lemma ReverseHeads(ms: seq<Migration>, low: nat, n: nat, k: nat)
    requires low <= n <= |ms| && k <= |Reverse(ms[low..n])|
    ensures |Reverse(ms[low..n])| == n - low
    ensures Reverse(ms[low..n])[..k] == Reverse(ms[n - k..n])
    ensures Reverse(ms[low..n])[k..] == Reverse(ms[low..n - k])
  {
    ReverseIndex(ms[low..n]);
    ReverseIndex(ms[n - k..n]);
    ReverseIndex(ms[low..n - k]);
  }

  /**
    Crash and resume: from any accepted ledger, after any prefix of the plan has been committed, the ledger
    is accepted again with the same direction and target, and the new plan is exactly what was left.
   */
  lemma CrashResume<S>(ms: seq<Migration>, db: Database<S>, direction: Direction, target: Option<int>, scripts: Scripts<S>,
                       plan: seq<Migration>, k: nat)
    requires Sorted(ms) && ms != [] && ChecksumsMatch(ms, db.ledger) && Plan(ms, db.ledger.Keys, direction, target) == Ok(plan)
    requires k <= |plan| && Execute(db, plan[..k], direction, scripts).Some?
    ensures var after := Execute(db, plan[..k], direction, scripts).value.ledger;
            && ChecksumsMatch(ms, after)
            && Plan(ms, after.Keys, direction, target) == Ok(plan[k..])
            && exists n: nat :: IsPrefix(ms, after.Keys, n)
  {
    if direction == Upgrade {
      AcceptedUpgradeIsPrefix(ms, db.ledger.Keys, target);
      var n: nat :| IsPrefix(ms, db.ledger.Keys, n) && n <= Upper(ms, target);
      UpgradePlanOfPrefix(ms, db.ledger.Keys, target, n);
      SliceHeads(ms, n, Upper(ms, target), k);
      CrashResumeUp(ms, db, target, scripts, n, k);
    } else {
      AcceptedDownIsPrefix(ms, db.ledger.Keys, target);
      var n: nat :| IsPrefix(ms, db.ledger.Keys, n);
      DownPlanOfPrefix(ms, db.ledger.Keys, target, n);
      ReverseHeads(ms, Min(n, Lower(ms, target)), n, k);
      CrashResumeDown(ms, db, target, scripts, n, k);
    }
  }

  /** A run that finished plans nothing more. */
  lemma FinishedPlansNothing<S>(ms: seq<Migration>, db: Database<S>, direction: Direction, target: Option<int>, scripts: Scripts<S>,
                                plan: seq<Migration>)
    requires Sorted(ms) && ms != [] && ChecksumsMatch(ms, db.ledger) && Plan(ms, db.ledger.Keys, direction, target) == Ok(plan)
    requires Execute(db, plan, direction, scripts).Some?
    ensures Plan(ms, Execute(db, plan, direction, scripts).value.ledger.Keys, direction, target) == Ok([])
  {
    assert plan[..|plan|] == plan && plan[|plan|..] == [];
    CrashResume(ms, db, direction, target, scripts, plan, |plan|);
  }

  // ---- upgrade and roll back ----

  /** Each down script takes back what its up script did. */
  ghost predicate Inverse<S(!new)>(scripts: Scripts<S>) {
    forall m, s: S :: scripts.up(m, s).Some? ==> scripts.down(m, scripts.up(m, s).value) == Some(s)
  }

  lemma {:induction false} ScriptsFirst<S>(schema: S, m: Migration, rest: seq<Migration>, scripts: Scripts<S>)
    ensures RunScripts(schema, [m] + rest, Down, scripts)
         == (match scripts.down(m, schema) case None => None case Some(s) => RunScripts(s, rest, Down, scripts))
  {
    if rest == [] {
      assert ([m] + rest)[..0] == [];
    } else {
      var plan := [m] + rest;
      assert plan[..|plan| - 1] == [m] + rest[..|rest| - 1];
      ScriptsFirst(schema, m, rest[..|rest| - 1], scripts);
    }
  }

  lemma {:induction false} ReverseLast(init: seq<Migration>, m: Migration)
    ensures Reverse(init + [m]) == [m] + Reverse(init)
  {
    if init == [] {
    } else {
      assert (init + [m])[1..] == init[1..] + [m];
      ReverseLast(init[1..], m);
    }
  }

  /** Running a stretch of up scripts and then the down scripts in reverse restores the schema. */
  lemma {:induction false} ReverseUndoes<S(!new)>(schema: S, plan: seq<Migration>, scripts: Scripts<S>)
    requires Inverse(scripts) && RunScripts(schema, plan, Upgrade, scripts).Some?
    ensures RunScripts(RunScripts(schema, plan, Upgrade, scripts).value, Reverse(plan), Down, scripts) == Some(schema)
  {
    if plan == [] {
    } else {
      var init, m := plan[..|plan| - 1], plan[|plan| - 1];
      ReverseUndoes(schema, init, scripts);
      assert plan == init + [m];
      ReverseLast(init, m);
      ScriptsFirst(RunScripts(schema, plan, Upgrade, scripts).value, m, Reverse(init), scripts);
    }
  }

  /** Where going back to the version the prefix of length `n` ended with, or to 0, leaves the ledger after an upgrade to `c`. */
  function Landing(ms: seq<Migration>, n: nat, c: nat): nat
    requires n <= c <= |ms|
  {
    if n == 0 && c > 0 && ms[0].version == 0 then 1 else n
  }

  function StartVersion(ms: seq<Migration>, n: nat): int
    requires n <= |ms|
  {
    if n == 0 then 0 else ms[n - 1].version
  }

  lemma UpToEnd(ms: seq<Migration>, n: nat, bound: int)
    requires Sorted(ms) && n <= |ms| && forall i | 0 <= i < |ms| :: ms[i].version <= bound <==> i < n
    ensures UpTo(ms, bound) == n
  {
    UpToSplits(ms, bound);
    var least := Min(n, UpTo(ms, bound));
    assert least < |ms| ==> (ms[least].version <= bound <==> least < n);
  }

  lemma LandingIsLower(ms: seq<Migration>, n: nat, c: nat)
    requires Sorted(ms) && n <= c <= |ms| && (ms != [] ==> ms[0].version >= 0)
    ensures Min(c, UpTo(ms, StartVersion(ms, n))) == Landing(ms, n, c)
  {
    var bound := StartVersion(ms, n);
    if n == 0 && ms != [] && ms[0].version == 0 {
      UpToEnd(ms, 1, bound);
    } else {
      UpToEnd(ms, n, bound);
    }
  }

  lemma {:induction false} ExecuteAppend<S>(db: Database<S>, a: seq<Migration>, b: seq<Migration>, direction: Direction, scripts: Scripts<S>)
    ensures Execute(db, a + b, direction, scripts)
         == (match Execute(db, a, direction, scripts) case None => None case Some(mid) => Execute(mid, b, direction, scripts))
  {
    if b == [] {
      assert a + b == a;
    } else {
      var init := b[..|b| - 1];
      assert (a + b)[..|a + b| - 1] == a + init;
      ExecuteAppend(db, a, init, direction, scripts);
    }
  }

  lemma StretchUndone<S(!new)>(db: Database<S>, plan: seq<Migration>, scripts: Scripts<S>)
    requires Inverse(scripts) && Execute(db, plan, Upgrade, scripts).Some?
    requires Execute(db, plan, Upgrade, scripts).value.ledger - VersionSet(plan) == db.ledger
    ensures Execute(Execute(db, plan, Upgrade, scripts).value, Reverse(plan), Down, scripts) == Some(db)
  {
    ExecuteSplits(db, plan, Upgrade, scripts);
    ReverseUndoes(db.schema, plan, scripts);
    ReverseSet(plan);
    ExecuteSplits(Execute(db, plan, Upgrade, scripts).value, Reverse(plan), Down, scripts);
  }

  /** What going back does to the database: the stretch from `low` on is undone. */
  lemma StretchRunsBack<S(!new)>(ms: seq<Migration>, db: Database<S>, n: nat, low: nat, c: nat, scripts: Scripts<S>)
    requires Sorted(ms) && Inverse(scripts) && n <= low <= c <= |ms|
    requires IsPrefix(ms, db.ledger.Keys, n) && ChecksumsMatch(ms, db.ledger) && Execute(db, ms[n..c], Upgrade, scripts).Some?
    ensures Execute(db, ms[n..low], Upgrade, scripts).Some?
    ensures Execute(Execute(db, ms[n..c], Upgrade, scripts).value, Reverse(ms[low..c]), Down, scripts)
         == Execute(db, ms[n..low], Upgrade, scripts)
  {
    assert ms[n..c] == ms[n..low] + ms[low..c];
    ExecuteAppend(db, ms[n..low], ms[low..c], Upgrade, scripts);
    var mid := Execute(db, ms[n..low], Upgrade, scripts).value;
    UpgradeExtendsPrefix(ms, db, n, low, scripts);
    UpgradeExtendsPrefix(ms, mid, low, c, scripts);
    StretchUndone(mid, ms[low..c], scripts);
  }

  /**
    Going back after an upgrade from position `n` to `c` undoes it down to the landing point: the database is
    exactly what executing only the migrations before that point would have left.
   */
  lemma RollbackStretch<S(!new)>(ms: seq<Migration>, db: Database<S>, n: nat, c: nat, scripts: Scripts<S>)
    requires Sorted(ms) && ms != [] && ms[0].version >= 0 && Inverse(scripts) && n <= c <= |ms|
    requires IsPrefix(ms, db.ledger.Keys, n) && ChecksumsMatch(ms, db.ledger) && Execute(db, ms[n..c], Upgrade, scripts).Some?
    ensures var up, low := Execute(db, ms[n..c], Upgrade, scripts).value, Landing(ms, n, c);
            && ChecksumsMatch(ms, up.ledger)
            && Plan(ms, up.ledger.Keys, Down, Some(StartVersion(ms, n))) == Ok(Reverse(ms[low..c]))
            && Execute(db, ms[n..low], Upgrade, scripts).Some?
            && Execute(up, Reverse(ms[low..c]), Down, scripts) == Execute(db, ms[n..low], Upgrade, scripts)
  {
    UpgradeExtendsPrefix(ms, db, n, c, scripts);
    StretchRunsBack(ms, db, n, Landing(ms, n, c), c, scripts);
    LandingIsLower(ms, n, c);
    DownPlanOfPrefix(ms, Execute(db, ms[n..c], Upgrade, scripts).value.ledger.Keys, Some(StartVersion(ms, n)), c);
  }

  /** A prefix that is not empty, nothing to undo, or a first migration numbered from 1. */
  predicate GoesAllTheWayBack(ms: seq<Migration>, n: nat, plan: seq<Migration>)
    requires ms != []
  {
    n > 0 || plan == [] || ms[0].version >= 1
  }

  /** Executing a first migration on an empty ledger changes the ledger. */
  lemma FirstIsNew<S>(ms: seq<Migration>, db: Database<S>, scripts: Scripts<S>)
    requires ms != [] && IsPrefix(ms, db.ledger.Keys, 0)
    ensures Execute(db, [ms[0]], Upgrade, scripts) != Some(db)
  {
    ExecuteSplits(db, [ms[0]], Upgrade, scripts);
    EntriesOf([ms[0]]);
    var after := Execute(db, [ms[0]], Upgrade, scripts);
    assert ms[0] in [ms[0]] && ms[0].version in VersionSet([ms[0]]);
    assert VersionSet(ms[..0]) == {};
    assert after.Some? ==> ms[0].version in after.value.ledger && ms[0].version !in db.ledger;
  }

  /**
    Upgrade, then roll back: from an accepted prefix of length `n`, a finished upgrade to any target is undone by
    going down to the version the prefix ended with, or to 0 from an empty ledger.  The down plan is the reversed
    plan, and it restores ledger and schema, exactly if it goes all the way back; otherwise exactly the
    migration numbered 0 stays applied.
   */
  lemma RollbackRestores<S(!new)>(ms: seq<Migration>, db: Database<S>, target: Option<int>, scripts: Scripts<S>,
                                  plan: seq<Migration>, n: nat)
    requires Sorted(ms) && ms != [] && ms[0].version >= 0 && Inverse(scripts)
    requires ChecksumsMatch(ms, db.ledger) && Plan(ms, db.ledger.Keys, Upgrade, target) == Ok(plan) && IsPrefix(ms, db.ledger.Keys, n)
    requires Execute(db, plan, Upgrade, scripts).Some?
    ensures var up := Execute(db, plan, Upgrade, scripts).value;
            var down := Plan(ms, up.ledger.Keys, Down, Some(StartVersion(ms, n)));
            && ChecksumsMatch(ms, up.ledger) && down.Ok?
            && (down.value == Reverse(plan) <==> GoesAllTheWayBack(ms, n, plan))
            && (Execute(up, down.value, Down, scripts) == Some(db) <==> GoesAllTheWayBack(ms, n, plan))
            && (!GoesAllTheWayBack(ms, n, plan) ==>
                  && ms[0].version == 0
                  && Execute(up, down.value, Down, scripts) == Execute(db, [ms[0]], Upgrade, scripts)
                  && Execute(db, [ms[0]], Upgrade, scripts).Some?)
  {
    var c := Upper(ms, target);
    AcceptedUpgradeIsPrefix(ms, db.ledger.Keys, target);
    var k: nat :| IsPrefix(ms, db.ledger.Keys, k) && k <= c;
    PrefixLengthUnique(ms, db.ledger.Keys, n, k);
    UpgradePlanOfPrefix(ms, db.ledger.Keys, target, n);
    RollbackStretch(ms, db, n, c, scripts);
    var low := Landing(ms, n, c);
    if low == n {
      assert ms[n..low] == [];
    } else {
      assert ms[n..low] == [ms[0]];
      ReverseAt(ms[n..c], 0);
      ReverseAt(ms[low..c], 0);
      FirstIsNew(ms, db, scripts);
    }
  }

  /** A script pair that counts: each up script adds one, each down script takes one away. */
  function CountingScripts(): Scripts<int> {
    Scripts((m, s) => Some(s + 1), (m, s) => Some(s - 1))
  }

  /** Such a run: one migration numbered 0, applied to an empty database, is not taken back by going down to 0. */
  lemma VersionZeroIsNotRolledBack()
    ensures var zero, empty := Migration(0, "initial", "checksum"), Database(map[], 0);
            var up := Execute(empty, [zero], Upgrade, CountingScripts());
            && Inverse(CountingScripts()) && Sorted([zero])
            && Plan([zero], empty.ledger.Keys, Upgrade, None) == Ok([zero])
            && up.Some? && up.value.ledger.Keys == {0} && up.value.schema == 1
            && Plan([zero], up.value.ledger.Keys, Down, Some(0)) == Ok([])
            && Execute(up.value, [], Down, CountingScripts()) != Some(empty)
  {
    var zero, empty := Migration(0, "initial", "checksum"), Database(map[], 0);
    var ms := [zero];
    assert ms[..0] == [] && IsPrefix(ms, empty.ledger.Keys, 0);
    assert Upper(ms, None) == 1 && ms[0..1] == [zero];
    UpgradePlanOfPrefix(ms, empty.ledger.Keys, None, 0);
    RollbackRestores(ms, empty, None, CountingScripts(), ms, 0);
    RollbackStretch(ms, empty, 0, 1, CountingScripts());
    assert ms[1..1] == [];
    ExecuteSplits(empty, ms, Upgrade, CountingScripts());
    EntriesOf(ms);
    assert VersionSet(ms) == {0} by {
      assert zero in ms;
    }
  }

  /** More generally, no valid target makes a down plan reach a migration numbered 0. */
  lemma VersionZeroStays(ms: seq<Migration>, applied: set<int>, target: Option<int>, plan: seq<Migration>)
    requires (target.Some? ==> target.value >= 0) && Plan(ms, applied, Down, target) == Ok(plan)
    ensures forall m | m in plan :: m.version >= 1
  {
    WhereMembers(Reverse(ms), Above(if target.Some? then target.value else 0, applied));
  }
}
