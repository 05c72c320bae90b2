# Verified model of MailHub's ledgers and canonical forms

MailHub is a governed mailbox service with host-side ledgers.  This project models the parts of it whose
correctness is hard to see from one function body, and proves what those parts are for.  Everything is proved
for all inputs, all runs or all reachable states.  There is one module per component:

- `Quota` (with `IsoTime`): quota leases of the local host, and the ISO texts by which their rows are selected.
- `HostActions`, `Knowledge`: the approval and action ledger and the knowledge submissions of the BFF.
- `Credentials`, `Scopes`, `OAuthStates`: the credential broker with stale readers, its scope rules, its one-time states.
- `Migrations`: the migration planner and its runner.
- `SignedState`, `OAuthService`: unpadded base64url, the signed OAuth state, beginning and consuming an authorization.
- `Redaction`, `Events`: redaction of event trees, and the event builder with the validator that relies on it.
- `Recipients`: address normalisation and the text under the recipient digest.
- `Sanitizer`: removal of HTML from mail text.
- `Policy`: the policy and delegation decision.
- `Percentile`, `TestOutput`: the p95 of an activation observation; the printer and the parser of its result file.
- `Text`, `Sets`, `Wrappers`: shared string operations, facts about finite sets, and result types.

Code that changes state is a class whose methods are proved equal to a step function on its old contents; runs are
sequences of such steps, and the theorems are about runs.  What a step answers is stated a second time without the
step: who may load a credential, when a lease is refused, when an approval is confirmed, which states verify.

Each database transaction is one step.  Loads and commits of the credential broker are separate steps, with every
snapshot ever loaded kept in the state, so that any interleaving of any number of clients is covered.  Loops of the
code are loops here, with invariants.

Functions the code calls but that are not modelled are parameters, and the theorems hold for any of them: case
folding and lowering, SHA-256, HMAC, JSON, UUID and timestamp parsing, URL validation, case-insensitive character
matching.  What is asked of one (JSON gives back what was written, '>' matches no letter) is a named predicate such
as `Faithful` or `Sensible`.  Encryption is left out of the rows, because decryption gives back what was encrypted.
Instants are integer microseconds; random tokens and the clock are arguments.

## What the proofs found

- **Quota**: with `C` concurrent and `H` hourly leases, live leases plus usage of the hour stay within `H + C - 1`,
  but only when leases are released *strictly before* they expire; the same holds for the day.  Whenever a window is limited
  there is a run in which one release at expiry, or later, exceeds that (`LateReleaseBreaksBound`); which releases
  keep it is decided by the counts before the call (`ReleaseKeepsBoundIff`, over runs `RunWithinBoundIff`).
- **Scope keys** are shared with another scope exactly when tenant or subject contains '|' (`ScopeKeyIsOwnIff`).
- **Approvals** can be used exactly when tenant and subject were given in ASCII and without surrounding white space
  (`IssuedApprovalIsUsableIff`): owners are stored as given, while an action's are stripped and the comparison raises
  on other characters.  Unusable ones are issued all the same (`UnusableApprovalsAreIssued`).
- **Claims** of an action that is still running are dispatched again, so one action can be handed out twice at once
  (`DispatchedIff`, `OverlappingDispatch`).
- **Recipient digests**: every draft with Cc or Bcc has a To-only twin with the same digest text, whose addresses are its
  prefixed lines (`EveryCopyHasATwin`); the twin is an acceptable draft unless a prefix takes an address over 320
  characters.  Exactly the To-only drafts whose addresses do not read as headers are alone (`AloneIff`).  While no
  To-only draft has an address beginning with "cc:" or "bcc:" the text is injective; "to:" need not be excluded.
- **Events**: the builder measures stripped identifiers and emits raw ones, so a padded tenant is built and then
  refused; the exact condition is `BuiltPayloadAcceptedIff`.
- **Policies** are monotone in everything but the automation level: a reply needs exactly L3B, and a higher level
  refuses it.  A domain list of blanks means any domain.
- **Migrations** numbered 0 are never rolled back.  Going back after an upgrade restores the start exactly when the ledger was
  not empty, nothing was planned, or the first version is at least 1 (`RollbackRestores`); otherwise version 0 stays.
- **Test output**: three Unicode line breaks (U+0085, U+2028, U+2029) pass the printer and make the validator refuse the file, in
  every field (`UnicodeBreaksPassThePrinter`), and no other line breaks do (`BoundedBreaksAreUnicode`).

## Model

| member | source | states |
|---|---|---|
| Quota.QuotaStore.AcquireQuota | local-host/local_host/stores.py:414-490 | the three window checks in order, then one lease row: state and answer are the acquire step of the old state, which RefusedIff and GrantedIff describe |
| Quota.QuotaStore.ReleaseQuota | local-host/local_host/stores.py:492-519 | a missing lease changes nothing; otherwise the lease goes and, if consumed, one usage row is written |
| Quota.RefusedIff | local-host/local_host/stores.py:430-463 | an acquisition is refused exactly when a positive limit is at most the number of unexpired leases, of usage rows of the last 3600 seconds, or of the last 86400 seconds, each counted from the tables directly |
| Quota.GrantedIff | local-host/local_host/stores.py:464-490 | whatever is not refused is granted under a new id: a lease with these fields that expires in exactly one hour, and nothing else changes |
| Quota.UsedSinceIsReturns | local-host/local_host/stores.py:446-516 | over every run the number a window check counts is the number of consuming returns made inside the window |
| Quota.QuotaBound | local-host/local_host/stores.py:425-519 | over every run with fixed limits, monotone clock, own key and releases before expiry: live leases <= C, and usage of the hour and of the day plus live leases <= limit + C - 1, at any later moment too |
| Quota.RunWithinBoundIff | local-host/local_host/stores.py:425-519 | exactly: every state of a run is within the bound as it arises if and only if each late consuming release of the scope finds room in both windows |
| Quota.ConcurrencyBound | local-host/local_host/stores.py:430-445 | the concurrency limit holds in every run, with no assumption on releases or keys |
| Quota.BoundSurvivesTime | local-host/local_host/stores.py:434-450 | letting time pass keeps the bound: windows only lose rows and leases only expire |
| Quota.AcquireKeepsBound | local-host/local_host/stores.py:430-479 | any acquire keeps the combined bound |
| Quota.ReleaseKeepsBoundIff | local-host/local_host/stores.py:497-516 | exactly which releases keep the bound: all but a late consuming one that finds, on the counts before the call, no room in a limited window |
| Quota.LateReleaseBreaksBound | local-host/local_host/stores.py:497-516 | for every moment from expiry on, some disciplined run is taken over the bound by one late release, exactly for limits that limit the hour or the day |
| Quota.LeaseConservation | local-host/local_host/stores.py:464-516 | each grant is still held, was returned unused, or was returned into one usage row |
| Quota.ReleaseWritesOneRow | local-host/local_host/stores.py:497-516 | a release writes a usage row exactly when it finds its lease and consumes |
| Quota.UsageRowsAreReturns | local-host/local_host/stores.py:497-516 | over every run the usage rows are exactly the consuming returns, each with the lease that wrote it |
| Quota.RowsAreChargedToGrants | local-host/local_host/stores.py:503-512 | every usage row carries the key and operation for which its lease was granted |
| Quota.AtMostOneRowPerLease | local-host/local_host/stores.py:497-516 | a lease granted once writes at most one usage row of the run, however often it is released |
| Quota.ScopeKeyInjective | local-host/local_host/stores.py:426-426 | distinct scopes have distinct keys when no tenant or subject contains the separator |
| Quota.ScopeKeyIsOwnIff | local-host/local_host/stores.py:426-426 | a scope shares its key with no other exactly when neither its tenant nor its subject contains the separator |
| Quota.OwnKeyInEveryRun | local-host/local_host/stores.py:426-426 | so the key of a scope without separator is its own in every run, whatever other scopes appear |
| Quota.ScopeKeyCollision | local-host/local_host/stores.py:426-426 | an instance: two scopes that share a key |
| IsoTime.TextOrderIsTimeOrder | local-host/local_host/stores.py:431-461 | for any two UTC instants, comparing the ISO texts agrees with comparing the instants, with or without a fraction |
| IsoTime.TextOrderIsFieldOrder | local-host/local_host/stores.py:475-476 | text order is the order of the date and time fields |
| IsoTime.FieldsInOrder | local-host/local_host/stores.py:475-476 | field order is the order of the instants on the proleptic Gregorian calendar |
| IsoTime.IsoTextReadsBack | local-host/local_host/stores.py:475-476 | the text has every field in its place, in decimal, with a six-digit fraction exactly when there is one, and the UTC offset |
| IsoTime.SqlSelectsLaterRows | local-host/local_host/stores.py:447-451 | the text comparison of the queries selects exactly the rows after the instant |
| HostActions.HostActionBroker.Issue | apps/bff/src/caplatform_bff/mailhub_host_actions.py:352-382 | expired unbound approvals go and the new one is inserted, or the transaction is rolled back on a taken reference |
| HostActions.HostActionBroker.IssueApproval | apps/bff/src/caplatform_bff/mailhub_host_actions.py:78-103 | tenant, subject and revision are checked, and the approval is stored with the owner as given |
| HostActions.HostActionBroker.Verify | apps/bff/src/caplatform_bff/mailhub_host_actions.py:384-417 | an unexpired approval of the same owner, candidate and revision is bound to the pair, or compared with the one it has; when the answer is positive is said by ConfirmedIff |
| HostActions.HostActionBroker.VerifyConfirmation | apps/bff/src/caplatform_bff/mailhub_host_actions.py:105-119 | the stripped binding of the action is verified, or the action is refused without a change |
| HostActions.HostActionBroker.Claim | apps/bff/src/caplatform_bff/mailhub_host_actions.py:419-480 | refusal, conflict, replay of the stored result, a new attempt, or a new running row |
| HostActions.HostActionBroker.Complete | apps/bff/src/caplatform_bff/mailhub_host_actions.py:482-499 | only a running row with that digest becomes succeeded with the result |
| HostActions.HostActionBroker.Fail | apps/bff/src/caplatform_bff/mailhub_host_actions.py:501-514 | only a running row with that digest becomes retry_wait with the error |
| HostActions.HostActionBroker.Restart | apps/bff/src/caplatform_bff/mailhub_host_actions.py:343-350 | every running row waits for a retry with the restart error; nothing else changes |
| HostActions.ScopeTextIff | apps/bff/src/caplatform_bff/mailhub_host_actions.py:596-604 | a scope text is what stripping leaves, 1 to 200 characters without a space or control character |
| HostActions.BindingIff | apps/bff/src/caplatform_bff/mailhub_host_actions.py:564-593 | exactly which actions have a binding, and which one |
| HostActions.IssuedIff | apps/bff/src/caplatform_bff/mailhub_host_actions.py:352-382 | an issue is rolled back exactly when its reference survives the clean-up; otherwise exactly the expired unbound approvals go and the new one has these fields |
| HostActions.ApprovalStemsFromIssue | apps/bff/src/caplatform_bff/mailhub_host_actions.py:352-417 | in every run a stored approval has the owner, candidate, revision and expiry of one issue event and has been kept since; without such an event nothing is stored |
| HostActions.ConfirmedIff | apps/bff/src/caplatform_bff/mailhub_host_actions.py:384-417 | in every run a verification is confirmed exactly when the reference was issued for just that tenant, subject, candidate and revision, was kept and has not expired, the owner is ASCII, and no other pair was confirmed |
| HostActions.ReplayedIff | apps/bff/src/caplatform_bff/mailhub_host_actions.py:443-457 | in every reachable ledger a result is replayed exactly to an approved claim of the owner and digest of the row, after success |
| HostActions.ConflictIff | apps/bff/src/caplatform_bff/mailhub_host_actions.py:443-455 | an approved claim conflicts exactly when the row has another owner or another digest |
| HostActions.RowIsFirstClaims | apps/bff/src/caplatform_bff/mailhub_host_actions.py:465-480 | over every run a row has the owner, digest, action and creation time of the claim that first dispatched it |
| HostActions.OutcomeIff | apps/bff/src/caplatform_bff/mailhub_host_actions.py:482-514 | completing and failing act exactly on the running row with that digest, and leave exactly that status, result, error and time |
| HostActions.RestartSweeps | apps/bff/src/caplatform_bff/mailhub_host_actions.py:343-350 | after a restart nothing runs; what ran waits with the restart error and is otherwise as before |
| HostActions.ErrorsWereReported | apps/bff/src/caplatform_bff/mailhub_host_actions.py:343-514 | a stored error was reported by a failure, or by a restart, while that action ran |
| HostActions.UpdatedAtIsLastChange | apps/bff/src/caplatform_bff/mailhub_host_actions.py:419-514 | over every run a row shows the instant of the last event that changed it |
| HostActions.RunKeepsInvariant | apps/bff/src/caplatform_bff/mailhub_host_actions.py:343-514 | in every reachable ledger each operation row has a surviving approval bound to its pair, bindings were made before expiry, and results and errors match the status |
| HostActions.BoundForever | apps/bff/src/caplatform_bff/mailhub_host_actions.py:363-382 | a bound approval outlives every run unchanged; no clean-up removes it |
| HostActions.BoundIffConfirmed | apps/bff/src/caplatform_bff/mailhub_host_actions.py:384-417 | a pair is bound to a reference exactly when some earlier verification of it was confirmed |
| HostActions.ClaimApprovedIffConfirmed | apps/bff/src/caplatform_bff/mailhub_host_actions.py:426-442 | a claim fails for want of approval exactly when its reference was never confirmed for its pair |
| HostActions.OnePairPerReference | apps/bff/src/caplatform_bff/mailhub_host_actions.py:405-417 | one reference is never confirmed for two pairs |
| HostActions.IssuedApprovalIsUsableIff | apps/bff/src/caplatform_bff/mailhub_host_actions.py:78-119 | whatever happened to other references, some action is confirmed before expiry exactly when tenant and subject were given in ASCII and stripped |
| HostActions.OtherOwnersAreNeverConfirmed | apps/bff/src/caplatform_bff/mailhub_host_actions.py:398-404 | no action is confirmed for an approval whose stored owner is padded or not ASCII |
| HostActions.UnusableApprovalsAreIssued | apps/bff/src/caplatform_bff/mailhub_host_actions.py:78-103 | for a padded owner and for one that is not ASCII the issue succeeds, and no action is ever confirmed for that approval |
| HostActions.IssuedApprovalWorks | apps/bff/src/caplatform_bff/mailhub_host_actions.py:78-148 | an approval issued for the owner and candidate of an action's binding is confirmed for it at any moment before expiry, and a new action is then dispatched |
| HostActions.RowPersists | apps/bff/src/caplatform_bff/mailhub_host_actions.py:443-514 | no run drops a row or changes its owner, digest, action or creation time |
| HostActions.SucceededIsFrozen | apps/bff/src/caplatform_bff/mailhub_host_actions.py:456-514 | a succeeded row never changes again |
| HostActions.CountersAreExact | apps/bff/src/caplatform_bff/mailhub_host_actions.py:456-495 | attempt_count is the number of claims that were not replays, and an operation is completed once if it succeeded and never otherwise |
| HostActions.LaterClaimsReplay | apps/bff/src/caplatform_bff/mailhub_host_actions.py:443-457 | after a completion every later matching claim replays that result and changes nothing |
| HostActions.ReplaysWereCompleted | apps/bff/src/caplatform_bff/mailhub_host_actions.py:456-495 | a stored result was completed earlier in the run |
| HostActions.DispatchedIff | apps/bff/src/caplatform_bff/mailhub_host_actions.py:426-480 | in every reachable ledger a claim is dispatched exactly when it is approved and its action is new, or is the claimant's own and has not succeeded |
| HostActions.RunningActionIsDispatchedAgain | apps/bff/src/caplatform_bff/mailhub_host_actions.py:456-464 | so every matching claim of an action that is still running dispatches it once more |
| HostActions.OverlappingDispatch | apps/bff/src/caplatform_bff/mailhub_host_actions.py:456-464 | an instance: two claims of one action, both dispatched, neither completed |
| Knowledge.KnowledgeTable.Submit | apps/bff/src/caplatform_bff/mailhub_host_actions.py:516-561 | a first submission is stored; a repeated one is answered without a write or refused as a conflict |
| Knowledge.CreatedIff | apps/bff/src/caplatform_bff/mailhub_host_actions.py:516-561 | a submission is stored exactly when no earlier one named its candidate, and then as it is; any other answer writes nothing |
| Knowledge.FirstSubmissionStays | apps/bff/src/caplatform_bff/mailhub_host_actions.py:516-561 | over every run the row of a candidate is its first submission |
| Knowledge.LaterSubmissionsFollowTheFirst | apps/bff/src/caplatform_bff/mailhub_host_actions.py:529-542 | the answer to a later submission depends on the first alone |
| Credentials.CredentialBroker.StoreCredential | apps/bff/src/caplatform_bff/mailhub_credentials.py:741-786 | a row at version 1 and its audit in one transaction, nothing on a taken reference |
| Credentials.CredentialBroker.LoadActive | apps/bff/src/caplatform_bff/mailhub_credentials.py:437-487 | the active row of that owner, or why there is none, as LoadIff and LoadErrorIff say exactly |
| Credentials.CredentialBroker.RotateCredential | apps/bff/src/caplatform_bff/mailhub_credentials.py:799-842 | the version-checked update with its audit, or no change |
| Credentials.CredentialBroker.RevokeCredential | apps/bff/src/caplatform_bff/mailhub_credentials.py:844-891 | the version-checked tombstone with its audit, or no change |
| Credentials.LoadIff | apps/bff/src/caplatform_bff/mailhub_credentials.py:788-797 | a load yields exactly the stored active row of that reference, tenant and subject |
| Credentials.LoadErrorIff | apps/bff/src/caplatform_bff/mailhub_credentials.py:437-487 | only the owner of a revoked credential is told so; to anyone else it is not found |
| Credentials.LoadSucceedsIff | apps/bff/src/caplatform_bff/mailhub_credentials.py:258-487 | over every run a load succeeds exactly when an exchange of that tenant and subject created the reference and no revocation of it has been committed |
| Credentials.RowStemsFromCommits | apps/bff/src/caplatform_bff/mailhub_credentials.py:741-891 | in every reachable state a row has the owner, provider and identity of the exchange that created it, and the tokens, scopes and lifetime of the last commit that issued some, until a revocation removes the tokens |
| Credentials.ExchangeCommitsIff | apps/bff/src/caplatform_bff/mailhub_credentials.py:258-315 | an exchange creates a credential exactly for the registered scopes, an acceptable reply and an unused reference |
| Credentials.RefreshCommitsIff | apps/bff/src/caplatform_bff/mailhub_credentials.py:340-395 | a refresh commits exactly when its grant is acceptable and the row still is the active snapshot |
| Credentials.RefreshAcceptedIff | apps/bff/src/caplatform_bff/mailhub_credentials.py:340-370 | a grant is acceptable exactly when the snapshot has a usable refresh token, the reply passes with that token to fall back on, and the read scope is listed |
| Credentials.RevokeCommitsIff | apps/bff/src/caplatform_bff/mailhub_credentials.py:397-429 | a revocation commits exactly when the row still is the active snapshot |
| Credentials.OneAuditPerCommit | apps/bff/src/caplatform_bff/mailhub_credentials.py:914-934 | each commit writes one audit, of its kind, for the owner of the row and at its moment |
| Credentials.RunKeepsInvariant | apps/bff/src/caplatform_bff/mailhub_credentials.py:340-429 | for any interleaving: version = 1 + refreshed + revoked audits, revoked exactly when tombstoned, at most one revoke commits, each snapshot is outdated or exact |
| Credentials.VersionsAreConsecutive | apps/bff/src/caplatform_bff/mailhub_credentials.py:799-891 | each version number comes from exactly one commit, in order and without a gap |
| Credentials.RevokedIsFinal | apps/bff/src/caplatform_bff/mailhub_credentials.py:810-871 | no run revives a revoked row or restores its secret, and versions never fall |
| Credentials.CommitOutdatesSnapshots | apps/bff/src/caplatform_bff/mailhub_credentials.py:810-871 | after a commit no snapshot loaded before it can ever commit |
| Credentials.CommitIffUnchanged | apps/bff/src/caplatform_bff/mailhub_credentials.py:810-827 | a snapshot commits exactly when the row still is the snapshot |
| Credentials.ScopeChain | apps/bff/src/caplatform_bff/mailhub_credentials.py:258-386 | in every reachable state the stored scopes are a read-only selection of those first requested |
| Credentials.ScopesOnlyShrink | apps/bff/src/caplatform_bff/mailhub_credentials.py:340-386 | along any run and any provider replies the scopes only shrink |
| Scopes.ValidateScopes | apps/bff/src/caplatform_bff/mailhub_credentials.py:988-1008 | the two loops report the first failing check |
| Scopes.ScopeErrorOf | apps/bff/src/caplatform_bff/mailhub_credentials.py:988-1008 | there is no error exactly for bounded lists with the read scopes and without a write scope |
| Scopes.ReplyAcceptedIff | apps/bff/src/caplatform_bff/mailhub_credentials.py:937-985 | exactly which answers to a read-only request are accepted: access and refresh token in bounds, bearer type, 60 to 86400 seconds, the read scope listed; and the tokens, lifetime and scopes of the grant, where the offline scope need not be listed |
| Scopes.GrantedScopes | apps/bff/src/caplatform_bff/mailhub_credentials.py:967-978 | of the requested scopes exactly the listed ones are granted, and on Graph the offline scope in any case |
| Scopes.SameScopesIff | apps/bff/src/caplatform_bff/mailhub_credentials.py:1011-1018 | two lists are the same scopes exactly when both are read-only and each folded scope of one is in the other |
| Scopes.GrantIsReadOnlySelection | apps/bff/src/caplatform_bff/mailhub_credentials.py:937-985 | whatever a provider answers, an accepted grant is a duplicate-free read-only selection of the requested scopes, with exactly the listed ones |
| OAuthStates.StateTable.SaveState | apps/bff/src/caplatform_bff/mailhub_credentials.py:680-713 | a new row, or the answer to a repeated save, or a refused expiry |
| OAuthStates.StateTable.ConsumeState | apps/bff/src/caplatform_bff/mailhub_credentials.py:715-739 | an unconsumed row is marked, and yields its record before expiry |
| OAuthStates.SaveIff | apps/bff/src/caplatform_bff/mailhub_credentials.py:680-713 | over every run a save is refused exactly outside the fifteen minutes, and stored as given exactly when no earlier save of its id was inside them; nothing else is written |
| OAuthStates.ConsumedByAnEvent | apps/bff/src/caplatform_bff/mailhub_credentials.py:715-739 | a consumed row carries the instant of a consumption of its id |
| OAuthStates.SingleUse | apps/bff/src/caplatform_bff/mailhub_credentials.py:680-739 | over every run a state id yields at most once |
| OAuthStates.YieldsFirstSaveInTime | apps/bff/src/caplatform_bff/mailhub_credentials.py:680-739 | what is yielded was saved first under that id and is yielded strictly before its expiry |
| OAuthStates.ResaveChangesNothing | apps/bff/src/caplatform_bff/mailhub_credentials.py:690-697 | a second save never changes a row, so it never revives a consumed one; a different record is refused |
| OAuthStates.ConsumeIff | apps/bff/src/caplatform_bff/mailhub_credentials.py:715-739 | a consumption yields exactly when the state was saved, has not expired and was not consumed since |
| Migrations.Runner.CheckSums | packages/mailhub/scripts/apply_migrations.py:154-159 | the loop refuses the first migration whose ledger row differs |
| Migrations.Runner.RunPlan | packages/mailhub/scripts/apply_migrations.py:166-185 | the loop commits one transaction per migration and leaves exactly the committed prefix on failure |
| Migrations.Runner.Apply | packages/mailhub/scripts/apply_migrations.py:114-185 | target check, checksum check, plan and run: which refusal is reported, and what the database is afterwards |
| Migrations.UpgradePlanIff | packages/mailhub/scripts/apply_migrations.py:76-89 | an upgrade is accepted exactly for a contiguous prefix within the target, and plans the stretch up to it |
| Migrations.DownPlanIff | packages/mailhub/scripts/apply_migrations.py:91-100 | a rollback is accepted exactly for a contiguous prefix, and plans the stretch above the target backwards |
| Migrations.PlanErrorIff | packages/mailhub/scripts/apply_migrations.py:76-96 | which refusal is reported: a stray version, nothing to upgrade to, or a gap |
| Migrations.CrashResume | packages/mailhub/scripts/apply_migrations.py:69-185 | after any committed prefix of a plan the ledger is accepted again and the new plan is exactly what was left |
| Migrations.FinishedPlansNothing | packages/mailhub/scripts/apply_migrations.py:69-185 | a finished run plans nothing more |
| Migrations.UpgradeExtendsPrefix | packages/mailhub/scripts/apply_migrations.py:166-179 | a committed stretch of an upgrade lengthens the prefix and keeps the checksums |
| Migrations.DownShrinksPrefix | packages/mailhub/scripts/apply_migrations.py:180-184 | a committed stretch of a rollback shortens it |
| Migrations.RollbackRestores | packages/mailhub/scripts/apply_migrations.py:79-184 | for versions from 0: after an upgrade to any target, the plan back to where the prefix ended is the reversed plan, and restores ledger and schema, exactly when the ledger was not empty, nothing was planned or the first version is at least 1; otherwise exactly version 0 stays |
| Migrations.RollbackStretch | packages/mailhub/scripts/apply_migrations.py:79-184 | going back leaves exactly what executing the migrations below the landing point would have left |
| Migrations.VersionZeroIsNotRolledBack | packages/mailhub/scripts/apply_migrations.py:91-100 | one migration numbered 0, applied to an empty database, is not taken back by going down to 0 |
| Migrations.VersionZeroStays | packages/mailhub/scripts/apply_migrations.py:91-100 | no valid target makes a down plan reach version 0 |
| SignedState.UnpaddedRoundTrip | packages/mailhub/src/mailhub/oauth.py:442-454 | stripping the padding and adding `-len % 4` signs decodes back to every byte string, with the lenient decoder |
| SignedState.TokenShape | packages/mailhub/src/mailhub/oauth.py:415-416 | a token has ceil(4n/3) characters of the url-safe alphabet, never '.' or '=' |
| SignedState.TokensAreInjective | packages/mailhub/src/mailhub/oauth.py:415-416 | different random bytes give different tokens |
| SignedState.VerifierIsValid | packages/mailhub/src/mailhub/oauth.py:207-210 | the verifier of 48 bytes is 64 unreserved characters |
| SignedState.SignedStateVerifies | packages/mailhub/src/mailhub/oauth.py:427-450 | verifying a signed payload gives it back exactly when the length is within 20 to 4000, and refuses the format otherwise; what else verifies is said by TwoPartsVerifyIff |
| SignedState.TwoPartsVerifyIff | packages/mailhub/src/mailhub/oauth.py:433-450 | for any MAC: a text of two parts verifies exactly when its length is within 20 to 4000, its second part decodes to the MAC of the first, and the first decodes and parses to the payload |
| SignedState.VerifiedIff | packages/mailhub/src/mailhub/oauth.py:433-450 | whatever is presented, a payload is verified exactly from a text signed for it in that sense |
| SignedState.OtherSignatureIsRefused | packages/mailhub/src/mailhub/oauth.py:446-449 | any other signature that decodes is refused as an invalid signature |
| SignedState.DecodableIff | packages/mailhub/src/mailhub/oauth.py:440-454 | a text over the alphabet decodes exactly when its length is not 1 modulo 4, to three bytes for four characters |
| SignedState.UnknownCharactersDoNotMatter | packages/mailhub/src/mailhub/oauth.py:440-454 | the decoder ignores unknown characters: a multiple of four of them anywhere changes nothing |
| SignedState.SignedLength | packages/mailhub/src/mailhub/oauth.py:427-430 | the length of a signed state from the sizes of payload and MAC |
| OAuthService.StateStore.Consume | packages/mailhub/src/mailhub/oauth.py:107-108 | the record is returned and removed |
| OAuthService.AuthorizationService.Begin | packages/mailhub/src/mailhub/oauth.py:147-270 | the checks in order, the record saved before the extra parameters are checked, and the signed request |
| OAuthService.AuthorizationService.Consume | packages/mailhub/src/mailhub/oauth.py:289-346 | verification, provider and expiry before the record is taken; the binding checks after it |
| OAuthService.BeginAcceptedIff | packages/mailhub/src/mailhub/oauth.py:147-204 | exactly which requests pass the checks: identity, client and connection in bounds, endpoint, client and redirect on their lists, scopes well formed, allowed, read-only and complete |
| OAuthService.BeginAnsweredIff | packages/mailhub/src/mailhub/oauth.py:233-270 | such a request is answered exactly when no extra parameter is one of the eight own ones, empty or too long |
| OAuthService.ReadStateIff | packages/mailhub/src/mailhub/oauth.py:297-306 | claims are read exactly from a state signed for them, with that provider, a state id and an unexpired second |
| OAuthService.TakesIff | packages/mailhub/src/mailhub/oauth.py:297-307 | a record is taken exactly by a state that presents signed, unexpired claims naming it |
| OAuthService.UnsignedIsRefused | packages/mailhub/src/mailhub/oauth.py:297-306 | any other state is refused and changes nothing |
| OAuthService.CheckRecordIff | packages/mailhub/src/mailhub/oauth.py:310-346 | a taken record yields its context exactly when connection, revision, provider and redirect agree and it has not expired |
| OAuthService.ConsumedIff | packages/mailhub/src/mailhub/oauth.py:289-346 | so, for any state whatever, a consumption succeeds exactly when it presents claims for a stored record that agrees with them |
| OAuthService.BeginThenConsume | packages/mailhub/src/mailhub/oauth.py:205-346 | a begun state is consumed exactly when its length, provider, redirect and whole-second expiry pass, and every field comes back |
| OAuthService.StoredIff | packages/mailhub/src/mailhub/oauth.py:104-108 | a record is stored exactly when some begin saved it and no later one saved over it and no unexpired state of its id was presented since |
| OAuthService.BegunStateInRun | packages/mailhub/src/mailhub/oauth.py:205-346 | in any run, a begun state that nothing has taken is consumed exactly under those conditions, with the fields given |
| OAuthService.StateLengthPasses | packages/mailhub/src/mailhub/oauth.py:427-435 | with a 32-byte MAC the length check refuses exactly payloads over 2967 bytes |
| OAuthService.UsableWindow | packages/mailhub/src/mailhub/oauth.py:205-306 | a state is usable until one second before its expiry and never from expiry on |
| OAuthService.YieldsNeverExceedSaves | packages/mailhub/src/mailhub/oauth.py:104-108 | whatever states are presented, an id never yields more often than it was saved |
| OAuthService.SingleUse | packages/mailhub/src/mailhub/oauth.py:207-346 | with fresh state bytes no state id is ever accepted twice |
| OAuthService.YieldedIsWhatWasBegun | packages/mailhub/src/mailhub/oauth.py:289-346 | an obtained context has exactly the fields of the latest authorization begun under its id, for the same provider and redirect, before its expiry |
| Redaction.RedactionIsFixedPoint | packages/mailhub/src/mailhub/observability.py:211-250 | redacting twice is redacting once, and an event is left alone exactly when it is clean; what becomes of any other is said by EventRedacts |
| Redaction.CleanIffProduced | packages/mailhub/src/mailhub/observability.py:211-250 | clean events (markers under sensitive keys, bounded containers, texts and depth, no bytes) are exactly what redaction produces |
| Redaction.SanitizeRedacts | packages/mailhub/src/mailhub/observability.py:219-248 | every value is redacted to what an independent description says: the marker for sensitive keys and bytes, TRUNCATED at depth 5, texts cut to 2000 characters, the first 100 entries of a container redacted one by one, anything else unchanged |
| Redaction.RedactsToOne | packages/mailhub/src/mailhub/observability.py:219-248 | that description fits one value only |
| Redaction.EventRedacts | packages/mailhub/src/mailhub/observability.py:221-250 | an event is redacted entry by entry; keys that become one text stand at the first place with the last value |
| Redaction.StringKeysKeepTheirPlaces | packages/mailhub/src/mailhub/observability.py:221-250 | with distinct string keys every entry keeps its key and place and carries the redaction of its own value |
| Redaction.FixedPointIffClean | packages/mailhub/src/mailhub/observability.py:219-248 | the recursion on one value changes nothing exactly on clean values, at every depth |
| Redaction.RedactedEventsAreShallow | packages/mailhub/src/mailhub/observability.py:235-250 | containers of a redacted event nest at most five deep |
| Redaction.NamedIff | packages/mailhub/src/mailhub/events.py:231-231 | naming the keys changes nothing exactly for distinct string keys |
| Redaction.NamingFirst | packages/mailhub/src/mailhub/events.py:228-232 | redacting a mapping is redacting it with its keys named |
| Redaction.RedactionTestIffClean | packages/mailhub/src/mailhub/events.py:228-232 | the redaction test accepts exactly the data that is clean once its keys are named |
| Events.EnvelopeAcceptedIff | packages/mailhub/src/mailhub/events.py:173-232 | the validator on a well-formed envelope comes down to the raw lengths of its identifiers |
| Events.BuiltIff | packages/mailhub/src/mailhub/events.py:89-169 | exactly when an event is built, by what stands between the white space of each identifier, and with which nine fields |
| Events.PayloadAcceptedIff | packages/mailhub/src/mailhub/events.py:172-232 | exactly which payloads the validator accepts: bounded texts, an aware time, a registered type, and data that is clean once its keys are named |
| Events.BuiltPayloadAcceptedIff | packages/mailhub/src/mailhub/events.py:96-232 | the validator accepts what the builder emits exactly when the identifiers are within their limits before stripping |
| Events.StrippedIdentifiersAreAccepted | packages/mailhub/src/mailhub/events.py:140-232 | so every event whose identifiers carry no surrounding white space is accepted |
| Events.PaddedTenantIsRefused | packages/mailhub/src/mailhub/events.py:89-93 | a tenant with 200 or more trailing spaces is built and then refused |
| Recipients.DraftsAreNormal | packages/mailhub/src/mailhub/domain.py:579-591 | an accepted draft has To addresses, only e-mail addresses, no duplicates and at most 50 recipients |
| Recipients.DraftAcceptedIff | packages/mailhub/src/mailhub/domain.py:579-591 | a draft is accepted with three given lists exactly when it has a To address, every list holds the stripped and lowered texts of the list of the same name, each at most 320 characters before and an address after, and all are distinct and at most 50 |
| Recipients.DraftOfNormalised | packages/mailhub/src/mailhub/domain.py:583-588 | with normal lists, a repetition is reported before a draft that is too long |
| Recipients.EmailIff | packages/mailhub/src/mailhub/domain.py:17-17 | an address is local, host and top without white space or an at-sign, joined by an at-sign and a dot |
| Recipients.NormalisingAgain | packages/mailhub/src/mailhub/domain.py:1172-1180 | with an idempotent lowering, normalising an accepted list again gives the same list exactly when no address outgrew 320 characters |
| Recipients.SameTextIff | packages/mailhub/src/mailhub/domain.py:52-72 | two normalised drafts share a digest text exactly when equal or when the To list of one is the prefixed lines of the other |
| Recipients.RecipientBindingInjective | packages/mailhub/src/mailhub/domain.py:46-72 | so the text is injective unless a To-only draft has an address beginning with "cc:" or "bcc:" |
| Recipients.EveryCopyHasATwin | packages/mailhub/src/mailhub/domain.py:52-72 | every draft with Cc or Bcc shares its digest text with a different To-only draft of valid addresses |
| Recipients.AloneIff | packages/mailhub/src/mailhub/domain.py:52-72 | a draft is alone with its text exactly when it has To only and its addresses do not read as headers, which can be checked on that draft |
| Recipients.TwinIsADraftIff | packages/mailhub/src/mailhub/domain.py:579-591 | the twin of an accepted draft passes the draft checks itself exactly when its prefixed addresses have at most 320 characters |
| Recipients.HeaderLikeAddressesCollide | packages/mailhub/src/mailhub/domain.py:17-72 | an instance: two drafts of valid addresses that share a text |
| Sanitizer.SanitizedIsClean | packages/mailhub/src/mailhub/intelligence.py:474-483 | the output has no tag, no NUL and no surrounding white space, for every input |
| Sanitizer.RemovedTagsAreGone | packages/mailhub/src/mailhub/intelligence.py:39-39 | the leftmost scan leaves no tag and creates none |
| Sanitizer.FixedPointIffClean | packages/mailhub/src/mailhub/intelligence.py:474-483 | sanitising leaves a text alone exactly when it is clean |
| Sanitizer.SanitizeTwice | packages/mailhub/src/mailhub/intelligence.py:474-483 | sanitising twice is sanitising once |
| Sanitizer.TagEndIff | packages/mailhub/src/mailhub/intelligence.py:39-39 | the scan matches at a place exactly when a tag begins there, and ends with it |
| Sanitizer.FirstTagRemoved | packages/mailhub/src/mailhub/intelligence.py:483-483 | text before a tag is kept, the tag becomes one space and the scan goes on behind it |
| Sanitizer.FirstTagGoes | packages/mailhub/src/mailhub/intelligence.py:483-483 | for any text: everything before the first tag is kept, the tag becomes one space and the scan goes on behind it |
| Sanitizer.OpenTagIff | packages/mailhub/src/mailhub/intelligence.py:477-482 | the scan finds exactly the opening tags of the four elements, with or without attributes, and captures the name |
| Sanitizer.CloseTagIff | packages/mailhub/src/mailhub/intelligence.py:477-482 | and exactly the closing tags of a captured name |
| Sanitizer.FindCloseIff | packages/mailhub/src/mailhub/intelligence.py:477-482 | the search finds the closing tag that begins first |
| Sanitizer.FirstActiveGoes | packages/mailhub/src/mailhub/intelligence.py:477-482 | for any text: everything before the first active element is kept, it becomes one space and the scan goes on behind it |
| Sanitizer.ActiveElementRemoved | packages/mailhub/src/mailhub/intelligence.py:477-482 | an active element goes with everything up to its first closing tag |
| Sanitizer.ActiveCodeVanishes | packages/mailhub/src/mailhub/intelligence.py:474-483 | of a script, style, iframe or form between plain texts only the texts remain |
| Policy.Evaluate | packages/mailhub/src/mailhub/domain.py:1037-1133 | a decision allows exactly with its one positive reason, names policy and grant, and otherwise demands approval on level L4 (which reason a refusal gives is the next row) |
| Policy.ReasonIsFirstThatApplies | packages/mailhub/src/mailhub/domain.py:1047-1133 | the reason given is the earliest of the eighteen that applies to the request by itself |
| Policy.AllowedIff | packages/mailhub/src/mailhub/domain.py:1047-1133 | allowed exactly when the grant delegates, the request is in scope and routine, and the clock lies where both lifetimes overlap; ownership does not matter |
| Policy.ApprovalRequiredIff | packages/mailhub/src/mailhub/domain.py:1047-1111 | approval is asked for exactly when the policy permits a request that is not routine, whatever the state of the grant |
| Policy.DecisionNames | packages/mailhub/src/mailhub/domain.py:1046-1133 | a decision names the policy there is, and the grant exactly once the policy permits the request |
| Policy.DomainsListedIff | packages/mailhub/src/mailhub/domain.py:1072-1077 | the domain check passes exactly when the lowered text behind the last at-sign of every recipient is on the list |
| Policy.DomainRefusedIff | packages/mailhub/src/mailhub/domain.py:1072-1077 | a request is refused for its domains exactly when no earlier reason applies, there is a limit, and some recipient is off the list |
| Policy.MonotoneIff | packages/mailhub/src/mailhub/domain.py:1059-1123 | an allowed request stays allowed under wider policy and grant and narrower request exactly when a reply still finds level L3B |
| Policy.Monotone | packages/mailhub/src/mailhub/domain.py:1059-1123 | in particular whenever the level is unchanged |
| Policy.LevelIsNotMonotone | packages/mailhub/src/mailhub/domain.py:1098-1111 | there is an allowed reply that every other level refuses |
| Policy.NoLimitIffBlank | packages/mailhub/src/mailhub/domain.py:952-956 | the normalised domain set is empty, hence unlimited, exactly when every given domain is blank |
| Policy.DomainOfAddress | packages/mailhub/src/mailhub/domain.py:1073-1075 | the domain of an address is what follows its last '@' |
| Policy.RecipientsStayOnList | packages/mailhub/src/mailhub/domain.py:1072-1077 | with a domain limit an allowed request mails only listed domains |
| Percentile.NotificationP95 | packages/mailhub/scripts/run_provider_activation.py:789-807 | the loop collects the latencies, stops at the first malformed one, and reports the percentile of the sorted list |
| Percentile.P95IndexBounds | packages/mailhub/scripts/run_provider_activation.py:806-806 | the index is in range and is the least one that covers 95% |
| Percentile.P95IsNearestRank | packages/mailhub/scripts/run_provider_activation.py:805-807 | the reported value is the one value of the list with at least 95% no greater and strictly fewer than 95% below |
| Percentile.SortedIsUnique | packages/mailhub/scripts/run_provider_activation.py:805-805 | a list has one sorted arrangement, so any sorting method gives it |
| Percentile.ReportIff | packages/mailhub/scripts/run_provider_activation.py:791-804 | a percentile is reported exactly when no acknowledgement is malformed and there is one |
| Percentile.ReportedIff | packages/mailhub/scripts/run_provider_activation.py:789-807 | from the events alone: a value is reported exactly when every acknowledgement is usable, one has that latency, at least 95% are no slower and fewer than 95% faster |
| Percentile.ReportErrorIff | packages/mailhub/scripts/run_provider_activation.py:791-803 | the error is that of the first unusable acknowledgement |
| Percentile.MissingIff | packages/mailhub/scripts/run_provider_activation.py:803-804 | a missing acknowledgement is reported exactly when no event is one |
| Percentile.ArrivalOrderIsIrrelevant | packages/mailhub/scripts/run_provider_activation.py:789-807 | the order of the events changes neither whether nor which percentile is reported |
| TestOutput.WriteTestOutput | packages/mailhub/scripts/run_provider_activation.py:987-1009 | the lines built by appending, in order, or the first refused field |
| TestOutput.ValidateTestOutput | packages/mailhub/scripts/validate_provider_bundle.py:225-281 | the loop fills the fields line by line and reports the first refused line or check |
| TestOutput.RefusedIff | packages/mailhub/scripts/run_provider_activation.py:987-1003 | which field the printer refuses: the first that is blank, too long for its own limit or has a control character |
| TestOutput.SplitLinesIs | packages/mailhub/scripts/validate_provider_bundle.py:236-236 | lines are what stands between the line breaks, where a carriage return takes a line feed with it |
| TestOutput.ParseIff | packages/mailhub/scripts/validate_provider_bundle.py:235-247 | a file is read exactly when its lines carry usable fields under distinct known keys, as those fields |
| TestOutput.AcceptedIff | packages/mailhub/scripts/validate_provider_bundle.py:225-281 | a file is accepted exactly when its fields show the schema, the identifiers, no credentials, and a status with its own exit code, and a required real run |
| TestOutput.FieldsParseBack | packages/mailhub/scripts/validate_provider_bundle.py:235-242 | any list of bounded fields under distinct keys is parsed back to exactly those fields |
| TestOutput.UnlinesSplits | packages/mailhub/scripts/validate_provider_bundle.py:236-236 | lines without breaks come back from the text they were joined to |
| TestOutput.AcceptedHasNoBreak | packages/mailhub/scripts/validate_provider_bundle.py:235-261 | an accepted file has at most nine lines and no checked identifier with a line break |
| TestOutput.BrokenErrorIsRefused | packages/mailhub/scripts/validate_provider_bundle.py:235-242 | a line break inside the error code is always refused |
| TestOutput.BoundedBreaksAreUnicode | packages/mailhub/scripts/run_provider_activation.py:83-88 | the line breaks an accepted value can contain are exactly U+0085, U+2028 and U+2029 |
| TestOutput.UnicodeBreaksPassThePrinter | packages/mailhub/scripts/run_provider_activation.py:997-1009 | each of the three passes the printer in every text field, and the validator refuses the file |
| TestOutput.PrinterAndParserAgree | packages/mailhub/scripts/run_provider_activation.py:987-1009 | a printed file is accepted for its identifiers exactly when errors come only with failure, no value has a Unicode line break, and a required real run succeeded over the network; without breaks it parses back to what was written |

## Left out

- Quota.QuotaBound: asks for releases strictly before expiry, because at expiry the bound is false (LateReleaseBreaksBound).
- OAuthService.SingleUse: assumes that no two authorizations draw the same 24 state bytes; YieldsNeverExceedSaves needs no such assumption.
- OAuthService.BeginThenConsume: URL validation and the query string of the authorization URL are not modelled; the error cases of URL validation are merged, and the provider tables of required scopes and write markers are fields of the configuration.
- TestOutput.PrinterAndParserAgree: covers the two outcomes that callers pass, not an arbitrary status text.
- Recipients.SameTextIff: is about the hashed text, not about SHA-256 itself.
- SignedState.VerifyState: the HMAC is any function of the encoded text, so unforgeability is not stated; a non-ASCII signature is an encoding error as in the code.
- Percentile.NotificationP95: the renewal, duplicate and reconciliation checks around it, and the observation window of a week, are left out.
- HTTP transport, routes, SDK clients, provider connectors, the browser flow, pages and command lines: I/O and field forwarding.
- SQLite and PostgreSQL engines and the locks around them: each transaction is one atomic step, and no interleaving is excluded by a lock.
- Encryption: stored ciphertexts are modelled by what they decrypt to; keys, rotation of keys and decryption failures are left out.
- Audit metadata other than kind, version and owner, and the ids of audit rows.
- Credential resolution, apart from its audit row: it composes load and refresh.
- The two error names for a missing refresh token are one error, and a non-finite `expires_in` is not modelled.
- The knowledge safety gate, and parsing of UUIDs and JSON in request bodies: an action is its parsed fields.
- Discovery of migration files, the stripping of transaction wrappers from their text, and dry runs.
- The DLP, extraction and injection patterns, summaries and the AI gateway: flat checks without a deep invariant.
- The delivery, sync and autonomy transition tables: small finite tables.
- Rate limits and revisions of policies and grants: the decision does not read them.
- Unicode case folding, lowering and word characters: parameters, so nothing is said about particular characters.
