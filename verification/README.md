# Models of quay's work queue, permissions and storage helpers

Quay is a container registry. This project states, in Dafny, what several of its
self-contained mechanisms do, and proves the properties they exist for. Each mechanism is
modelled in the form the Python has: row tables, identities, orchestrators and pools that are updated in place
are classes whose methods are tied to functions of the old state; string and role arithmetic is
functions; concurrent protocols are state machines over single database or Redis steps.
`dafny verify dfyconfig.toml` covers the whole project.

| file | models |
|---|---|
| `WorkQueue.dfy` | rows of the queue table and the methods of `WorkQueue` |
| `QueueProtocol.dfy` | any number of workers with stale snapshots, claiming, extending, releasing and deleting rows while time passes |
| `Like.dfy` | LIKE with `ESCAPE '!'`, as section 8.5 of ISO/IEC 9075-2 has it, and the escaping of search text |
| `Scopes.dfy` | OAuth scope strings |
| `Permissions.dfy` | roles, scope ceilings, needs, permission classes, and loading every grant up front |
| `DeferredIdentity.dfy`, `DeferredUser.dfy` | the identity that loads grants on demand, as a function and as a class |
| `AccessRules.dfy` | who may do what, from accounts, teams, grants and scopes alone: a reference for the answers |
| `Orchestrator.dfy` | `RedisOrchestrator` over a store whose keys have deadlines, and whole runs of it |
| `RecursiveDelete.dfy` | the dependency-ordered recursive delete and the topological sort under it |
| `KeyImport.dfy` | the import of an operator-mounted service key, alone and raced by many pods |
| `PoolConnect.dfy` | the pooled connect with liveness probe and back-off |
| `Digest.dfy` | content digests and the storage path of a digest |

## Where the code and its promises part

- A write permission is answered from whatever is already loaded before the reload from the primary is reached
  (`auth/permissions.py:305` comes before lines 320-341), and a reload only adds grants. The comment at lines
  320-322 promises that stale grants never authorize a write. The model follows the code:
  `WriteChecksExactly` gives the answer in every case, `WriteChecksFollowPrimary` the condition under which it
  is the primary's, `StaleReadGrantAnswersWrites` an input where it is not.
- A lock is not exclusive once a `set_key(overwrite=True)` replaces it by something shorter-lived. `LockExclusion`
  holds for every run whose overwriting sets satisfy `Covers`, which looks only at the arguments, the shadow key and
  the events on their way; `UncoveredSetFreesLock` shows that every set outside `Covers` lets the key become free in time.
- An expiry event that is handled late acts on what is stored by then. It always carries the last value set
  (`ExpireEventsCarryLastValue`), but it takes a non-empty value away even if the key was given a new expiration
  meanwhile (`LateHandlingTakesKey`). An overwriting `set_key` on a missing key leaves an expiry shadow with no key behind it.
  `BackedThroughoutIff` shows that these two are the only ways in which a shadow loses its key.
- A yes to modify does not imply a yes to read on the same repository: modify checks ask the primary, read checks
  a replica or nothing. `ModifyImpliesReadIff` gives the exact condition and `WriteWithoutRead` an input for every
  repository. Administer implies modify whatever the replicas show (`AdministerImpliesModify`), and once modify
  was answered yes, read is too (`ModifiedIsReadable`).
- One running item per name in ordered mode needs select and claim to be one step, and extensions to leave no expired row
  running beside another. `OrderedThroughoutIff` gives the exact condition for any run and
  `SplitOrderedModeFails` a complete run that ends with two.
- Loaded repositories are remembered as `namespace/name`, so a check must not have the key of another repository
  with a grant, which slash-free namespaces rule out. `CollidingCheckHidesGrant` shows that exactly such a check makes a
  user with one grant lose it, and `LazyIsEagerIff` gives the condition for any user and any answer.
- `incomplete`, `extend_processing` and `complete` take an item id and no proof of ownership, so runs contain these calls by
  anybody. Retry counts, due dates and the narrow claim hold in all runs. Lease exclusion and heartbeats
  are for items that only their holders release and whose leases nobody else cuts short, item by item; deletions by anybody, and
  extensions by anybody with a minimum extension that is not negative, are harmless. `ExclusionLostIff` gives the exact
  states from which exclusion can be lost, and `LateReleaseBreaksIff` and `LateExtensionBreaksIff` the exact calls by
  outsiders that lead there; with the default retry time a release of somebody else's item with a retry left does.
- The comment at `data/queue.py:266-273` describes a claim restricted by availability; the code matches only the id and
  the state id. `NarrowClaimIsWideClaim` shows that this is the same claim.
- `extend_processing` on a row that was never claimed subtracts NULL and raises; an empty scope set makes `max` raise.
  Both are modelled as errors. `is_subset_string` accepts an unparsable expected string, because it parses to the empty set.

## Model

| member | source | states |
|---|---|---|
| `QueueRows.ExtensionReaches` | data/queue.py:384-407 | after an extension, written or skipped, the expiry is at least what was asked for less the minimum extension, and never moves back unless that minimum is negative; only expiry, body and state id move, and unless the minimum is negative the row is written exactly if expiry or body changes; it raises exactly on a NULL expiry |
| `QueueRows.InsertAllConcat` | data/queue.py:235-241 | inserting two lists in turn is inserting their concatenation |
| `QueueRows.InsertAllContents` | data/queue.py:235-241 | insertion puts exactly the given rows under consecutive ids and disturbs no other row |
| `WorkQueues.WorkQueue.Put` | data/queue.py:243-254 | one new row under a fresh id, everything else unchanged |
| `WorkQueues.WorkQueue.BatchPut` | data/queue.py:222-231 | the row is fixed with its delay counting from that call, and nothing is inserted yet |
| `WorkQueues.WorkQueue.BatchInsert` | data/queue.py:235-241 | chunked insertion with any batch size leaves what inserting the collected rows one at a time leaves |
| `WorkQueues.WorkQueue.SelectAvailable` | data/queue.py:256-289 | ordered: the least id among available rows whose name has nothing running, none exactly if there is no such row; unordered: some available row, none exactly if there is none |
| `WorkQueues.WorkQueue.AttemptToClaim` | data/queue.py:291-317 | the compare-and-swap on id and state id, and its report |
| `WorkQueues.WorkQueue.Get` | data/queue.py:319-352 | uninterrupted get, in the columns: the row handed out is of this queue, due, free or expired, with a retry left, and in ordered mode the first such row of a name with nothing running; nothing is handed out exactly if there is none; the claimed row and the view |
| `WorkQueues.WorkQueue.Cancel` | data/queue.py:354-361 | the row is gone, nothing else is, and the result says whether it was there |
| `WorkQueues.WorkQueue.Incomplete` | data/queue.py:366-382 | the release moves the due date, the availability, the restored retry and the state id, and no other column; the report of remaining retries, and the missing row |
| `WorkQueues.WorkQueue.ExtendProcessing` | data/queue.py:384-407 | the whole row after an extension, column by column; what is reported as a change, the missing row and the error |
| `QueueProtocol.RowWriteKeepsSnaps` | data/database.py:1435-1438 | a write that installs a fresh state id invalidates every snapshot of that row, so snapshots stay faithful |
| `QueueProtocol.StepKeepsFaithful` | data/queue.py:256-407 | every step, whoever takes it, keeps state ids minted, snapshots faithful and leased items claimed |
| `QueueProtocol.RunKeepsFaithful` | data/queue.py:300-303 | so after every run a snapshot whose state id still matches shows the row as it is |
| `QueueProtocol.StepKeepsInv` | data/queue.py:256-407 | every step that is careful with an item keeps its live leases exclusive and its row claimed until they end |
| `QueueProtocol.RunKeepsInv` | data/queue.py:256-407 | so does every run that is careful with the item, whatever happens to other items |
| `QueueProtocol.LeaseExclusion` | data/queue.py:291-317 | in every interleaving from the empty queue, with stale snapshots, late extensions and outside deletions, no two live leases are on an item that only its holders release and nobody else cuts short, whatever happens to other items |
| `QueueProtocol.RunKeepsSheltered` | data/queue.py:256-407 | a weaker invariant, that no live lease on the item is exposed to a claim, is kept by every run that is careful with it |
| `QueueProtocol.ExclusionLostIff` | data/queue.py:291-317 | from any faithful state, some careful run loses exclusion on an item if and only if a live lease on it is exposed: its row has a retry and is released, or expires and falls due before the lease ends |
| `QueueProtocol.LateReleaseBreaksIff` | data/queue.py:366-382 | a release by anybody makes exclusion lost in some run if and only if the item is under a live lease and left with a retry, for every retry time and with or without a restored retry |
| `QueueProtocol.LateExtensionBreaksIff` | data/queue.py:384-407 | an extension by anybody makes exclusion lost in some run if and only if it cuts a live lease short, which takes a negative minimum, and the item is due with a retry left by then |
| `QueueProtocol.NarrowClaimIsWideClaim` | data/queue.py:300-317 | after every run, with releases and extensions by anybody, the two-column claim equals the claim that rechecks availability; it succeeds exactly when the row is field for field the one selected; the view's body and retry count are the row's |
| `QueueProtocol.HolderExtensionNeverRaises` | data/queue.py:393-396 | after every run, an extension by a worker that ever claimed the item, in time or late, never meets a NULL expiry |
| `QueueProtocol.StepRetries` | data/queue.py:309-317 | how one step, whoever takes it, moves a row's retries; a claim finds one left |
| `QueueProtocol.RetryConservation` | data/queue.py:366-382 | after every run a live item's retries are those it was put with, less claims, plus those restored by anybody; never negative if put non-negative; claims never exceed put plus restored |
| `QueueProtocol.RowsKnowTheirDueDate` | data/queue.py:210-216 | after every run a row is due its delay after it was put, or the retry time after its last release by anybody |
| `QueueProtocol.NoEarlyClaim` | data/queue.py:87-93 | no claim of any run takes an item before it is due |
| `QueueProtocol.RowsKeepTheirContents` | data/queue.py:366-407 | after every run a stored item has the name it was put under and the body it was put with, or the data of its last extension that carried data |
| `QueueProtocol.DeletionIsFinal` | data/queue.py:354-364 | after a deletion the item is never stored and never claimed again, in any run |
| `QueueProtocol.HeartbeatRenews` | data/queue.py:384-407 | a heartbeat in time renews the lease to now plus duration less minimum, written or skipped |
| `QueueProtocol.OthersLeaveLease` | data/queue.py:256-407 | no careful step of anybody else shortens a live lease |
| `QueueProtocol.HeartbeatSafety` | data/queue.py:384-407 | a holder whose every gap stays below duration less minimum keeps its row running and unclaimed throughout any run that is careful with its item |
| `QueueProtocol.HeartbeatNeverLosesLease` | data/queue.py:384-407 | the same from every state reachable from the empty queue by a run careful with the item |
| `QueueProtocol.OrderedGetKeepsOrder` | data/queue.py:265-276 | an uninterrupted ordered get never starts a second running row of one name, also when its clock reading lags |
| `QueueProtocol.OrderedModeRunsOnePerName` | data/queue.py:265-276 | in every run of ordered gets, careful other steps and orderly late extensions, at most one row per name is running |
| `QueueProtocol.SplitClaimKeepsOrderIff` | data/queue.py:319-340 | in any faithful state, a claim split from its select keeps one running row per name if and only if its lease is already over or no other row of that name is running |
| `QueueProtocol.ExtensionKeepsOrderIff` | data/queue.py:384-407 | an extension by anybody, with any minimum, keeps one running row per name if and only if it leaves its row at rest or no other row of that name is running |
| `QueueProtocol.StepKeepsOrderIff` | data/queue.py:256-407 | any step keeps one running row per name if and only if it is orderly, which is decided before it is taken |
| `QueueProtocol.OrderedThroughoutIff` | data/queue.py:256-407 | any run, with selects apart from claims and with extensions and releases by anybody, has one running row per name at every moment if and only if every claim and extension in it is orderly |
| `QueueProtocol.SplitOrderedModeFails` | data/queue.py:319-340 | for every name, a legal run of two ordered workers, both picks right when made, that ends with two running rows of that name |
| `Like.MatchesIsLikeBySubstrings` | data/text.py:24-30 | the recursive matcher agrees with the declarative definition of LIKE by partition into substrings, for every pattern, text and case folding |
| `Like.ReplaceConcat` | data/text.py:12-19 | replacing in a concatenation is replacing in the parts |
| `Like.EscapeConcat` | data/text.py:12-19 | so is the whole replacement chain |
| `Like.EscapeOne` | data/text.py:12-19 | the three quotes go, the escape character and `%`, `_`, `[` are escaped, every other character stays |
| `Like.EscapeIsPerCharacter` | data/text.py:12-21 | the chain of seven replacements equals dropping quotes and putting `!` before each special character; no escape is orphaned |
| `Like.EscapedIsLiteral` | data/text.py:7-21 | an escaped text matches exactly itself, whatever pattern follows |
| `Like.PercentMatchesSomeSuffix` | data/text.py:54-61 | `%` matches any stretch |
| `Like.PrefixSearchIsExact` | data/text.py:24-30 | for every query and field, the prefix pattern matches if and only if the field starts with the query less the three quote characters |
| `Like.MatchLikeIsExact` | data/text.py:54-61 | the contains pattern matches if and only if that text occurs in the field |
| `Scopes.SplitAtSeparator` | auth/scopes.py:160 | splitting at blanks and commas distributes over a separator |
| `Scopes.EmptyOnlyWhenInvalid` | auth/scopes.py:153-161 | the parsed set is non-empty exactly when every word is a known scope |
| `Scopes.ScopesOfConcatenation` | auth/scopes.py:153-161 | joining two scope strings parses to the union, or to nothing if either is invalid |
| `Scopes.ScopesRoundTrip` | auth/scopes.py:153-161 | the names of any scopes, joined by blanks, parse back to those scopes |
| `Scopes.DirectLoginIsNeverParsed` | auth/scopes.py:119-131 | no string yields the direct login scope |
| `Scopes.LookupFindsNames` | auth/scopes.py:119-131 | a word is looked up exactly by the names of the scopes other than direct login |
| `Scopes.ScopeStrings` | auth/scopes.py:119-131 | the eight strings and their scopes |
| `Scopes.SubsetIff` | auth/scopes.py:133-179 | the subset test says yes if and only if the full string is valid and every expected scope is among its scopes or is a repository scope below one of them |
| `Grants.TranslationIsMinimum` | auth/permissions.py:114-124 | a translated role is the lower of the role and the best scope ceiling |
| `Grants.ScopeCeilings` | auth/permissions.py:41-67 | the most a token can carry, for every scope set and kind of role; direct login caps nothing |
| `Grants.NeedsAreThresholds` | auth/permissions.py:364-471 | every permission class asks for exactly the grants on its own object at or above its level |
| `Grants.NeedsAreUpwardClosed` | auth/permissions.py:364-471 | raising a grant never takes it out of a permission's needs |
| `Grants.TranslationIsMonotone` | auth/permissions.py:114-124 | more scopes or a higher role never lower the translated role |
| `Grants.PermissionMonotonicity` | auth/permissions.py:114-133 | raising scopes, team roles or repository roles never turns a yes into a no, for any permission |
| `Grants.MoreScopesAllowMore` | auth/permissions.py:114-133 | a larger scope set allows at least as much |
| `Grants.ImpliedScopeIsLower` | auth/scopes.py:133-143 | an implied scope has no higher ceiling than the scope implying it |
| `Grants.ScopeSubsetIsSound` | auth/scopes.py:169-179 | if the expected scopes are a subset of the full ones and parse, everything allowed under them is allowed under the full ones, superusers and full access included |
| `Grants.CappedRolesServeScopedUse` | auth/permissions.py:41-49 | repository roles capped by the scopes allow a use of a repository only if one of the scopes is for it |
| `Grants.RepositoryPermissionsNest` | auth/permissions.py:364-404 | for any grants, administering implies modifying implies reading |
| `DeferredIdentity.KeyIsInjective` | auth/permissions.py:313-314 | the `namespace/name` key determines both parts when the namespace has no slash |
| `DeferredIdentity.SlashFreeIsUnambiguous` | auth/permissions.py:313-314 | so with slash-free namespaces no check has an ambiguous key |
| `DeferredIdentity.CanDecides` | auth/permissions.py:265-352 | with its early returns, `can` answers as if every stage had run, and grants nothing those stages would not |
| `DeferredIdentity.MarksKeptAfter` | auth/permissions.py:265-352 | after any checks with any replica, whatever is marked as loaded for the user and the namespaces is loaded, and the superuser flag is exact |
| `DeferredIdentity.KeptAfter` | auth/permissions.py:320-341 | after any checks the primary's grants of every repository marked as loaded from it are held; with an exact replica, those of every repository marked at all |
| `DeferredIdentity.NothingExtraAfter` | auth/permissions.py:191-263 | without stale replica grants, nothing beyond the eager grants is ever loaded |
| `DeferredIdentity.LoadAllMissesNothing` | auth/permissions.py:294-352 | the stages of one call load all that eager loading, with the repository grants the call reads, could use |
| `DeferredIdentity.ChecksExactly` | auth/permissions.py:265-352 | every answer, after any checks and with any replica at every call: yes if and only if a held grant says yes or eager loading with the repository grants the call reads does |
| `DeferredIdentity.HeldGrantsSuffice` | auth/permissions.py:326-331 | where the primary's grants of a repository are held, not reading them again changes no answer |
| `DeferredIdentity.LazyIsEager` | auth/permissions.py:265-352 | with an exact replica, after any checks in any order whose keys are unambiguous, every answer is the eager one; an empty scope set raises for every known user |
| `DeferredIdentity.LazyIsEagerIff` | auth/permissions.py:265-352 | with an exact replica and any keys, an answer is the eager one if and only if the call still reads the repository's grants or does not hang on one that is not held |
| `DeferredIdentity.AnswersIgnoreHistory` | auth/permissions.py:265-352 | answers do not depend on earlier checks |
| `DeferredIdentity.WriteChecksExactly` | auth/permissions.py:304-341 | with any lagging replica, a write check says yes if and only if the primary would, or a grant already loaded does |
| `DeferredIdentity.WriteChecksFollowPrimary` | auth/permissions.py:320-341 | if the replica never showed a grant the primary lacks, a write check is exactly the primary's answer |
| `DeferredIdentity.StaleReadGrantAnswersWrites` | auth/permissions.py:304-306 | for every repository: a read check against a replica with a revoked grant makes the next write check say yes |
| `DeferredIdentity.CollidingCheckHidesGrant` | auth/permissions.py:313-326 | for every two repositories: after a check of one, a user whose only grant is on the other is answered rightly if and only if the key asked about is unambiguous |
| `DeferredIdentity.AnswersStayWithinScopes` | auth/permissions.py:114-130 | after any checks, and whatever replicas they meet, a yes of `can` on a repository without full access takes the admin scope or direct login, for modifying also the write scope will do, for reading also the read scope |
| `DeferredIdentity.AdministerImpliesModify` | auth/permissions.py:364-404 | after any checks, and whatever replicas the calls meet, a yes to administer implies a yes to modify |
| `DeferredIdentity.ModifyImpliesReadIff` | auth/permissions.py:364-393 | after any checks, and whatever replicas the calls meet, a yes to modify implies a yes to read if and only if the read does not lag: no write grant on the primary that only an outdated mark or replica hides from it |
| `DeferredIdentity.ModifiedIsReadable` | auth/permissions.py:364-393 | once modify was answered yes, read is answered yes |
| `DeferredIdentity.WriteWithoutRead` | auth/permissions.py:239-252 | for every repository: with a grant the replica has not seen, a fresh identity may modify and may not read |
| `DeferredIdentity.AnswersNest` | auth/permissions.py:364-404 | with an exact replica, after any checks, administer implies modify implies read, as answered by `can` |
| `DeferredIdentity.ScopeSubsetAnswers` | auth/scopes.py:169-179 | scope subset soundness for the answers of two lazily loading identities with unrelated histories |
| `AccessRules.EagerIsDeclared` | auth/permissions.py:31-189 | for every permission, user, token and database, loading everything answers exactly as the rules say: ceilings by scope, own namespace, organization administrators, team roles, repository grants, superusers |
| `AccessRules.AnswersAreDeclared` | auth/permissions.py:265-352 | with an exact replica `can` answers as the rules say, after any checks |
| `AccessRules.AnswersAreBounded` | auth/permissions.py:265-352 | whatever replicas show, what the rules allow without a repository grant is answered yes, and every yes is allowed with the grants some database has shown |
| `AccessRules.OtherAnswersAreDeclared` | auth/permissions.py:265-352 | what does not concern a repository is answered as the rules say, after any checks and whatever replicas show |
| `AccessRules.SuperuserAnswers` | auth/permissions.py:271-286 | after any checks and whatever replicas show, the superuser permission takes a superuser account that is not read-only and the superuser or direct login scope, the read-only one a read-only superuser, and no more |
| `AccessRules.BeyondScopesTakesSuperuser` | auth/permissions.py:288-292 | a yes of `can` on a repository beyond the token's scopes takes the superuser scope, a superuser account that is not read-only, and the feature |
| `DeferredUser.QuayDeferredPermissionUser.constructor` | auth/permissions.py:83-102 | nothing is loaded |
| `DeferredUser.QuayDeferredPermissionUser.PopulateUserProvides` | auth/permissions.py:135-158 | adds exactly the user's own needs |
| `DeferredUser.QuayDeferredPermissionUser.AddTeams` | auth/permissions.py:167-189 | the loop adds exactly the needs of all teams and, without a filter, records their organizations |
| `DeferredUser.QuayDeferredPermissionUser.PopulateNamespaceWideProvides` | auth/permissions.py:160-189 | adds exactly the needs of the filtered teams |
| `DeferredUser.QuayDeferredPermissionUser.PopulateRepositoryProvides` | auth/permissions.py:191-263 | adds exactly the repository's grants as the primary or the replica has them, and records a load from the primary |
| `DeferredUser.QuayDeferredPermissionUser.CheckSuperuser` | auth/permissions.py:271-286 | the whole state after the superuser stage |
| `DeferredUser.QuayDeferredPermissionUser.LoadRepository` | auth/permissions.py:320-341 | the whole state after the repository stage, and whether it loaded |
| `DeferredUser.QuayDeferredPermissionUser.LoadNamespace` | auth/permissions.py:343-350 | the whole state after the namespace stage |
| `DeferredUser.QuayDeferredPermissionUser.Can` | auth/permissions.py:265-352 | answer and whole new state are those of the function the theorems above are about, errors included |
| `Orchestrators.RedisOrchestrator.SetKey` | buildman/orchestrator.py:471-499 | refusal exactly on an existing key without overwrite; otherwise the whole store and the event |
| `Orchestrators.RedisOrchestrator.DeleteKey` | buildman/orchestrator.py:507-522 | refusal exactly on a missing key; otherwise key, shadow and marker are gone and the event carries the value |
| `Orchestrators.RedisOrchestrator.Lock` | buildman/orchestrator.py:524-530 | acquired exactly if the key is absent; the whole store and the event |
| `Orchestrators.RedisOrchestrator.ExpiringKeyHandler` | buildman/orchestrator.py:333-362 | the whole store and the callbacks after the handler ran on an event, whatever happened since it was sent |
| `OrchestratorRuns.SetWrites` | buildman/orchestrator.py:471-499 | what an accepted set leaves under the key and its shadow, that it removes the expired marker when it sets an expiration, whether it is told as a set or a creation, and which event it makes Redis send; overwriting a missing key stores nothing |
| `OrchestratorRuns.DeleteWrites` | buildman/orchestrator.py:507-522 | a delete removes key, shadow and marker and tells the value |
| `OrchestratorRuns.RunKeepsHonest` | buildman/orchestrator.py:471-522 | in every run a visible key holds the last value set under it |
| `OrchestratorRuns.ExpireEventsCarryLastValue` | buildman/orchestrator.py:359-362 | every expiry callback of every run, however late, carries the value last set under its key |
| `OrchestratorRuns.StepKeepsBackedIff` | buildman/orchestrator.py:333-362 | a step leaves a key's shadow with a key that outlives it by a day if and only if it is neither a set with expiration that overwrites a missing key, nor the handling of an event after the key was given a new expiration and a non-empty value |
| `OrchestratorRuns.BackedThroughoutIff` | buildman/orchestrator.py:333-362 | in any run a key's shadow is so backed at every moment if and only if every step is such |
| `OrchestratorRuns.LiveShadowHasLiveKey` | buildman/orchestrator.py:477-490 | in such a run a live shadow implies a live key whose deadline is absent or at least a day later |
| `OrchestratorRuns.PromptExpiryIsDelivered` | buildman/orchestrator.py:341-362 | in such a run an expiry sent and handled within a day of its deadline, or at any time for a key without one, delivers the last value |
| `OrchestratorRuns.LateHandlingTakesKey` | buildman/orchestrator.py:341-350 | for every key and values: an event handled after a new set takes the new value away before its expiration |
| `OrchestratorRuns.ExpiryIsDelivered` | buildman/orchestrator.py:341-362 | after any run, handling an event delivers the last value and, if non-empty, moves it to the expired marker, exactly if the key still exists; otherwise nothing changes |
| `OrchestratorRuns.SetBacksShadowIff` | buildman/orchestrator.py:479-490 | a set leaves a backed shadow if and only if it does not overwrite a missing key with an expiration |
| `OrchestratorRuns.LockExclusion` | buildman/orchestrator.py:524-530 | after a lock no other lock on the key succeeds for the requested time, and up to a day longer, in every run without a delete whose overwriting sets cover it, whatever expiry events are on their way |
| `OrchestratorRuns.UncoveredSetFreesLock` | buildman/orchestrator.py:471-499 | every overwriting set that does not cover the lock can be followed by time and expiry events alone that free the key too early |
| `Toposort.StuckMeansCyclic` | data/database.py:196 | a non-empty set of models each waiting for another in it means there is no topological order |
| `Toposort.ToposortMeansAcyclic` | data/database.py:196 | a topological order means there is no cycle |
| `Toposort.BeforeIff` | data/database.py:196 | names are compared at their first difference, a prefix first |
| `Toposort.Listed` | data/database.py:196 | a level is listed completely and in alphabetical order |
| `Toposort.Flatten` | data/database.py:196 | the sort succeeds exactly on acyclic graphs, self-dependencies ignored, and returns a topological order: level after level of the models that wait for nothing, each alphabetical |
| `Toposort.PathDescends` | data/database.py:196 | the order respects transitive dependency |
| `RecursiveDelete.CollectOperations` | data/database.py:177-194 | the loop keeps exactly the unskipped operations in reverse order, records exactly the references between different models, and stops at an unknown operator |
| `RecursiveDelete.StableSortSorts` | data/database.py:204 | the sort is a sorted permutation |
| `RecursiveDelete.StableSortIsStable` | data/database.py:204 | operations of one key keep their order |
| `RecursiveDelete.RecordedEdges` | data/database.py:189-192 | a dependency is recorded exactly where an operation goes from one model through a subquery on another, or to the root |
| `RecursiveDelete.KeepsPromises` | data/database.py:196-216 | over the operations found: every one runs as often as it was found unless it is a subquery of a model to be skipped, subqueries first, nullable references cleared or deleted as asked, direct operations on a model before those on every model it refers to through any chain, the root row last |
| `RecursiveDelete.DeleteInstanceFiltered` | data/database.py:163-216 | unknown operators raise; otherwise it raises exactly if the models cannot be ranked by reference, and else executes statements that keep all of this |
| `RecursiveDelete.DirectDeletesRespectDependencies` | data/database.py:198-204 | a direct delete on a model precedes those on every model it transitively depends on |
| `RecursiveDelete.DeletionOrder` | data/database.py:196-216 | the executed operations are a permutation of the unskipped ones, subquery deletes first in stable order, direct ones by transitive dependency, nullable references nulled or deleted as asked, the root row last |
| `ServiceKeys.KeyStore.Approve` | data/model/service_keys.py:190-206 | a missing key, an approved key and an unapproved one, and the whole table after each |
| `ServiceKeys.KeyStore.CreateKey` | data/model/service_keys.py:83-98 | an invalid name changes nothing; else the stale keys of the service are collected and the row is inserted exactly if its kid is then free |
| `ServiceKeys.KeyStore.Import` | boot.py:124-181 | the uninterrupted import of a taken kid succeeds exactly if that row has the mount's service and public key and the operator as creator, that of a free kid exactly if the service name is valid; the whole table afterwards, collected keys included |
| `KeyImport.StepKeepsInv` | boot.py:137-181 | every database statement of every pod keeps kids unique, rows in place and every pod's phase honest |
| `KeyImport.ImportConverges` | boot.py:124-181 | in every interleaving there is at most one row per kid, rows keep key, service and creator, and a pod that returned has its row matching and approved from then on |
| `KeyImport.FinishedPodsAgreeWithRow` | boot.py:98-121 | a finished pod with a valid service name returned if and only if the row is its own |
| `KeyImport.RaceOutcome` | boot.py:94-181 | in the columns: a returned pod has, from then on, the one row with its kid, with its service, public key and the operator as creator, approved and dated; a failed pod with a valid service name met a row that differs in one of the four |
| `KeyImport.StatementWrites` | boot.py:137-181 | what each statement writes, column by column, and that it writes nothing else |
| `KeyImport.SameMountNeverFails` | boot.py:152-167 | pods that mount the same key never fail, however they race and whatever pods with other keys do |
| `PoolConnect.SleepBoundFromStart` | data/database.py:500-519 | the longest possible back-off adds up to 0.8875 seconds |
| `PoolConnect.Schedule` | data/database.py:512-544 | the seven delays after an exhausted pool and after a dead connection |
| `PoolConnect.Jittered` | data/database.py:514-515 | the jitter is a quarter either way |
| `PoolConnect.TotalDelayBounded` | data/database.py:509-544 | whatever the attempts meet, their delays add up to no more than that bound |
| `PoolConnect.PooledDatabase.Connect` | data/database.py:492-548 | from any retry: the outcome of the first attempt not retried, bounded attempts, exact sleep, and the pool gains exactly the returned connection or nothing |
| `PoolConnect.PooledDatabase.ConnectFresh` | data/database.py:492-548 | at most 7 attempts, the settled connection or the right error, no leak, at most 0.8875 seconds of sleep |
| `Digests.ParsePrint` | digest/digest_tools.py:21-39 | a digest prints to a string that parses back to it if and only if it is well formed |
| `Digests.PrintParse` | digest/digest_tools.py:30-39 | a string parses if and only if it is the print of a well-formed digest, and prints back to itself |
| `Digests.ValidIff` | digest/digest_tools.py:5-39 | a string is valid if and only if it is a name in the allowed characters, a colon, and hexadecimal digits to the end |
| `Digests.DigestsEqualIsTextEquality` | digest/digest_tools.py:92-96 | valid digests are equal exactly if their texts are |
| `Digests.PathSegments` | digest/digest_tools.py:50-63 | the path's segments are the algorithm's words, the prefix and the hash |
| `Digests.ContentPathIsClean` | digest/digest_tools.py:50-63 | every content path is relative, no segment is empty or holds a dot or plus, and it ends in a two-character prefix and the hash |
| `Digests.SamePathIff` | digest/digest_tools.py:50-63 | two digests share a path if and only if they share the hash and the words of the algorithm |
| `Digests.PathDeterminesDigest` | digest/digest_tools.py:50-63 | among algorithms without plus and dot the path determines the digest |

## Left out

- Queue: `num_alive_jobs`, `alive`, metrics, `_currently_processing` and `has_retries_remaining`; counting and a local hint.
- Queue: the name LIKE of `_name_match_query` is an arbitrary predicate, and building canonical names is not modelled.
- Queue: `delete_expired` and `delete_namespaced_items` appear only as deletions of any set of rows.
- Queue: row ids are not reused, UUIDs are fresh, and all workers read one clock that does not run backwards, though a get may act on an old reading of it.
- SelectAvailable: an unordered select may return any available row, because the database may pick any 50 of them and then any one of those.
- BatchInsert: needs a positive batch size, because the loop of the source does not end otherwise.
- Get: is the uninterrupted call; the interleaved one is the pair of steps in `QueueProtocol`.
- LIKE: `match_mysql` and the regex searches; case folding is an arbitrary function on characters.
- Scopes: `app_scopes`, `get_scope_information` and scope descriptions.
- Permissions: `AlwaysFailPermission`, `on_identity_loaded`, signed grants, and a scope set of None, which `can` cannot use.
- Permissions: `get_all_user_repository_permissions` is unreachable from `can`; queries for one namespace or repository are the filter of the full lists.
- Permissions: the modification tracker is a flag saying whether a read goes to the primary; the replica's grants are arbitrary at every call.
- PopulateUserProvides: is stated for a non-empty scope set, like the other loading stages, because `can` raises before any of them on an empty one; that error is in `Can`.
- Orchestrator: `get_key`, prefixed listing, publishing threads, reconnects and `MemoryOrchestrator`; the Redis calls of one method are one step, suffixed keys never collide with plain ones, expirations are positive, and every expiry event is sent once and handled at most once.
- Orchestrator: callbacks are recorded as events; matching against watched prefixes is not modelled.
- RecursiveDelete: row contents and integrity errors are not modelled.
- Key import: reading and thumbprinting the mounted files (section 3 of RFC 7638), notifications, metadata other than the creator; which keys of a service are stale is a parameter, and with many pods no key is deleted.
- Pool: errors while closing a dead connection, and how the base pool makes connections; the jitter is a parameter.
- Digests: computing SHA-256.
