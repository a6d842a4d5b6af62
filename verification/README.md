# Verified model of the Skyline API server's stateful components

This Dafny project models the parts of the Skyline API server that keep state across requests or
make several remote calls that must fit together, and proves what those parts promise:

* the **instance lifecycle**: rows that are registered, warned about, extended, deleted and removed,
  by endpoints and by an hourly check that every worker process runs (`LifecycleTable`,
  `LifecycleCycle`, `LifecycleRuns`, `LifecycleInterleaving`, `LifecycleAtomicity`,
  `LifecycleContinuations`, `LifecycleRaceConditions`, `LifecycleDeadlines`, `LifecycleRaces`);
* the **settings overlay**, a database row over a configured default (`Settings`);
* the **sliding cookie session** and the table of revoked tokens with its purge (`Session`);
* the **hand-written joins** of the listing endpoints (`Joins`);
* the **sign-up saga** with its compensation (`Signup`);
* the **networking, deletion and clean-up workflows** (`Networking`, `Deletion`);
* the **external ports** of a floating IP (`Ports`).

Run `dafny verify dfyconfig.toml` to check everything.

## How the source is read

* Each `fetch_*` and `execute` opens a session of its own (`skyline_apiserver/db/base.py:41-63`), so
  one SQL statement is the atomic step. The lifecycle is therefore modelled twice. `LifecycleRuns`
  lets each operation run to its end; `LifecycleInterleaving` lets any number of schedulers, extend
  requests, registrations and removals interleave statement by statement, and lets a scheduler stop
  anywhere. `LifecycleAtomicity.UninterruptedCheck` shows that the two agree on every check during
  which nobody else writes the table. What becomes of the properties of the first model in the
  second is listed below.
* Remote services are parameters: each call's answer is an arbitrary value, so every theorem holds
  for every pattern of answers. What a service is assumed to do is the contract of the method that
  stands for it (`Joins.List`, `Deletion.Cloud.ListRules`, the calls of `Signup.Identity`).
  Keystone's ids are fresh and deleting a project or a user drops its grants; listings contain no
  entity twice.
* Clocks and random draws are parameters too. `int(...)` of a stored setting is a parameter that may
  fail; truth of a stored value likewise (`LifecycleCycle.Conversion`).
* Of a signed token only `uuid` and `exp` are kept. Whether the JWT library still accepts a token in
  the second of its `exp` is a parameter; section 4.1.4 of RFC 7519 asks that it does not. The
  session theorems cover both readings.
* The code is a method or a step of a state machine; what it computes is named by a function, and what
  that function means is stated once more without it: by predicates over fields, answers and literal
  numbers (`LifecycleCycle.RowLaw`, `LifecycleCycle.IsNewRow`, the clauses of `Session.ValidateToken`,
  `Deletion.CallsAsAnswered`, `Networking.ForwardsAll`, `Signup.IsolatesAllBut`), or by lemmas.

## What interleaving changes

The theorems of `LifecycleRuns` are about uninterrupted operations. With several workers and requests
on threads, this is what becomes of them; `LifecycleRaces` holds a reachable state for each failure.

* `ReachableTables`: the flag is right, the status may contradict it, exactly under the condition of
  `LifecycleRaceConditions.StatusHidesExtensionIff`. Mail times stay as they should
  (`LifecycleInterleaving.EveryRowStaysSane`), those of deleted rows if no id is registered twice
  (`LifecycleInterleaving.DeletedRowsHaveMailTimes`).
* `DeletedIsTerminal`: a deleted row comes back exactly under the condition of
  `LifecycleContinuations.DeletedIsRevivedIff`.
* `OneWarningPerRow`: an owner is mailed again exactly under the condition of
  `LifecycleContinuations.MailStillComesIff`.
* `ExtendedIsNeverTouchedAgain`: an extended row is still deleted exactly under the condition of
  `LifecycleContinuations.ExtendedIsStillDeletedIff`, and its owner mailed under that of
  `LifecycleContinuations.MailStillComesIff`.
* `ExtensionsAddUp` and `ExpiryOnlyGrows`: an extension falls short of thirty days, and moves the
  expiry back, exactly under the conditions of `LifecycleRaceConditions.ExtensionMovesExpiryBackIff`.
* `UnattendedHistory` and `TwoSidedDeadline`: the lower half of the deadline holds in every run that
  registers no id twice (`LifecycleInterleaving.NoDeletionBeforeDeadline`, and counted from the
  registration `LifecycleDeadlines.NothingBeforeItsTime`). The deletion may be asked
  for more than once, exactly under the conditions of
  `LifecycleContinuations.DeletionStillComesIff`. A check that nobody disturbs asks for every overdue
  deletion (`LifecycleAtomicity.UninterruptedCheck`).

## Where the code differs from its documentation

* `skyline_apiserver/config/setting.py:103` promises a mail before expiry. The check selects rows
  with `expires_at <= now`, so the mail comes at the first check from expiry on
  (`LifecycleRuns.UnattendedHistory`).
* The flow in the repository's README suggests that an extended instance is warned again thirty days
  later. Once `extended` is set no later check acts on the row
  (`LifecycleRuns.ExtendedIsNeverTouchedAgain`, `LifecycleInterleaving.ExtensionIsNeverLost`).
* An extension confirmed before the deadline is promised to save the instance. It does when it is
  recorded before the overdue listing (`LifecycleInterleaving.EveryDeletionIsJustified`); one that
  comes between that listing and the request to Nova does not
  (`LifecycleContinuations.ExtendedIsStillDeletedIff`).
* The automatic deletion reads the option `system_user`
  (`skyline_apiserver/utils/lifecycle_scheduler.py:69`), which is not declared: the option is
  `system_user_name` (`skyline_apiserver/config/openstack.py:84`), and a group raises on an unknown
  name (`skyline_apiserver/config/base.py:71-74`). The exception is caught, so with the code as it is
  every automatic deletion fails and `LifecycleRuns.RefusedHistory` is what happens;
  `LifecycleRuns.TwoSidedDeadline`, whose hypothesis is that deletions succeed, describes the code
  once that name is corrected.
* A revoked token is refused for good exactly when its own expiry is not too far beyond the recorded
  one (`Session.RefusedForGoodIff`). Renewal keeps the `uuid` and moves the expiry, so a copy renewed
  later can outlive the purge of its revocation.
* A renewed cookie reaches the client only when database and Keystone answer and the handler does not
  raise, because it is set on the response of the handler. A client whose visits all fail there can
  lose its session however often it came (`Session.ComingOftenIsNotEnough`;
  `Session.RenewalWindowIsTheLimit` counts completed visits).
* The legacy creation of a port forwarding looks up the floating IP last; when that lookup raises, it
  reports failure although the rule exists (`Ports.FloatingIp.CreateLegacy`).
* Which volume names the image of a server depends on the order in which Cinder answers, exactly when
  two attached volumes carry different image metadata (`Joins.ServerViewIsDeterminedIff`).
* External ports stay distinct exactly when Neutron refuses an explicitly requested port that is in
  use; that path, unlike the other two, does not look (`Ports.PortsStayDistinct`).
* A sign-up that fails leaves nothing behind exactly under `Signup.Restores`: a lost answer to the
  creation of a project or user, or an exception while the user is deleted, leaves remains.

## Model

| member | source | states |
|---|---|---|
| Settings.SettingsTable.GetSetting | skyline_apiserver/db/api.py:85-90 | the stored value of the key, if there is a row |
| Settings.SettingsTable.Store | skyline_apiserver/db/api.py:94-110 | insert-or-update changes exactly this key, keeps one row per key, and reads back what was written |
| Settings.SettingsTable.Erase | skyline_apiserver/db/api.py:114-119 | exactly this key's row disappears |
| Settings.SettingsTable.ShowSetting | skyline_apiserver/api/v1/setting.py:54-70 | 404 for an unknown key, else the overlaid value and its hidden mark |
| Settings.SettingsTable.UpdateSetting | skyline_apiserver/api/v1/setting.py:86-100 | a caller who is not an administrator is refused, an unknown key is not found, and both change nothing; otherwise the value is stored and returned |
| Settings.SettingsTable.ResetSetting | skyline_apiserver/api/v1/setting.py:146-159 | the same refusals; otherwise the row goes and the default is returned |
| Settings.SettingsTable.ListSettings | skyline_apiserver/api/v1/setting.py:114-130 | every accepted key once, each with its overlaid value, whatever the row order and whatever other rows exist |
| Settings.SettingsTable.ReadSetting | skyline_apiserver/utils/lifecycle_scheduler.py:18-20 | the lifecycle code reads the same overlaid value |
| Settings.SettingsTable.SmtpConfig | skyline_apiserver/utils/email.py:12-25 | the SMTP code reads the same overlaid value for each of its six keys |
| Settings.OverlayShowsTheLastWord | skyline_apiserver/api/v1/setting.py:54-159 | the overlay of any history of updates and resets shows the last update that no reset follows, else the default |
| Settings.ReadAfterHistory | skyline_apiserver/api/v1/setting.py:54-159 | after any history of endpoint calls on the table it holds one row per key at most, and the endpoints that show and list, the lifecycle code and the SMTP code all give the last word; only the password is marked hidden |
| LifecycleTable.LifecycleDb.CreateInstanceLifecycle | skyline_apiserver/db/api.py:169-194 | inserts a fresh unwarned row; the unique index refuses a second row for the instance |
| LifecycleTable.LifecycleDb.ListExpiringBefore | skyline_apiserver/db/api.py:208-218 | exactly the rows at or past expiry and not deleted, each once, in any order |
| LifecycleTable.LifecycleDb.ListAwaitingReply | skyline_apiserver/db/api.py:222-236 | exactly the sent, unextended rows whose mail time is recorded and old enough |
| LifecycleTable.LifecycleDb.UpdateEmailSent | skyline_apiserver/db/api.py:240-250 | status and mail time of this row only; `extended` is kept |
| LifecycleTable.LifecycleDb.UpdateExtended | skyline_apiserver/db/api.py:254-264 | status, flag and expiry of this row only |
| LifecycleTable.LifecycleDb.UpdateDeleted | skyline_apiserver/db/api.py:268-278 | status of this row only |
| LifecycleCycle.GetLifecycleSettings | skyline_apiserver/utils/lifecycle_scheduler.py:13-28 | the three overlaid settings and the administrator project's name, or the first of the two numbers that does not convert |
| LifecycleCycle.RunLifecycleCheck | skyline_apiserver/utils/lifecycle_scheduler.py:82-137 | a whole check, for every listing order and every pattern of answers: by `RowLaw`, said of the fields of each row, the project Keystone finds and the answers alone, who is mailed and about what, whose deletion is asked for, what each row becomes; nothing happens when disabled or unreadable |
| LifecycleCycle.CheckObeysRowLaw | skyline_apiserver/utils/lifecycle_scheduler.py:97-137 | the row-by-row function of a check obeys that law |
| LifecycleCycle.OnlySystemProjectIsSpared | skyline_apiserver/utils/lifecycle_scheduler.py:99-129 | rows of the project found are not mailed, not asked for and not changed; every other expired, unwarned row is mailed and every other overdue one asked for |
| LifecycleCycle.WarnExpiring | skyline_apiserver/utils/lifecycle_scheduler.py:97-120 | the first stage mails exactly the expired, unwarned, unexempted rows and marks those whose mail succeeded |
| LifecycleCycle.DeleteOverdue | skyline_apiserver/utils/lifecycle_scheduler.py:122-137 | the second stage asks for exactly the overdue, unexempted rows and marks those whose deletion succeeded |
| LifecycleCycle.ExtendInstanceLifecycle | skyline_apiserver/api/v1/lifecycle.py:80-108 | 404 and 409 change nothing; otherwise thirty days from the later of expiry and now, recorded in this row and returned |
| LifecycleCycle.RegisterLifecycle | skyline_apiserver/api/v1/instance.py:386-411 | exactly when the feature is enabled, the project is not the system's, the lifetime is readable and the instance has no row, a new row appears, with the owner's data and an expiry the lifetime's days times 86400 seconds from now |
| LifecycleRuns.ReachableTables | skyline_apiserver/db/api.py:240-278 | in every reachable table the flag is set exactly for status extended, unwarned rows have no mail time, sent and deleted rows have one |
| LifecycleRuns.DeletedIsTerminal | skyline_apiserver/api/v1/lifecycle.py:91-95 | in uninterrupted runs a deleted row never changes again until it is removed |
| LifecycleRuns.OneWarningPerRow | skyline_apiserver/utils/lifecycle_scheduler.py:98-120 | over any run each row gets at most one successful mail, and the recorded time is its time |
| LifecycleRuns.ExtendedIsNeverTouchedAgain | skyline_apiserver/utils/lifecycle_scheduler.py:105-135 | after an extension no check of any later run warns about or deletes the instance |
| LifecycleRuns.ExtensionsAddUp | skyline_apiserver/api/v1/lifecycle.py:97-102 | over any run the expiry is the original one plus thirty days per confirmed extension plus the total lateness |
| LifecycleRuns.NoLatenessIffAllOnTime | skyline_apiserver/api/v1/lifecycle.py:97-100 | that total is zero exactly when no confirmed extension came after the expiry it replaced |
| LifecycleRuns.ExpiryOnlyGrows | skyline_apiserver/api/v1/lifecycle.py:97-102 | the expiry never moves back, and right after an extension it is at least thirty days away |
| LifecycleRuns.UnattendedHistory | skyline_apiserver/utils/lifecycle_scheduler.py:91-137 | in uninterrupted runs, the exact mail and deletion times of an instance nobody reacts to, for any sequence of checks and any other operations in between |
| LifecycleRuns.TwoSidedDeadline | skyline_apiserver/utils/lifecycle_scheduler.py:91-151 | in uninterrupted runs with checks at most P apart it is deleted exactly once, between expiry plus grace and two periods later |
| LifecycleRuns.RefusedHistory | skyline_apiserver/utils/lifecycle_scheduler.py:57-79 | if every deletion fails, an unattended row stays sent and every check from the mail plus the grace period on asks again |
| LifecycleRuns.Perform | skyline_apiserver/db/api.py:169-288 | performing the operations of a run on the table one after the other gives the table of the run |
| LifecycleRuns.RowsStemFromRegistrations | skyline_apiserver/api/v1/instance.py:386-411 | in every run every row stems from a registration while the feature was enabled, outside the system's project, and expires no earlier than its lifetime after it |
| LifecycleRuns.RegisteredInstanceHasItsTime | skyline_apiserver/api/v1/instance.py:398-406 | whatever else happens, a registered instance is mailed about no earlier than its lifetime in days after the registration, and its deletion asked for no earlier than the grace period after that |
| LifecycleRuns.RegisteredInstanceIsReclaimed | skyline_apiserver/utils/lifecycle_scheduler.py:91-151 | with checks at most P apart and nobody reacting, it is mailed about once, at most P after that time, and deleted once, at most two periods after the grace period |
| LifecycleInterleaving.EveryDeletionIsJustified | skyline_apiserver/utils/lifecycle_scheduler.py:122-137 | with any number of concurrent schedulers, a deletion request goes back to a listing at which the row was sent, not extended and not in the project found, a mail had succeeded in a check that started at the recorded time, the grace period had passed, and no surviving extension had been recorded |
| LifecycleInterleaving.EveryWarningIsJustified | skyline_apiserver/utils/lifecycle_scheduler.py:97-120 | a mail goes back to a listing of the same check at which the row had expired, was unwarned and was not in the project found |
| LifecycleInterleaving.ExtensionIsNeverLost | skyline_apiserver/db/api.py:222-278 | once an extension is recorded the flag stays and the row is in no overdue listing while it exists, whatever is written meanwhile |
| LifecycleInterleaving.MailTimesAreTrue | skyline_apiserver/db/api.py:240-250 | every mail time in a reachable table is the start of a check whose mail succeeded |
| LifecycleInterleaving.RunKeepsInvariant | skyline_apiserver/utils/lifecycle_scheduler.py:82-151 | every interleaving keeps the invariant behind these theorems |
| LifecycleInterleaving.OnlyRegistrationInserts | skyline_apiserver/api/v1/instance.py:386-411 | the only step that inserts a row is a registration while the feature is enabled, outside the system's project, and it inserts the new row of that server |
| LifecycleInterleaving.EveryRowStaysSane | skyline_apiserver/db/api.py:169-278 | in every reachable table an unwarned row has no mail time, a sent one has one, and the status says extended only where the flag is set |
| LifecycleInterleaving.DeletedRowsHaveMailTimes | skyline_apiserver/db/api.py:240-278 | in every run that registers no id twice a deleted row has a mail time |
| LifecycleInterleaving.NoDeletionBeforeDeadline | skyline_apiserver/utils/lifecycle_scheduler.py:91-137 | in every run that registers no id twice, a check that asks for a deletion started no earlier than the expiry in the row it had listed plus its grace period |
| LifecycleInterleaving.AdminProjectHasNoRow | skyline_apiserver/api/v1/instance.py:388-411 | if the configured name recognises the administrator's project, no table along any run holds a row of it |
| LifecycleInterleaving.AdminProjectIsNeverTouched | skyline_apiserver/utils/lifecycle_scheduler.py:94-129 | so every mail and every deletion request goes back to a listing of its own check that showed the instance in another project, even when the id lookup fails |
| LifecycleAtomicity.UninterruptedCheck | skyline_apiserver/utils/lifecycle_scheduler.py:82-137 | from any state, every statement-by-statement run of a check during which nobody else writes the table ends with the table `AfterCycle`, having mailed and asked to delete exactly the due instances, each once, for every listing order |
| LifecycleAtomicity.StoppedCheck | skyline_apiserver/utils/lifecycle_scheduler.py:140-151 | wherever an exception stops such a check, each row has had its whole effect, that of the first stage or none, and only due instances were mailed or asked for, none twice |
| LifecycleAtomicity.CheckCanBeCarriedThrough | skyline_apiserver/utils/lifecycle_scheduler.py:82-137 | such a run exists from every state, by the scheduler's own steps alone |
| LifecycleAtomicity.UninterruptedExtension | skyline_apiserver/api/v1/lifecycle.py:84-102 | an extension between whose two statements nothing happens has the effect of the coarse model |
| LifecycleAtomicity.SingleStatements | skyline_apiserver/db/api.py:169-288 | registration and removal have it too |
| LifecycleContinuations.MailStillComesIff | skyline_apiserver/utils/lifecycle_scheduler.py:98-119 | from any state, and while the row exists, the owner can still be mailed exactly when the row is unwarned or a scheduler has it left, unwarned, in its listing |
| LifecycleContinuations.SecondMailHasOldListing | skyline_apiserver/utils/lifecycle_scheduler.py:98-119 | in every run, a mail after a recorded mail to the same row comes from a listing taken before the recording |
| LifecycleContinuations.DeletionStillComesIff | skyline_apiserver/utils/lifecycle_scheduler.py:97-137 | from any state, and while its row exists, an instance can still be deleted exactly when a scheduler has it left, not exempt, in its overdue listing, or it is not extended and is unwarned, waits for a reply, or has a mail under way |
| LifecycleContinuations.ExtendedIsStillDeletedIff | skyline_apiserver/utils/lifecycle_scheduler.py:124-137 | from any state, and while its row exists, an extended instance can still be deleted exactly when a scheduler has it left, not exempt, in its overdue listing |
| LifecycleContinuations.DeletedIsAskedForAgainIff | skyline_apiserver/utils/lifecycle_scheduler.py:124-137 | after a recorded deletion, and while the row exists, another can be asked for exactly when an overdue listing is left over, or the row is not extended and a mail is under way |
| LifecycleContinuations.SecondDeletionHasOldListing | skyline_apiserver/utils/lifecycle_scheduler.py:122-137 | in every run, a deletion asked for after a recorded one comes from a listing taken before the recording, or a mail was recorded in between |
| LifecycleContinuations.DeletedIsRevivedIff | skyline_apiserver/api/v1/lifecycle.py:84-102 | while it exists, a deleted row can come back to another status exactly when a request that read it has yet to write or a mail to its owner is under way |
| LifecycleRaceConditions.ExtensionMovesExpiryBackIff | skyline_apiserver/api/v1/lifecycle.py:84-102 | an extension falls short of thirty days exactly when the expiry another one, or a new registration, has set since it read is past the later of what it read and its clock; it moves the expiry back exactly when the later of what that one read and its clock is past it too; with no extension and no removal recorded since, it adds thirty days at least |
| LifecycleRaceConditions.StatusHidesExtensionIff | skyline_apiserver/db/api.py:240-278 | flag and status contradict each other exactly when a mail or a deletion was recorded after the row's last extension, and the flag is set exactly when there is one |
| LifecycleDeadlines.ExpiryStaysBeyondRegistration | skyline_apiserver/api/v1/lifecycle.py:84-102 | in every run that registers no id twice, however extensions interleave, the expiry never falls below that of the registration |
| LifecycleDeadlines.RowsComeFromRegistrations | skyline_apiserver/api/v1/instance.py:386-411 | in every run every inserted row is the new row of a registration while the feature was enabled, outside the system's project |
| LifecycleDeadlines.NothingBeforeItsTime | skyline_apiserver/utils/lifecycle_scheduler.py:91-137 | in every run that registers no id twice, a mail about an instance comes no earlier than its lifetime after its registration, a deletion request no earlier than the grace period after that |
| LifecycleRaces.LateRecordHidesExtension | skyline_apiserver/utils/lifecycle_scheduler.py:118-119 | a reachable state with status sent and the flag set |
| LifecycleRaces.ExtensionOvertakenByDeletion | skyline_apiserver/utils/lifecycle_scheduler.py:124-137 | a reachable state in which a deletion is asked for after a recorded extension |
| LifecycleRaces.SlowExtensionTakesDaysBack | skyline_apiserver/api/v1/lifecycle.py:84-102 | a confirmed extension that read early and writes late moves the expiry back |
| LifecycleRaces.TwoWarnings | skyline_apiserver/main.py:67-69 | two workers may mail the same owner |
| LifecycleRaces.TwoDeletions | skyline_apiserver/main.py:67-69 | two workers may ask for the same deletion, one of them after the other has recorded it |
| LifecycleRaces.SlowExtensionRevivesDeleted | skyline_apiserver/api/v1/lifecycle.py:84-102 | a reachable write of an extension that turns a deleted row into an extended one |
| LifecycleRaces.LateRecordRevivesDeleted | skyline_apiserver/utils/lifecycle_scheduler.py:118-119 | a reachable record of a mail that turns a deleted row into a sent one |
| Session.RevokedTokens.CheckToken | skyline_apiserver/db/api.py:42-53 | true exactly when some row has the uuid |
| Session.RevokedTokens.RevokeToken | skyline_apiserver/db/api.py:57-62 | one more row, duplicates allowed |
| Session.RevokedTokens.PurgeRevokedToken | skyline_apiserver/db/api.py:66-72 | exactly the rows that expired more than a second ago disappear |
| Session.ValidateToken | skyline_apiserver/main.py:134-187 | a cookie passes exactly when its signature is good, it is alive and not revoked, and database and profile answer; why each other request is refused; what a passing request shows and when and how its cookie is renewed |
| Session.RenewalWindowIsTheLimit | skyline_apiserver/main.py:150-187 | a client that keeps its latest cookie is never refused as expired, over runs of any length, exactly when its gaps fit the renewal window; gaps are counted from the last visit that database and Keystone answered and whose response was delivered |
| Session.CookieOutlivesGap | skyline_apiserver/main.py:150-187 | after any visits the cookie outlives the renewal window, counted from the last completed one |
| Session.UncompletedVisitsDoNotRenew | skyline_apiserver/main.py:150-187 | after visits of which none was completed, the next is refused as expired exactly when the login cookie has expired |
| Session.ComingOftenIsNotEnough | skyline_apiserver/main.py:178-187 | a client that comes every second can still be refused as expired, if no visit is completed |
| Session.PurgeIsUnobservable | skyline_apiserver/db/api.py:42-72 | under any interleaving of revocations and purges a request is judged as if nothing had been purged, given a late enough recorded expiry |
| Session.RefusedForGoodIff | skyline_apiserver/db/api.py:66-72 | a revoked token is refused at every later time exactly when its expiry is within the slack of the recorded one |
| Joins.List | skyline_apiserver/client/openstack/cinder.py:32-52 | the service assumption: exactly the matches, each once, in any order |
| Joins.FetchInSlices | skyline_apiserver/api/v1/extension.py:823-853 | one answer per slice, one after the other; slices of any size together fetch exactly the matches, without repetition when the ids are distinct |
| Joins.GroupBySnapshot | skyline_apiserver/api/v1/extension.py:862-867 | each snapshot's children in the order fetched |
| Joins.ChildrenInOrder | skyline_apiserver/api/v1/extension.py:862-867 | the children of a concatenation are the concatenation of the children |
| Joins.NameOfIsListed | skyline_apiserver/api/v1/extension.py:254-264 | a project's name is that of the last listed project with its id, and missing exactly when none has it |
| Joins.ListVolumeSnapshots | skyline_apiserver/api/v1/extension.py:802-876 | each view is what a lookup in the whole inventory says: volume name and host, project name, and exactly its child volumes, each once |
| Joins.SnapshotViewIsUnique | skyline_apiserver/api/v1/extension.py:823-875 | the view depends on set order, slice size and answer order only in the order of the children |
| Joins.IndexImageMetadata | skyline_apiserver/api/v1/extension.py:228-237 | for each server the metadata of the last fetched volume that is attached to it and has some |
| Joins.ListServers | skyline_apiserver/api/v1/extension.py:183-264 | each view is the function `ServerViewOf` of what was fetched and satisfies the lookup in the whole inventory: volume metadata overrides the image, which overrides nothing; an unknown project fails the listing for an administrator |
| Joins.ServerViewIsDescribed | skyline_apiserver/api/v1/extension.py:198-252 | whatever set order, slicing and answer order the fetches had, the view satisfies that lookup |
| Joins.ServerViewIsDeterminedIff | skyline_apiserver/api/v1/extension.py:198-252 | all set orders, slicings and answer orders give the server the same view exactly when all the attached volumes that carry image metadata for it carry the same; otherwise two answer orders give two views |
| Signup.CreateUser | skyline_apiserver/client/openstack/keystone.py:66-223 | for every pattern of outcomes: success exactly when every required call succeeds, and then exactly the new project with quotas, user and two grants; a failure restores the identity service exactly under `Restores`, and what else remains of project and user is said case by case; nothing else is ever touched |
| Signup.OpenProject | skyline_apiserver/client/openstack/keystone.py:77-111 | project and quotas, with their own rollback |
| Signup.AddUser | skyline_apiserver/client/openstack/keystone.py:113-159 | user and grants, stopping at the first failure |
| Signup.RollBack | skyline_apiserver/client/openstack/keystone.py:218-223 | user first, then project; an exception on the way escapes |
| Signup.Identity.DeleteProject | skyline_apiserver/client/openstack/keystone.py:36-48 | a bad status is ignored, an exception is not |
| Signup.Identity.DeleteUser | skyline_apiserver/client/openstack/keystone.py:51-63 | likewise |
| Signup.Identity.CreateDefaultGroup | skyline_apiserver/client/openstack/keystone.py:161-213 | one ingress rule for each forwarding machine, as a single address and in order, then the egress rule, or a prefix of these when a call fails |
| Networking.CallPortForwardApi | skyline_apiserver/api/v1/instance.py:57-80 | the attempts of one call |
| Networking.AwaitActive | skyline_apiserver/api/v1/instance.py:95-119 | at most sixty polls, ended by the first active or error status |
| Networking.AwaitIp | skyline_apiserver/api/v1/instance.py:126-141 | at most ten polls, ended by the first address |
| Networking.SetupInstanceNetworking | skyline_apiserver/api/v1/instance.py:83-217 | the exact trace of observations and posts |
| Networking.TriesAreBounded | skyline_apiserver/api/v1/instance.py:57-65 | one to three attempts, repeated only after a network error |
| Networking.CallsOfATrace | skyline_apiserver/api/v1/instance.py:158-214 | the logical calls are SSH and every additional port in order, whatever fails, once the instance is ready, and none otherwise |
| Networking.PostsComeLast | skyline_apiserver/api/v1/instance.py:94-171 | no post precedes an observed active status and the address it forwards to, and no trace with a post saw an error status |
| Networking.ReadyInstanceIsForwarded | skyline_apiserver/api/v1/instance.py:94-214 | for an instance seen active before any error whose address is found: the polls up to then, then the logical calls field by field, SSH on port 22 and every requested port in order, with the server's id, name and address, each tried again only after a network error |
| Networking.OthersAreNotForwarded | skyline_apiserver/api/v1/instance.py:94-144 | for any other instance nothing is posted |
| Networking.NeverActive | skyline_apiserver/api/v1/instance.py:94-119 | a wait without an active status ends at the first error or after sixty polls |
| Networking.NeverFound | skyline_apiserver/api/v1/instance.py:126-144 | a wait without an address ends after ten polls for it |
| Deletion.Cloud.RulesByInternalIp | skyline_apiserver/client/openstack/neutron.py:168-202 | exactly the rules with the address on the floating IPs that could be listed, each once |
| Deletion.DeleteExternalRules | skyline_apiserver/api/v1/instance.py:717-736 | one deletion per outside rule that has an id, in order, whatever fails |
| Deletion.OnlyExternal | skyline_apiserver/api/v1/instance.py:720-736 | exactly the outside rules with an id are deleted, under the first one that is not empty |
| Deletion.ExternalCallsInOrder | skyline_apiserver/api/v1/instance.py:720-736 | rule by rule, one call for each |
| Deletion.DeleteNeutronRules | skyline_apiserver/api/v1/instance.py:738-765 | every targeted rule is attempted and exactly the successful ones disappear |
| Deletion.DeleteInstance | skyline_apiserver/api/v1/instance.py:706-809 | the trace of everything it does, in order, up to the first failure; each call is made exactly once as soon as those before it succeeded, the clean-up of the volumes exactly when there are any, and every outside rule with an id is deleted; when Neutron works, exactly the rules of the server's address disappear |
| Deletion.DeletionOrder | skyline_apiserver/api/v1/instance.py:716-802 | in every such trace the rules go before the server, and the removal of the row and the clean-up of the volumes come only after the server was deleted and the activity recorded |
| Deletion.DeleteVolumesAfterInstance | skyline_apiserver/api/v1/instance.py:812-846 | the exact trace of polls and deletions |
| Deletion.CleanupIsBounded | skyline_apiserver/api/v1/instance.py:812-846 | at most 24 and 12 polls, then one deletion per volume, in order, whatever fails |
| Deletion.ServerIsAwaited | skyline_apiserver/api/v1/instance.py:816-824 | the server is polled until it is gone, 24 times at most, before any volume |
| Deletion.VolumeSegment | skyline_apiserver/api/v1/instance.py:827-846 | then each volume in turn is polled until it is settled, twelve times at most, and deleted right after |
| Ports.FloatingIp.FindRandomAvailablePort | skyline_apiserver/client/openstack/neutron.py:205-218 | the first of a hundred draws that is free, or failure when none is |
| Ports.FloatingIp.CreateLegacy | skyline_apiserver/client/openstack/neutron.py:38-85 | a rule is added exactly when the listing and the creation are answered and the port is free; success is reported only if the last lookup is answered too |
| Ports.FloatingIp.CreateRule | skyline_apiserver/client/openstack/neutron.py:117-146 | draws a port in 10..1000 that no rule uses when none is asked for, and does not look otherwise; the rule created is the one requested |
| Ports.FloatingIp.DeleteRule | skyline_apiserver/client/openstack/neutron.py:149-156 | exactly the rules with the id disappear and the others stay, or nothing changes when Neutron refuses |
| Ports.WithoutRuleKeepsOthers | skyline_apiserver/client/openstack/neutron.py:149-156 | the others stay in their order |
| Ports.PortsStayDistinct | skyline_apiserver/client/openstack/neutron.py:38-156 | over any history the external ports stay pairwise distinct exactly when no accepted explicit request names a port in use |

## Left out

- Session.ValidateToken: does not model the exempt paths, which skip it (`skyline_apiserver/main.py:113-132`); `/logout` is one of them, so the revocation it attempts is modelled only as a step of the store.
- Signup.CreateUser: does not restore Nova and Cinder quotas of a deleted project, because the code does not; quotas of other projects are untouched.
- Networking.SetupInstanceNetworking: does not model the sleeps, nor the inner polling of the address lookup, which is one answer here; a rule's name is kept as its prefix and port.
- Deletion.DeleteInstance: does not model the set-up of the user's session before the `try`.
- Ports.FloatingIp.CreateLegacy: does not say whether neutronclient, which is not part of this model, accepts the keyword of the listing call; a refusal is one of the answers.
- Joins.ListVolumeSnapshots: does not model the project check of a lookup by snapshot id, nor the fields of the raw record that are passed through.
- Joins.ListServers: does not model the filters by project name that precede the listing.
- LifecycleCycle.RunLifecycleCheck: does not model exceptions in the middle of a check; what such a check has done is stated by `LifecycleAtomicity.StoppedCheck`, in the model of single statements.
- Settings.SettingsTable.Store: does not model two concurrent first writes of a key, where the unique index makes one fail.
- The wait for a bootable volume and the choice of the default user in `_provision_instance`: bounded polling as in `Networking`, and text.
- `list_recycle_servers`: its lookups compare parsed identifiers with text keys, so it is no join in the sense of `Joins`.
- The server names in `list_volumes` and the combined filters of `list_ports`.
- The project-wide limit of port forwardings: it counts rules of the project's own floating IPs but creates on any.
- Concurrent creations on one floating IP, crashes between a mail and its record, and retried posts that took effect twice: the code promises nothing there.
- HTTP, mail and OpenStack internals, token signatures, policies, schemas, migrations and command-line tools.
