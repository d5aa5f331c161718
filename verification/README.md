# Curfew: a model of its policy core

Curfew blocks apps and sites while a session is running, and lets a session end early only when the
session's lock allows it. This project models the code that decides: the lock lattice and the session
store, the evidence a lock can be opened with, the rule engine and the guard on config edits, the
object an app holds, the start of the service, and the algorithms these stand on. Every operation
takes the time as a parameter, as in the original.

An operation that updates fields or walks a loop is a method, proved to compute a function on values
or to meet a property stated outright. The theorems are about those functions, over every input and
every run:

- *A lock is a promise.* `SessionRuns` shows what can take a session away over any interleaving of the
  store's operations; `DeviceRuns` carries that to the object the app holds, and adds where each piece
  of evidence must have come from.
- *An ended occurrence stays ended*, and a release asked for is kept (`Reconciliation`, `SessionRuns`);
  `DeviceEndings` carries the first to the object.
- *A guard on rules is a fact about decisions.* `Adoption` shows exactly when a config passed by the
  guard can decide less strictly than the one before; `Service` and `DeviceRules` carry it across
  restarts and across every edit.
- *Fast forms refine simple ones*: the glob loop, interval statistics, next change and preview, refill
  windows, recurrence expansion, the pass ration, the trusted clock, the bounded line reader.
- *What the words mean.* A module named `...Meaning` or `...Facts` says what the specification functions
  of another mean, from the clock, the characters and the records alone: when a window is active, when a
  target matches, which rules speak on a platform, what a recurrence rule asks for, what a summary counts,
  what a sound config is; `DeviceEvidence` says exactly when a call does end a session.

Each module holds one source file or one of its concerns; a module named `...Facts`, `...Meaning`,
`...Text`, `...Runs`, `...Rules` or `...Endings` holds the theorems about the operations of another, and
`Adoption` those about the guard.

## Where the code and its comments differ

The model follows the code, and the difference is stated as a lemma.

- `harden` can move a promised release later (`LockLattice.HardenPostponesExactlyWhen`), although the
  field's comment says it never moves later (lock.rs:103-104).
- `merge` can open a lock earlier when the other side carries a delayed release
  (`LockLattice.MergeNeverWeakensExactlyWhen`), although merging is described as only adding strictness.
- A window declined as already present need not behave like the one that is
  (`PickerFacts.TwinsRunAlikeExactlyWhen`), although config.rs:454-459 says the two cannot differ.
- `set_blocked_apps` need not leave the config as it was when it fails
  (`PickerFacts.SaveKeepsRulesExactlyWhen`, `PickerFacts.FailedSaveLetsGo`).
- The guard does not see added allow-only rules, a changed zone, or a screen exchanged for one that
  shares its key (`Adoption.AdoptionIsStrictExactlyWhen`, `Adoption.AddedAllowOnlyLoosens`,
  `Adoption.ChangedZoneLoosens`, `Adoption.SwappedScreenLoosens`).
- A pattern with a star does not match a text with a literal star at that place
  (`GlobMeaning.GlobAgreesExactlyWhen`); testing the star first would (`GlobStarFirst.GlobMatchStarFirst`).
- An address with no scheme that carries another in its query is read for the host of that one
  (`UrlText.SchemelessIsReadExactlyWhen`, `UrlText.CarriedAddressIsRead`).
- Monthly and yearly rules clamp to short months, where section 3.3.10 of RFC 5545 skips them
  (`Recurrence.MonthsLaterNeverDrifts`).

## Model

| member | source | states |
|---|---|---|
| LockLattice.MergeIsAJoin | crates/curfew-core/src/lock.rs:190-209 | Merging locks is commutative, associative and idempotent, and two locks that constrain something never merge into one that constrains nothing. |
| LockLattice.MergeUnit | crates/curfew-core/src/lock.rs:181-191 | The empty lock is the unit of merging, and no other lock is. |
| LockLattice.MergeNeverWeakensExactlyWhen | crates/curfew-core/src/lock.rs:190-209 | Merging `b` into `a` never lets `a` be released earlier or on less evidence, exactly when `b` brings no delayed release before a bound `a` already had (or `a` asked for nothing). |
| LockLattice.MergeHoldsBoth | crates/curfew-core/src/lock.rs:190-209 | Between locks with no delayed release, whatever opens the merge would have opened both. |
| LockLattice.MergeOfRunning | crates/curfew-core/src/lock.rs:190-209 | While neither lock is over, the merge opens exactly when both would. |
| LockLattice.HardenNeverWeakensNorTraps | crates/curfew-core/src/lock.rs:234-258 | Adopting stored state never opens a lock earlier and never removes an end or a release the running lock had; its end is the later of the two, evidence for both locks opens it, and until it is over nothing less does. |
| LockLattice.HardenPostponesExactlyWhen | crates/curfew-core/src/lock.rs:234-258 | A promised release is moved later exactly when the stored copy carries a later one, despite the field comment at lock.rs:103-104. |
| LockLattice.RequestedReleaseLands | crates/curfew-core/src/lock.rs:262-274 | A requested release lands within a day of the first request; asking again can never move it later. |
| SessionStore.Sessions.StartSession | crates/curfew-core/src/session.rs:135-143 | Moves the object to the store that starting names: one session per profile, locks merged, earliest start kept, list sorted by id. |
| SessionStore.Sessions.RestoreWithoutWeakening | crates/curfew-core/src/session.rs:184-214 | Restores a stored list one session at a time: harden what runs, skip what was ended by hand, start the rest, keep dismissals held here. |
| SessionStore.Sessions.EndSession | crates/curfew-core/src/session.rs:265-297 | Ends the named session when its lock opens on the evidence, recording the ending; otherwise says what is missing and changes nothing. |
| SessionStore.Sessions.EndSessionWithPass | crates/curfew-core/src/session.rs:319-331 | A pass ends the named session whatever its conditions, through the same ending. |
| SessionStore.Sessions.RequestSessionRelease | crates/curfew-core/src/session.rs:335-338 | Sets the delayed release of the named session and returns when it lands. |
| SessionStore.Sessions.ReapSessions | crates/curfew-core/src/session.rs:347-352 | Removes and returns exactly the sessions whose time is up, and writes no dismissal. |
| SessionStore.Sessions.ReconcileSessions | crates/curfew-core/src/session.rs:382-417 | Starts or strengthens a session for every listed activation that is neither over nor dismissed, and returns the ids it minted. |
| SessionStore.Sessions.CurrentLock | crates/curfew-core/src/session.rs:257-262 | The joined lock of every session that is not over. |
| SessionFacts.StartFacts | crates/curfew-core/src/session.rs:135-143 | Starting keeps one session per profile, leaves every other profile and all dismissals alone, and merges into the running one. |
| SessionFacts.SortIsASort | crates/curfew-core/src/session.rs:141-142 | The list after a push is the same sessions, in id order. |
| SessionFacts.StringLeExactlyWhen | crates/curfew-core/src/session.rs:141-142 | The order of ids is by bytes: one begins the other, or has the smaller character where they first differ. |
| SessionFacts.EndFacts | crates/curfew-core/src/session.rs:265-297 | Ending succeeds exactly when the named session runs and its lock opens; it removes that profile alone and remembers the clamped instant. |
| SessionFacts.RequestFacts | crates/curfew-core/src/session.rs:335-338 | A release request succeeds exactly when the id is running, changes that session only, and lands no later than a day on. |
| SessionFacts.ReapSplits | crates/curfew-core/src/session.rs:347-352 | Every session is either handed back as over or still running, as often as it was listed. |
| SessionFacts.ReapFacts | crates/curfew-core/src/session.rs:347-352 | Reaping removes a profile exactly when its lock is over. |
| SessionFacts.RestoreNeverWeakens | crates/curfew-core/src/session.rs:184-214 | Whatever is restored, every running session still runs under a lock at least as hard, with the same start, and dismissals held here win over stored ones, which are added. |
| SessionFacts.RestoreDoesNotRevive | crates/curfew-core/src/session.rs:184-245 | A profile is not brought back while the ending held here falls at or after the start and before the end of every stored session of it. |
| SessionEndings.RestoreRunsExactlyWhen | crates/curfew-core/src/session.rs:184-245 | After a restore a profile runs exactly when it ran, or some stored session of it began after the ending held here or was over by then, or no ending is held. |
| SessionEndings.EndedIsRestoredExactlyWhen | crates/curfew-core/src/session.rs:184-297 | After an ending, copies of the ended session stored before it are brought back exactly when it had an end no later than its start; a session that lasts any time at all is not. |
| SessionEndings.EndingIsRememberedWhen | crates/curfew-core/src/session.rs:265-297 | A session ended at an instant of it is remembered by exactly that instant. |
| SessionEndings.PassEndsForGood | crates/curfew-core/src/session.rs:319-331 | A pass ends the session it names, whatever its lock, and stored copies of it do not bring it back. |
| SessionEndings.EndedSessionStaysEnded | crates/curfew-core/src/session.rs:135-417 | Over every run, restores included and under any clock: once a session was ended its profile stays down until a step asks for something other than that run of it. |
| SessionFacts.ReconcileKeeps | crates/curfew-core/src/session.rs:382-417 | Reconciling never removes a session, never weakens a lock and never moves a dismissal. |
| SessionRuns.LockIsAPromise | crates/curfew-core/src/session.rs:135-417 | Over every run with arbitrary clocks: if `p` ran under lock `l` at step i and step k took it away, then `l` itself allowed that then and on that evidence, or a release granted in between had landed, or a pass was spent. |
| SessionRuns.GrantHasASource | crates/curfew-core/src/session.rs:335-338 | Every release granted in a stretch of a run came from a request naming that session or from a start payload that carried one. |
| SessionRuns.NoEarlyRelease | crates/curfew-core/src/session.rs:265-352 | When no start payload carries a delayed release, a removal is an ending, a pass or a reap, and without a pass the earlier lock allowed it or a request was made at least 86400 seconds before. |
| SessionRuns.StartPayloadCanRelease | crates/curfew-core/src/session.rs:135-143 | That condition is needed: a concrete run in which a start payload with a past release takes an unexpired timer lock away. |
| SessionRuns.RequestedReleaseIsKept | crates/curfew-core/src/session.rs:335-352 | A day after a request that named it the session can be ended with no evidence and is reaped, whatever happened between, unless storage handed over a later release. |
| SessionRuns.RestoreCanPostpone | crates/curfew-core/src/session.rs:184-214 | That exception is real: a restore with a later release postpones one already promised. |
| SessionRuns.RunIsUnique | crates/curfew-core/src/session.rs:130-143 | Every run keeps at most one session per profile. |
| Reconciliation.ReconcileRunsExactlyWhen | crates/curfew-core/src/session.rs:382-417 | After reconciling, a profile runs exactly when it ran before or some listed activation of it has not ended, and the ending remembered, if any, is before its start or not before its end. |
| Reconciliation.ReconcileReportsStarts | crates/curfew-core/src/session.rs:379-417 | The ids returned are exactly those of the profiles that now run and did not before; sessions that ran keep their id and their source. |
| Reconciliation.ReconcileJoins | crates/curfew-core/src/session.rs:382-417 | The lock a profile ends with is the join of the one it had and every live occurrence of it. |
| Reconciliation.JoinedIsLeast | crates/curfew-core/src/session.rs:382-417 | That join is the least lock above all of them. |
| Reconciliation.ReconcileIgnoresOrder | crates/curfew-core/src/session.rs:382-417 | Order and repetition of activations change no lock, start or dismissal; only minted ids and the first source depend on them. |
| Reconciliation.ReconcileIsIdempotent | crates/curfew-core/src/session.rs:382-417 | Reconciling twice at one instant is the same as once, and mints nothing the second time. |
| Reconciliation.MergedLockOpensExactlyWhen | crates/curfew-core/src/session.rs:257-262 | The merged lock can be released now exactly when every session not over can. |
| Reconciliation.FedSessionOutlasts | crates/curfew-core/src/session.rs:361-369 | While the session an activation fed is running, its lock cannot run out before that activation does. |
| Reconciliation.EndedOccurrenceStaysEnded | crates/curfew-core/src/session.rs:226-297 | With a forward clock and no restore, once the user ends the session an activation fed, that activation is dismissed or over in every later step, so no later reconcile restarts the profile on its account. |
| Reconciliation.EndingsByHandHappen | crates/curfew-core/src/session.rs:265-417 | A concrete run that meets every condition of the theorem above. |
| Reconciliation.LaterOccurrenceStarts | crates/curfew-core/src/session.rs:226-230 | An activation that begins after the remembered ending does start, under at least its own lock. |
| Reconciliation.DueLocksHold | crates/curfew-core/src/session.rs:382-417 | A profile with a due activation runs under a lock that has every condition of it and, if it has an end, ends no earlier. |
| BootRecord.BootCounter.Observe | crates/curfew-core/src/boot.rs:81-87 | Numbers a new boot for the first reading and whenever uptime went backwards. |
| BootRecord.Boots.Observe | crates/curfew-core/src/boot.rs:39-45 | Remembers the boot each running session was first seen in and forgets every session no longer running. |
| BootRecord.SeenTracksReadings | crates/curfew-core/src/boot.rs:39-50 | What is remembered of a session, in terms of the history of readings alone. |
| BootRecord.RestartIsProvedExactlyWhen | crates/curfew-core/src/boot.rs:39-87 | Restart evidence exists exactly when an uptime reading fell since the unbroken sighting of that session began. |
| ProofRecord.Proofs.Record | crates/curfew-core/src/proof.rs:36-38 | A check of a condition replaces the time of the previous check of it for that session, and nothing else. |
| ProofRecord.Proofs.Prune | crates/curfew-core/src/proof.rs:52-58 | Keeps exactly the standing proofs of running sessions. |
| ProofRecord.Proofs.Forget | crates/curfew-core/src/proof.rs:61-63 | Forgets one session and no other. |
| ProofRecord.HeldExactlyWhen | crates/curfew-core/src/proof.rs:36-63 | A proof is held at a time exactly when it was checked then and nothing since replaced, forgot or outlived it. |
| ProofRecord.FreshExactlyWhen | crates/curfew-core/src/proof.rs:28-49 | A condition counts now exactly when its last check is under 120 seconds old, not in the future, and nothing since replaced, forgot or outlived it. |
| PassRation.Passes.Record | crates/curfew-core/src/emergency.rs:127-131 | The binary search inserts a use in order, once. |
| PassRation.Passes.Spend | crates/curfew-core/src/emergency.rs:179-183 | Spends exactly when the check refuses nothing, and records that use. |
| PassRation.Passes.Merge | crates/curfew-core/src/emergency.rs:186-190 | Records every use of the other ledger. |
| PassRation.Passes.Compact | crates/curfew-core/src/emergency.rs:195-198 | Keeps the uses the window can still see. |
| PassRation.RecordedFacts | crates/curfew-core/src/emergency.rs:127-131 | Recording keeps the ledger sorted without duplicates and adds exactly that use. |
| PassRation.MergeIsAUnion | crates/curfew-core/src/emergency.rs:186-190 | Merging is the union of two ledgers, whichever way round, and never gives a pass back. |
| PassRation.QuotaHoldsOverEveryWindow | crates/curfew-core/src/emergency.rs:127-198 | With a positive window, and a positive cooldown or at most one pass: whatever peers spent, and however often the ledger was compacted with a clock that never goes back behind a compaction, any half-open stretch as long as the window holds at most `passes` local spends, kept apart by the smaller of cooldown and window. |
| PassRation.QuotaHoldsExactlyWhen | crates/curfew-core/src/emergency.rs:127-198 | For a positive window the quota holds over every such run exactly when the cooldown is positive or at most one pass is given. |
| PassRation.CompactionIsInvisible | crates/curfew-core/src/emergency.rs:195-198 | Compacting at an instant changes no answer at that or any later instant. |
| PassRation.QuotaRefusalIsExact | crates/curfew-core/src/emergency.rs:153-175 | With exactly `passes` recent uses, a quota refusal names an instant before which every spend is refused and at which one is granted. |
| PassRation.GrantedExactlyWhen | crates/curfew-core/src/emergency.rs:138-175 | A pass is granted exactly when passes are configured, fewer uses than that are less than a window old, and each of those is a whole cooldown ago; what remains is the difference. |
| PassRation.RefusalIsTrue | crates/curfew-core/src/emergency.rs:138-175 | A refusal names its reason and its instant: a cooldown after the latest of those uses, or when the earliest of them leaves the window. |
| PassRation.CooldownRefusalIsExact | crates/curfew-core/src/emergency.rs:138-161 | A cooldown refuses until the instant it names, as long as the use it is about stays in the window; from that instant on only the quota refuses. |
| PassRation.ZeroCooldownCollapses | crates/curfew-core/src/emergency.rs:127-131 | With a zero cooldown and two passes or more, any number of spends in one second are all granted and leave one record; validation forbids that setting. |
| PassRation.CooldownEndsWithTheWindow | crates/curfew-core/src/emergency.rs:138-161 | A use that left the quota window no longer holds the cooldown, however long that is. |
| TrustedClock.ClockWitness.TakeReading | crates/curfew-core/src/clock.rs:123-160 | Advances trusted time by uptime within a boot and by bounded wall credit across one, and reports what it refused. |
| TrustedClock.TrustedTimeIsAccountedFor | crates/curfew-core/src/clock.rs:123-160 | Trusted time never goes back and is the first value plus uptime between readings of one boot plus wall time between readings of two, where that is more than 60 seconds. |
| TrustedClock.FirstReadingIsBelieved | crates/curfew-core/src/clock.rs:78-85 | A clock with no past starts at the wall time of its first reading and counts on from it. |
| TrustedClock.VerdictAccountsForTheWall | crates/curfew-core/src/clock.rs:123-160 | Every second the wall clock moved was trusted or is reported refused, but for at most 60 where nothing is reported; what is credited across boots is what is reported unverified. |
| TrustedClock.WallIsIgnoredWithinABoot | crates/curfew-core/src/clock.rs:123-160 | Within one boot no wall value moves trusted time. |
| TrustedClock.TakesExactlyWhen | crates/curfew-core/src/clock.rs:115-120 | A stored witness is taken exactly when its trusted time is not ahead, its wall clock not behind and, on the same boot, its uptime not behind; so always the running one itself. |
| TrustedClock.AdoptionNeverGains | crates/curfew-core/src/clock.rs:115-120 | An accepted same-boot witness, met by a reading of a new boot or of no smaller uptime, stays at or behind the clock that never adopted it, on every continuation. |
| TrustedClock.AdoptionIsSafeExactlyWhen | crates/curfew-core/src/clock.rs:115-120 | The guard alone is not enough: an accepted witness can never gain exactly when boot and uptime are those of the running one. |
| GlobLoop.GlobMatchAscii | crates/curfew-core/src/target.rs:275-302 | The single-backtrack loop computes the matcher it is meant to be, within (length of text) * (length of pattern + 1) + (length of pattern) steps. |
| GlobMeaning.GlobIsSound | crates/curfew-core/src/target.rs:275-302 | Everything it accepts is a match under the meaning of `*` and `?`. |
| GlobMeaning.GlobIsComplete | crates/curfew-core/src/target.rs:275-302 | On a text without `*` it accepts every match. |
| GlobMeaning.GlobAgreesExactlyWhen | crates/curfew-core/src/target.rs:281-284 | It agrees with the meaning on every pattern exactly for texts that contain no `*`, because the literal test comes first. |
| GlobMeaning.GlobIgnoresCase | crates/curfew-core/src/target.rs:275-302 | The case of a pattern never matters. |
| GlobStarFirst.GlobMatchStarFirst | crates/curfew-core/src/target.rs:275-302 | The same loop with the star test moved first decides the meaning of `*` and `?` on every pattern and text, within the same bound on steps. |
| TargetMatch.DomainMatchesExactlyWhen | crates/curfew-core/src/target.rs:235-249 | A domain rule matches exactly itself and names that end in a dot and it, after trimming, whatever the case. |
| TargetFacts.MatchesExactlyWhen | crates/curfew-core/src/target.rs:62-108 | What each kind of target matches, on the characters observed: texts equal letter by letter up to case, a keyword found anywhere in the text of the observation, globs over title, address and path with either slash, domains by their labels, the whole device by anything but an idle screen. |
| TargetFacts.GlobMeans | crates/curfew-core/src/target.rs:267-302 | What a glob means, one pattern character at a time: `*` any run, `?` any character, a letter either case. |
| TargetFacts.TrimFacts | crates/curfew-core/src/target.rs:235-260 | Trimming takes white space, and then dots, off both ends and nothing else. |
| TargetFacts.SharesAKeyExactlyWhen | crates/curfew-core/src/target.rs:42-59 | Targets that differ in case alone, or in what is trimmed off a domain, share one key, and screens aside no others do. |
| UrlText.NoiseIsDropped | crates/curfew-core/src/target.rs:177-201 | User, port and fragment of an address never take part: it is read as its scheme and host in small letters and its path and query as they are. |
| UrlText.ParseUndoesNormalized | crates/curfew-core/src/target.rs:177-225 | Reading the spelled-out form of an address gives it back. |
| UrlText.SchemelessIsReadExactlyWhen | crates/curfew-core/src/target.rs:177-201 | An address with no scheme is read for its own host exactly when `://` stands nowhere in it. |
| UrlText.CarriedAddressIsRead | crates/curfew-core/src/target.rs:177-201 | One that is not: the host read is that of an address carried in the query. |
| TargetMatch.KeyFixesMatchingExactlyWhen | crates/curfew-core/src/target.rs:42-108 | Two targets with one key match the same observations exactly when they are not screens of different packages, up to case. |
| TargetMatch.KeyFixesMatching | crates/curfew-core/src/target.rs:42-108 | In particular targets with one key match the same observations when no screen target has a colon in its package. |
| TargetMatch.ColonInPackageSharesAKey | crates/curfew-core/src/target.rs:42-59 | There are such targets: two screens with one key that match differently. |
| Refills.ClampDay | crates/curfew-core/src/budget.rs:104-112 | The loop that walks back to a day the month has finds the smaller of the wanted day and the month length. |
| Refills.WalkBack | crates/curfew-core/src/budget.rs:78-95 | Two tries always suffice: the fallback at the end of the loop is never reached. |
| Refills.WindowStartIsTheLatestReset | crates/curfew-core/src/budget.rs:47-95 | For daily, weekly and monthly refills the window starts at the greatest reset not after now, a reset being the minute of the day, clamped to midnight, on every date, on the dates of the weekday, or on the day of the month clamped to its length. |
| Refills.WindowStartIsMonotone | crates/curfew-core/src/budget.rs:47-74 | A later now never gives an earlier window start. |
| Refills.SpentExactlyWhen | crates/curfew-core/src/budget.rs:161-166 | A budget counts as spent exactly when the uses inside the window add up to it, saturating included. |
| Refills.OpensAreCounted | crates/curfew-core/src/budget.rs:185-187 | Opens are counted once for every time they are listed in the window, from nothing, in a 32-bit counter. |
| Refills.SecondsAreAdded | crates/curfew-core/src/budget.rs:161-166 | The seconds counted are those of every rollup in the window, each once, from nothing. |
| Usage.Consumption.Record | crates/curfew-core/src/budget.rs:154-156 | Recording adds its seconds to every window open at that instant, and to no other. |
| Usage.Launches.Record | crates/curfew-core/src/budget.rs:181-183 | The same of opens. |
| Usage.PruningIsInvisible | crates/curfew-core/src/budget.rs:161-191 | Dropping what is older than the window open now changes no budget and no launch limit at this or any later instant, for any refill that starts over. |
| Usage.NeverSeesPruning | crates/curfew-core/src/budget.rs:169-171 | With no refill pruning can be seen: the saturating answer for a budget stays exactly when nothing dropped had been used or what is left still fills the counter, and the answer for a launch limit exactly when the opens dropped are a multiple of 2^32. |
| Usage.OrderNeverCounts | crates/curfew-core/src/budget.rs:136-166 | Rollups merged in another order count the same. |
| CivilCalendar.MonthsAreContiguous | crates/curfew-core/src/schedule.rs:420-450 | Months tile the days: each starts where the one before ends, with Gregorian leap years. |
| CivilCalendar.MonthIsUnique | crates/curfew-core/src/schedule.rs:420-422 | Every day lies in exactly one month. |
| CivilCalendar.TheEpoch | crates/curfew-core/src/schedule.rs:420-450 | Day 0 of the calendar is the first of January 1970, a Thursday. |
| CivilCalendar.TheMonths | crates/curfew-core/src/schedule.rs:420-450 | The twelve months have the lengths of the Gregorian calendar, February by the leap-year rule. |
| CivilCalendar.LocalInstantBounds | crates/curfew-core/src/schedule.rs:435-450 | A local minute falls inside its date; 1440 and beyond are the next midnight. |
| Schedules.NextChangeAfter | crates/curfew-core/src/schedule.rs:380-418 | The loops return the earliest considered opening or closing after now, and nothing only when there is none. |
| Schedules.NothingChangesBefore | crates/curfew-core/src/schedule.rs:303-317 | For sound windows the set of active schedules is the same at every instant from now until that change, and for ever when there is none. |
| Schedules.OpenIsActive | crates/curfew-core/src/schedule.rs:236-251 | An open window of any date is found by looking at today and yesterday. |
| Schedules.ActiveIsOpen | crates/curfew-core/src/schedule.rs:236-251 | What is reported active is an open window. |
| ScheduleMeaning.WindowIsActiveExactlyWhen | crates/curfew-core/src/schedule.rs:236-269 | By the clock, for every window, sound or not: one within a day is active between its two minutes on a day it names; one that crosses midnight, after its start on such a day or before its end on the day after one. |
| ScheduleMeaning.WindowAsksFor | crates/curfew-core/src/schedule.rs:236-269 | An active window asks for its own profile under its own locks, over the stretch that holds now from its start minute on a day it names to its end minute on that day or the next. |
| ScheduleMeaning.MatchesEventExactlyWhen | crates/curfew-core/src/schedule.rs:161-203 | An event is matched exactly when every part of the matcher that is there is met, durations being taken before padding. |
| ScheduleMeaning.ActivationsExactlyWhen | crates/curfew-core/src/schedule.rs:275-295 | A calendar rule asks, for each event it matches, for the event padded before and after by its seconds, and for one second at least. |
| ScheduleMeaning.ActiveExactlyWhen | crates/curfew-core/src/schedule.rs:303-317 | What should be running is exactly what some active window or some padded event holding the instant asks for. |
| Schedules.ActiveHaveBegun | crates/curfew-core/src/schedule.rs:236-317 | Whatever is reported active, weekly or calendar, has begun and is not over. |
| Preview.Upcoming | crates/curfew-core/src/schedule.rs:330-376 | The loops list every overlapping occurrence, ordered, losing and repeating none. |
| Preview.EarlierFirst | crates/curfew-core/src/schedule.rs:368-375 | The list is in the order things begin; what begins together is in the order it ends, and then by profile. |
| Preview.ShownExactlyWhenItWillRun | crates/curfew-core/src/schedule.rs:330-376 | For sound windows an activation is listed for a range exactly when it is active at some instant of it. |
| Engine.DecideObservation | crates/curfew-core/src/engine.rs:64-159 | The nested loop with its accumulators returns the decision that the rules in force resolve to. |
| Engine.WeighRule | crates/curfew-core/src/engine.rs:85-136 | One rule updates the accumulators as if the whole list so far had been asked each question anew. |
| Engine.StrictestWins | crates/curfew-core/src/engine.rs:139-158 | Which class a decision has, from which questions some rule in force answers: block, then budget, launches, allow-list, delay; mute or block for notifications. |
| Engine.OrderNeverDecides | crates/curfew-core/src/engine.rs:64-159 | Permuting active profiles, profiles or rules never changes the class of a decision, the kind of reason or the delay. |
| DecisionFacts.InForceExactlyWhen | crates/curfew-core/src/engine.rs:64-90 | The rules in force are exactly the rules of active profiles that list no platform or list this one. |
| DecisionFacts.DecidedByWhatIsWritten | crates/curfew-core/src/engine.rs:64-163 | The class of every decision from the rules as written for this platform: block, then budget, launches, allow-list, the longest delay, or allow. |
| DecisionFacts.OtherPlatformsDecideNothing | crates/curfew-core/src/engine.rs:85-90 | Configs that differ only in rules for other platforms decide alike and charge the same keys. |
| DecisionFacts.BlockBlocks | crates/curfew-core/src/engine.rs:85-158 | A matching block of an active profile that is meant for this platform blocks, and mutes a notification. |
| DecisionFacts.RollingBudgetBlocksExactlyWhen | crates/curfew-core/src/budget.rs:47-50 | A budget over a rolling stretch is spent exactly when that many of the last seconds hold that much use. |
| DecisionFacts.RollingLimitBlocksExactlyWhen | crates/curfew-core/src/budget.rs:185-187 | A launch limit over a rolling stretch is reached exactly when that many of the last seconds hold that many opens. |
| Engine.ChargedKeys | crates/curfew-core/src/engine.rs:182-201 | The loops collect the keys of matching metered rules, once each, in order of first use. |
| Engine.ChargedExactlyWhen | crates/curfew-core/src/engine.rs:182-201 | A key is charged exactly when some rule in force that meters it matches. |
| DecisionFacts.ChargedForWhatIsWritten | crates/curfew-core/src/engine.rs:182-201 | A key is charged exactly for a matching budget or launch limit of an active profile that is meant for this platform. |
| Engine.DecisionReadsOnlyChargedKeys | crates/curfew-core/src/engine.rs:64-201 | States that agree on usage and launches at the charged keys get the same decision. |
| ConfigGuard.RulesWeakenedBy | crates/curfew-core/src/config.rs:177-201 | One loss for each rule not found again under its key and platforms, or found with another action. |
| ConfigGuard.WeakeningARunningSession | crates/curfew-core/src/config.rs:217-236 | The losses of every running session, once each, under the name the user gave the profile. |
| ConfigGuard.GuardPassesExactlyWhen | crates/curfew-core/src/config.rs:217-236 | The guard is silent exactly when every rule of every running profile is still found, unchanged. |
| ConfigGuard.ReflexiveExactlyWhen | crates/curfew-core/src/config.rs:177-201 | A config passes its own guard exactly when no profile gives two actions under one identity. |
| ConfigGuard.KeptHoldsAll | crates/curfew-core/src/config.rs:177-201 | Passing the guard keeps every rule: same key, platforms and action. |
| Adoption.KeptMatchesExactlyWhen | crates/curfew-core/src/config.rs:177-201 | The guard finds rules by key, and a rule found again matches what it did, on every observation, exactly when no screen was exchanged for one of another package. |
| Adoption.PlainKeysKeepScreens | crates/curfew-core/src/config.rs:177-201 | Screens are kept by any edit when no screen target, before or after, has a colon in its package. |
| Adoption.AdoptionIsStrictExactlyWhen | crates/curfew-core/src/config.rs:217-236 | After a passed guard that exchanged no screen for one of another package, in whatever zone, each decision is at least as strict as before, except exactly where what blocked is a ration the new zone hands back, or an allow-list that now names the target, and nothing else blocks. |
| Adoption.AdoptionNeverWeakens | crates/curfew-core/src/config.rs:217-236 | A config past the guard makes no decision weaker, on any platform, ledger or instant, when every running profile keeps its screens, gains no allow-only rule, and either the zone stays or the profile meters nothing by a daily, weekly or monthly refill. A caller can check all three before adopting. |
| Adoption.AddedAllowOnlyLoosens | crates/curfew-core/src/config.rs:187-199 | The condition on allow-only rules is needed: an added one passes the guard and turns a block into an allow. |
| Adoption.ChangedZoneLoosens | crates/curfew-core/src/config.rs:177-201 | The condition on the zone is needed: changing only it passes the guard and hands a spent daily budget back. |
| Adoption.SwappedScreenLoosens | crates/curfew-core/src/config.rs:177-201 | The condition on screens is needed: a screen exchanged for one of another package that shares its key passes the guard, and what was blocked is let through. |
| Validation.Validate | crates/curfew-core/src/config.rs:545-704 | Silent exactly on sound configs, and truthful about what it names in the others. |
| SoundnessMeaning.ValidExactlyWhen | crates/curfew-core/src/config.rs:545-704 | The sound configs spelled out: nothing blank, nothing twice, limits and windows that can be used, minutes of a day, seven weekdays, schedules of profiles that are there, passes with a window and a gap. |
| SoundnessMeaning.NothingUsedNothingSpent | crates/curfew-core/src/config.rs:556-566 | Under a sound config no budget and no launch limit blocks before anything is used. |
| SoundnessMeaning.ZeroLimitIsABlock | crates/curfew-core/src/config.rs:556-566 | A limit of zero is spent by nothing at all, and only such a limit is. |
| Validation.CheckProfiles | crates/curfew-core/src/config.rs:547-575 | Finds blank ids and names, repeated ids and zero limits, and only those. |
| Validation.CheckSchedules | crates/curfew-core/src/config.rs:598-618 | Finds schedules that name no profile, blank ids and ids repeated within one kind, and only those. |
| ConfigEdits.Document.UpsertRule | crates/curfew-core/src/config.rs:245-262 | Stores the rule in the place of the one with its identity, or at the end; an edit that is not sound is rolled back whole. |
| ConfigEdits.Document.RemoveRule | crates/curfew-core/src/config.rs:267-275 | Drops every rule with the key and says how many. |
| ConfigEdits.Document.SetBlockedApps | crates/curfew-core/src/config.rs:286-339 | Replaces what the picker owns by the packages, sorted and once each, each keeping its budget; a blank one stops it where it is, with no rollback. |
| ConfigEdits.Document.UpsertProfile | crates/curfew-core/src/config.rs:374-398 | Names or renames a profile keeping its rules, or rolls back. |
| ConfigEdits.Document.RemoveProfile | crates/curfew-core/src/config.rs:416-434 | Refuses exactly while a schedule names the profile. |
| ConfigEdits.Document.UpsertWeekly | crates/curfew-core/src/config.rs:446-485 | Replaces by id, declines a window it takes for one already there, adds otherwise; unsound edits are rolled back. |
| ConfigEdits.Document.UpsertCalendar | crates/curfew-core/src/config.rs:494-505 | Replaces by id or adds; unsound edits are rolled back. |
| EditFacts.RuleIsTakenExactlyWhen | crates/curfew-core/src/config.rs:245-262 | Into a sound config a rule is taken exactly when it is sound by itself. |
| EditFacts.RuleRemovalKeepsValid | crates/curfew-core/src/config.rs:264-275 | Removing rules needs no validation: a sound config stays sound. |
| EditFacts.PicksAreSound | crates/curfew-core/src/config.rs:323-338 | The picker can fail on a blank package only: whatever it writes into a sound config is sound. |
| EditFacts.ProfileIsTakenExactlyWhen | crates/curfew-core/src/config.rs:374-398 | A profile edit is taken exactly when id and name are not blank. |
| EditFacts.ProfileCanGoExactlyWhen | crates/curfew-core/src/config.rs:416-434 | Without the profile the config is sound exactly when no schedule names it: the refusal is exactly what validation would reject. |
| EditFacts.WindowIsTakenExactlyWhen | crates/curfew-core/src/config.rs:446-485 | A window is taken exactly when it is sound by itself. |
| EditFacts.CalendarIsTakenExactlyWhen | crates/curfew-core/src/config.rs:494-505 | A calendar rule is taken exactly when its id is not blank and its profile exists. |
| EditFacts.WeeklyRemovalKeepsValid | crates/curfew-core/src/config.rs:489-491 | Removing a window leaves nothing by that id, every other one, and a sound config. |
| EditFacts.CalendarRemovalKeepsValid | crates/curfew-core/src/config.rs:511-513 | The same of calendar rules. |
| EditFacts.UpsertReplacesById | crates/curfew-core/src/config.rs:446-505 | A stored window or calendar rule replaces what has its id, and nothing else. |
| EditFacts.ProfileEditFacts | crates/curfew-core/src/config.rs:374-398 | Under the edited id the profile has the new name and its old rules; every other is as it was. |
| EditFacts.ProfileRemovalFacts | crates/curfew-core/src/config.rs:416-434 | The removed profile is gone; every other is as it was. |
| EditFacts.UpsertedRuleIsTheAnswer | crates/curfew-core/src/config.rs:245-254 | The rule written is what the profile answers under its identity; every other answer is as it was. |
| EditFacts.RemovalUndoesUpsert | crates/curfew-core/src/config.rs:245-275 | Removing a target takes back exactly what writing a first rule about it did. |
| EditFacts.UpsertPassesExactlyWhen | crates/curfew-core/src/config.rs:177-262 | The guard lets a rule be written exactly when no action under its identity changes. |
| EditFacts.RemovalPassesExactlyWhen | crates/curfew-core/src/config.rs:177-275 | The guard lets a removal through exactly when it removes nothing. |
| EditFacts.ProfileEditChangesNoDecision | crates/curfew-core/src/config.rs:367-398 | Renaming a profile, or making an empty one, changes no decision. |
| PickerFacts.TidiedFacts | crates/curfew-core/src/config.rs:318-322 | The packages are sorted and deduplicated: none lost, none invented. |
| PickerFacts.PickerShowsWhatWasSaved | crates/curfew-core/src/config.rs:286-363 | What the picker shows after a save is what was saved, and no rule it does not own has changed. |
| PickerFacts.SavedRulesAre | crates/curfew-core/src/config.rs:286-339 | The rules after a save, each of them: those that were no plain block or budget on an app for every platform, as they were, and for every package one that is, with the first such budget it had or a block. |
| PickerFacts.ResavingIsFaithfulExactlyWhen | crates/curfew-core/src/config.rs:286-363 | Saving the picker unchanged keeps every rule exactly when no app had two different picker-owned rules. |
| PickerFacts.ResavingChangesNoDecision | crates/curfew-core/src/config.rs:286-363 | Such a save changes the class of no decision. |
| PickerFacts.SaveKeepsRulesExactlyWhen | crates/curfew-core/src/config.rs:286-339 | There is no rollback: a save, failed or not, keeps every rule exactly when the packages it got to (those sorted before the first blank one, if there is one) are the ticked ones and no app had two different rules. |
| PickerFacts.FailedSaveLetsGo | crates/curfew-core/src/config.rs:311-326 | One such save: a blank package makes it fail, having already let go of an app it was told to block. |
| PickerFacts.TwinsRunAlikeExactlyWhen | crates/curfew-core/src/config.rs:454-473 | Two windows taken for the same run alike exactly when both are off, or both are on under the same conditions; the code compares neither. |
| PickerFacts.DeclinedWindowCanMatter | crates/curfew-core/src/config.rs:460-473 | An enabled window is declined as already present while the one present is off and never runs. |
| Service.Machine.Build | crates/curfew-svc/src/runner.rs:168-278 | Which config a start enforces and which copy it keeps, from the live file, the kept copy and the running sessions. |
| Service.AdoptsExactlyWhen | crates/curfew-svc/src/runner.rs:208-245 | A readable config is adopted and kept exactly when nothing is running, there is no kept copy, or nothing of a running session is lost against it; otherwise the kept copy is enforced and stays. |
| Service.StartsExactlyWhen | crates/curfew-svc/src/runner.rs:208-278 | The service starts exactly when the live file is readable or a session is running; what it falls back on is the kept copy, left as it is, and failing that a config with no profiles. |
| Service.RestartsUphold | crates/curfew-svc/src/runner.rs:208-278 | Across any edits of the live file and any starts, everything enforced and everything kept still has every rule the first kept copy had for the running profiles. |
| Service.ReadRequest | crates/curfew-svc/src/runner.rs:569-597 | However the stream is chopped, returns its prefix through the first newline, capped at 65536 bytes or the end, and consumes exactly those bytes. |
| Service.RequestExactlyWhen | crates/curfew-svc/src/runner.rs:569-597 | What a request is: a prefix of the stream with no newline before its last byte, of at most 65536 bytes, that ends in a newline, at that size, or with the stream. |
| Statistics.ForEachLocalDay | crates/curfew-core/src/stats.rs:189-210 | Visits each local day a span touches inside the window, with the seconds of it on that day. |
| Statistics.MergeSpans | crates/curfew-core/src/stats.rs:110-117 | Merging sorted spans gives disjoint ones that cover the same instants. |
| Statistics.OverlapsMeasureTheCover | crates/curfew-core/src/stats.rs:110-122 | Over disjoint spans the seconds per day add up to the number of instants covered. |
| Statistics.CountSessions | crates/curfew-core/src/stats.rs:76-106 | Each record counts once on every day it touches and once in the total when it touches the window. |
| Statistics.CountSeconds | crates/curfew-core/src/stats.rs:118-122 | The seconds of a day are the instants of it covered by the merged spans. |
| Statistics.Streaks | crates/curfew-core/src/stats.rs:136-153 | The longest streak is the longest run of days with a session; the current one is the whole run that ends today, or yesterday while today is empty, and never exceeds it. |
| Statistics.Summarize | crates/curfew-core/src/stats.rs:67-166 | Every day of the summary has the number of its instants that at least one record covers and the number of records touching it; totals and streaks are of those days. |
| StatisticsMeaning.TotalsCount | crates/curfew-core/src/stats.rs:67-166 | The total is the instants of the whole window at which some session ran, and a day is in a streak exactly when some record began on it or ran in it. |
| StatisticsMeaning.SummaryCounts | crates/curfew-core/src/stats.rs:67-166 | By what the records say: the seconds of a day are the instants of it at which some session ran, open ones until now; the sessions of a day are the records that began on it or ran in it; the total is the records on some day of the window, each once. |
| Recurrence.CollectedExactlyWhen | crates/curfew-ics/src/lib.rs:528-531 | A list part is read exactly when every token of it is. |
| Recurrence.UnreadableTokenRefuses | crates/curfew-ics/src/lib.rs:597-606 | One unreadable token refuses the rule, so nothing is expanded. |
| Recurrence.AddMonths | crates/curfew-ics/src/lib.rs:687-701 | Moves to the same day of the month `months` on, or its last day, keeping the time. |
| Recurrence.Advance | crates/curfew-ics/src/lib.rs:645-681 | One step on: the result is the next candidate of the series, which `RecurrenceMeaning` gives in seconds and months. |
| Recurrence.Expand | crates/curfew-ics/src/lib.rs:575-639 | For a text that reads as no rule, nothing; for one that does, the loop returns the kept ones of the first candidates, none past the horizon, stopped for one of its four reasons. |
| Recurrence.MonthsLaterNeverDrifts | crates/curfew-ics/src/lib.rs:645-701 | The k-th monthly candidate is the start moved k intervals, on the smaller of its day and the month length: no drift. |
| Recurrence.CandidatesAscend | crates/curfew-ics/src/lib.rs:645-681 | Candidates are strictly increasing. |
| Recurrence.ExpansionIsTheGrid | crates/curfew-ics/src/lib.rs:575-639 | With neither cap reached the expansion is strictly increasing and is exactly the stepped grid filtered by the BY parts and cut by COUNT and the horizon. |
| Recurrence.ExpandReturnsTheGrid | crates/curfew-ics/src/lib.rs:575-639 | So, unless one of the two caps stopped it, what expansion returns for any text is strictly increasing and holds exactly the occurrences of the rule the text reads as, and nothing when it reads as none. |
| RecurrenceMeaning.CandidatesAreTheSteps | crates/curfew-ics/src/lib.rs:645-701 | The series of each frequency in literal units: seconds, minutes, hours, days and weeks counted from the start; months and years at its time and its day, or the last day of a shorter month; a weekly rule with BYDAY by days. |
| RecurrenceMeaning.OccursExactlyWhen | crates/curfew-ics/src/lib.rs:575-639 | The occurrences of a rule from its words alone: steps of its series up to the horizon that every BY part names, and with a COUNT only while fewer have happened before. |
| RecurrenceMeaning.WeeklyOnWeekdays | crates/curfew-ics/src/lib.rs:645-681 | A weekly rule that names weekdays happens at the time of its start on exactly those, from the start on. |
| RecurrenceMeaning.ExpandFollowsTheRule | crates/curfew-ics/src/lib.rs:575-639 | So, unless a cap stopped it, what expansion returns for any text is what the rule the text reads as asks for. |
| RecurrenceText.ReadUndoesWritten | crates/curfew-ics/src/lib.rs:528-606 | Reading a written rule gives it back: any frequency, interval, count, weekdays, signed days of the month and months within their widths. |
| RecurrenceText.BareRuleIsRead | crates/curfew-ics/src/lib.rs:575-606 | What a rule does not say it does not ask for: every step, no count, every weekday, day and month. |
| RecurrenceText.UnreadableNumbersAreLeftOut | crates/curfew-ics/src/lib.rs:582-583 | An interval or count that is no number is as good as none, and so is a negative count. |
| RecurrenceText.WeekdayIsReadExactlyWhen | crates/curfew-ics/src/lib.rs:597-606 | A weekday is one of the seven codes and nothing else; a numbered one is not read. |
| RecurrenceText.NumberIsReadOnlyWhen | crates/curfew-ics/src/lib.rs:537-539 | A number is read only from a sign, if any, and digits, and only within its width. |
| RecurrenceText.CaseNeverMatters | crates/curfew-ics/src/lib.rs:575-580 | Rules that differ in the case of letters alone are read alike. |
| RecurrenceText.UnhonouredPartRefuses | crates/curfew-ics/src/lib.rs:586-596 | Each of the six parts that cannot be expanded exactly refuses the rule. |
| CalendarText.Unescape | crates/curfew-ics/src/lib.rs:429-444 | The character loop computes the unescaping it is meant to be. |
| CalendarText.UnescapeUndoesEscape | crates/curfew-ics/src/lib.rs:429-444 | Unescaping undoes the text escaping of section 3.3.11 of RFC 5545 on every string. |
| CalendarText.Unfolded | crates/curfew-ics/src/lib.rs:386-399 | The line loop joins a line that starts with a space or tab to the one before it. |
| CalendarText.UnfoldUndoesFold | crates/curfew-ics/src/lib.rs:386-399 | Unfolding undoes any folding of section 3.1 of RFC 5545, at any positions, with CRLF or bare newlines, of lines with no line ending inside that do not start with a space or tab. |
| Device.Curfew.SetConfig | crates/curfew-ffi/src/lib.rs:256-262 | Takes a config exactly when it parses, is sound and takes no rule from a running session. |
| Device.Curfew.UpsertRule | crates/curfew-ffi/src/lib.rs:287-297 | Edits a copy and stores it only when sound and past the guard. |
| Device.Curfew.RemoveRule | crates/curfew-ffi/src/lib.rs:301-313 | Removes on a copy; asks the guard unless nothing was removed. |
| Device.Curfew.RemoveProfile | crates/curfew-ffi/src/lib.rs:344-353 | Removes on a copy, past the schedules and the guard. |
| Device.Curfew.RemoveWeekly | crates/curfew-ffi/src/lib.rs:395-399 | Refuses exactly while a running session came from that schedule. |
| Device.Curfew.RemoveCalendar | crates/curfew-ffi/src/lib.rs:411-415 | The same for calendar rules. |
| Device.Curfew.RefuseWeakening | crates/curfew-ffi/src/lib.rs:164-182 | Refuses exactly when the guard has something to say. |
| Device.Curfew.FinishSession | crates/curfew-ffi/src/lib.rs:201-216 | A success forgets the proofs of the session; a refusal changes nothing. |
| Device.Curfew.EndSession | crates/curfew-ffi/src/lib.rs:485-497 | Ends on the claimable part of what the caller says plus what the device can prove. |
| Device.Curfew.ScanToken | crates/curfew-ffi/src/lib.rs:516-534 | Records an identified tag and tries to end on proven evidence alone. |
| Device.Curfew.ReleasePeer | crates/curfew-ffi/src/lib.rs:541-547 | Records the release, and once the device knows its id tries to end on proven evidence. |
| Device.Curfew.ObserveBoot | crates/curfew-ffi/src/lib.rs:603-607 | Numbers the boot, then notes the running sessions under it. |
| Device.Curfew.SpendPass | crates/curfew-ffi/src/lib.rs:650-667 | Takes the pass first, so it is spent even when the session is gone. |
| Device.Curfew.RestorePasses | crates/curfew-ffi/src/lib.rs:695-700 | Merges the stored ration rather than replacing it. |
| Device.Curfew.ReconcileWith | crates/curfew-ffi/src/lib.rs:713-732 | Reconciles with what the config says is active now. |
| Device.Curfew.RestoreSessions | crates/curfew-ffi/src/lib.rs:775-780 | Restores through the operation that cannot weaken. |
| DeviceFacts.SetConfigFacts | crates/curfew-ffi/src/lib.rs:256-262 | A config that is handed over becomes the config exactly when it is sound and keeps every rule of what runs; otherwise, and in all else, nothing changes. |
| DeviceFacts.UpsertRuleFacts | crates/curfew-ffi/src/lib.rs:287-297 | A rule is written exactly when its profile is there, it can be used, and no rule of what runs changes by it. |
| DeviceFacts.RemoveRuleFacts | crates/curfew-ffi/src/lib.rs:301-313 | Rules are removed exactly when none of what runs is lost. |
| DeviceFacts.UpsertProfileFacts | crates/curfew-ffi/src/lib.rs:327-338 | A profile is named or renamed exactly when id and name are not blank. |
| DeviceFacts.RemoveProfileFacts | crates/curfew-ffi/src/lib.rs:344-353 | A profile goes exactly when no schedule names it and no rule of what runs goes with it. |
| DeviceFacts.UpsertWeeklyFacts | crates/curfew-ffi/src/lib.rs:385-391 | A window is stored exactly when it is not declined as already present and can be used: a name, a profile that is there, two minutes of a day, weekdays. |
| DeviceFacts.UpsertCalendarFacts | crates/curfew-ffi/src/lib.rs:402-408 | A calendar rule is stored exactly when it has a name and a profile that is there. |
| DeviceFacts.DeclinedExactlyWhen | crates/curfew-core/src/config.rs:460-473 | A window is declined exactly when none has its id and one is the same in all but id, locks and whether it is on. |
| DeviceFacts.StartFacts | crates/curfew-ffi/src/lib.rs:473-480 | A start runs its profile under every condition it brings and touches no other profile and no ending. |
| DeviceFacts.AskReleaseFacts | crates/curfew-ffi/src/lib.rs:703-708 | A request for release lands on the session it names, a day on at the latest, and changes nothing else. |
| DeviceFacts.SpendPassFacts | crates/curfew-ffi/src/lib.rs:650-667 | A pass is taken exactly when one is granted, and is noted whatever becomes of the session it was for. |
| DeviceFacts.RestorePassesFacts | crates/curfew-ffi/src/lib.rs:695-700 | Restoring passes adds the stored uses to those here. |
| DeviceFacts.RestoreSessionsFacts | crates/curfew-ffi/src/lib.rs:775-780 | Restoring sessions runs what ran and what was stored, but for what an ending held here falls inside. |
| DeviceFacts.WeeklyRemovalFacts | crates/curfew-ffi/src/lib.rs:395-399 | The window of a running session stays; any other goes and takes nothing with it. |
| DeviceFacts.CalendarRemovalFacts | crates/curfew-ffi/src/lib.rs:411-415 | The same of calendar rules. |
| DeviceFacts.ReconcileFacts | crates/curfew-ffi/src/lib.rs:713-732 | After reconciling, a profile runs exactly when it ran, or a window active by the clock or an event a calendar rule fits asks for it and the ask is due. |
| DeviceRuns.CallIsASessionEvent | crates/curfew-ffi/src/lib.rs:200-780 | Every call moves the sessions only through one of the store operations. |
| DeviceRuns.ClaimsCountOnlyWhenClaimable | crates/curfew-ffi/src/lib.rs:96-98 | Two sets of claims that agree on confirmation and challenge end, or refuse to end, a session alike; a claimed timer, credential or restart is worth nothing. |
| DeviceRuns.ProvenExactlyWhen | crates/curfew-ffi/src/lib.rs:190-198 | What the device can prove, kind by kind and both ways: a sighting under another boot, a release on record, a check under 120 seconds old; never a timer, a confirmation or a challenge. |
| DeviceRuns.RestartIsProvenExactlyWhen | crates/curfew-ffi/src/lib.rs:190-198 | Over runs with no restore of the boot record, a restart is proven exactly when an uptime reading fell since the unbroken sighting of the session. |
| DeviceRuns.SessionEndsOnlyWhen | crates/curfew-ffi/src/lib.rs:485-547 | Over every run of the object: a session goes only by a pass, by its lock being over, by a request made a day before, or with every condition of the lock it once had met in the one way that condition can be met: claimed in that call, checked within 120 seconds, released by that device, restarted. A reap of a lock with no conditions at all is the one removal that needs none. |
| DeviceRuns.TimerHoldsUntilItsTime | crates/curfew-ffi/src/lib.rs:93-98 | So a session whose lock holds a timer goes only by a pass, when it is over, or a day after a request. |
| DeviceEvidence.EndsExactlyWhen | crates/curfew-ffi/src/lib.rs:485-547 | Over every run with no boot record restored, a call that asks to end a session ends it exactly when the session is over, its release has landed, or every condition of its lock counts: claimed now; checked under 120 seconds ago and neither replaced nor used up since; released by that device and on every list since; restarted. |
| DeviceEvidence.RecordedExactlyWhen | crates/curfew-ffi/src/lib.rs:500-534 | The record holds exactly the last check of each condition that no ending of its session has used up. |
| DeviceEvidence.ReleasedExactlyWhen | crates/curfew-ffi/src/lib.rs:541-600 | A release is on record exactly when it was given or listed and no list observed since leaves it out. |
| DeviceEvidence.PassEndsTheSession | crates/curfew-ffi/src/lib.rs:650-667 | A pass that is granted ends the session it names, whatever its lock. |
| DeviceEvidence.ReapTakesExactlyTheOver | crates/curfew-ffi/src/lib.rs:735-738 | A reap takes exactly the sessions whose end or whose release has come. |
| DeviceEndings.EndedOccurrenceStaysEnded | crates/curfew-ffi/src/lib.rs:485-732 | Over every run of the object on a clock that never goes back, with no sessions restored: once a call ended the session an occurrence fed, that occurrence is over or dismissed at every later call, and no later reconcile runs the profile on its account. |
| DeviceEndings.EndedSessionIsNotRestored | crates/curfew-ffi/src/lib.rs:485-780 | Over every run of the object, restores included: once a call ended a session its profile stays down until a start, a schedule or a stored session other than a copy of it asks for it. |
| DeviceRules.ConfigStaysValid | crates/curfew-ffi/src/lib.rs:278-280 | No sequence of calls leaves a config that loading would refuse. |
| DeviceRules.RulesStayWhileRunning | crates/curfew-ffi/src/lib.rs:164-353 | Through any calls, a profile that keeps running keeps every rule it had: same key, platforms and action. |
| DeviceRules.DecisionsNeverLoosen | crates/curfew-ffi/src/lib.rs:164-353 | Through any run of calls whose edits keep the screens of what runs, add no allow-only rule to it, and keep the zone or leave it nothing that meters by a daily, weekly or monthly refill, no decision of the profiles that keep running gets weaker. |
| DeviceRules.PassesAreRationed | crates/curfew-ffi/src/lib.rs:650-700 | While the policy stands, any stretch as long as its window holds at most its number of granted passes, whatever ledgers are restored between. |

## Left out

- Timestamps, uptimes and second counts are unbounded integers: no 64-bit wrap-around, and `saturating_sub` at the smallest 64-bit value is not distinguished. The 32-bit saturations that decide something (budget sums, pass and session counts) are modelled.
- Zones are fixed offsets with days of 86400 seconds: no daylight-saving transitions and no IANA tables. Years are not limited to the range the date library supports.
- UrlText.Parse: the trimmed text kept beside the parts (`raw`) takes no part in matching and is not modelled.
- Text is ASCII: no Unicode case folding, so the folded variant of the glob loop is not modelled, and no lossy decoding of request bytes.
- Parsing and writing TOML and JSON, and migration of old documents: a document is a given `Config`, or it does not parse. The size cap on restore payloads goes with it.
- `validate`: the zone name, tags and calendar subscriptions are not part of `Config` here, nor are the resolver settings. The three refusals about a window's minutes and days are one problem, and so are the zero budget and the zero launch limit.
- Wording: losses are values rather than sentences, and a set rather than a sorted list without repetitions.
- Token fingerprints: a scan is given the tag it was identified as, if it was.
- `offers`, `active_profiles`, CSV output, the schema of stored files, wording functions, frozen settings, capacity: they would only add easy members.
- The lock of a session is a value inside the session; the source updates it in place through the list.
- Engine.DecideObservation: the seven accumulators of the loop are one record.
- Service.Machine.Build: starting what follows the choice of config (enforcer, hosts file, warnings) is not modelled. A kept copy is either written whole or left as it was.
- Service.ReadRequest: a read error ends the original with that error; the reader here does not fail.
- Recurrence.Expand: the instant an UNTIL part names is a parameter. Components, exceptions and moved occurrences of a calendar file are not modelled, nor is `split_property`.
- Device.Curfew.SetConfig: stands for `set_config` and `commit_config`, which differ in the size cap and the error they return.
- The object of `Device`: the trusted clock is modelled by itself; the times in calls are arbitrary. The read-write locks around the fields are not modelled: each call is one step.
- The sync pass (crates/curfew-ffi/src/sync.rs:276-328) merges the sessions of peers into the store and replaces the ration of passes. It is not a call of the modelled object, so "every run of the object" means every run in which it is not made; the releases and the device id it also writes are `ObserveReleases`.
- Device.Curfew.UpsertWeekly: returns the outcome the original discards.
- DeviceEvidence.EndsExactlyWhen: runs in which a boot record is restored are left out, because whether a restart then counts depends on what is restored.
- DeviceRuns.SessionEndsOnlyWhen: restored boot records are trusted by the original, so a restart condition may also have been met by one.
- The op-log that peers release through, pairing, keys and signatures, the Windows service around the config choice, the tray, the pipes, the resolver and the browser extension.
