# Verified models of the repository's stateful and algorithmic core

This project models, in Dafny 4.11, the parts of the repository that hold real state machines, protocols and
algorithms, and proves what they promise for every input, every run or every interleaving:

- the device-pairing notifier: a stored file driven by periodic ticks and by on/off/once commands
  (`NotifyStore.dfy`, `Notifier.dfy`, `NotifierSafety.dfy`, `NotifierKeys.dfy`);
- two single-flight caches: the Azure token cache with its in-flight table (`FoundryRuntime.dfy`) and the memoised
  LanceDB loader with its fallback chain (`LanceDbLoader.dfy`);
- release numbering: UTC calendar arithmetic (`Calendar.dfy`), version strings, tags and the release window
  (`ReleaseVersion.dfy`), Sparkle build floors and the appcast check (`SparkleBuild.dfy`);
- worklists: the relative import closure (`ImportGraph.dfy`), the common ancestor loop (`CommonAncestor.dfy`) and the
  explicit-stack directory walk (`FileWalk.dfy`);
- text and sequence algorithms: UTF-16-safe slicing (`Utf16.dfy`), the setup code (`SetupCode.dfy`), marker blocks
  (`MarkerBlock.dfy`) and the bounded output buffer (`ChunkBuffer.dfy`).

`Text.dfy` holds the shared string vocabulary: trimming, decimal numerals, substring search.

How the model is built:

- Code that mutates state is a class or a method with loops, proved equal to a specification function; the theorems are
  lemmas about that function. Pure code is functions.
- Sends, network answers, git's answer, clocks, the pending list and file listings are parameters. The outcomes of a
  tick's sends are one function from the send's position in the tick to success or failure.
- The notifier's file holds the last state written. Every step reads it through the JSON form and the normalizer, so
  what a command writes and what the next step sees can differ, as in the source.
- The two caches are transition systems whose events are JavaScript turns. An event that is not enabled leaves the state
  alone, so a run is any sequence of events.
- Numbers are unbounded integers, and rationals where the source truncates them.

Where a promise holds only under a condition, the exact condition is proved:

- `DistinctnessNeedsStableKeys`: commands keep subscriber keys distinct exactly for targets whose key survives storing,
  that is, whose text fields are trimmed (`KeyStableExactlyWhenTrimmed`). An account id with surrounding spaces is not
  (`PaddedAccountIsUnstable`), because the command path does not trim it and the reader does;
  `UnstableKeyCollidesInRun` gives the run that ends with two entries for one key.
- `RemovalNeedsStableKeys`: stable keys are needed for ticks too. They remove exactly the one-shots they served exactly
  when no one-shot shares its key (`TicksRemoveExactlyServedExactlyWhen`); in the run of `PersistentIsLost`, for any
  target with an unstable key, a tick drops a persistent subscriber.
- `OffUnsubscribesExactlyWhenStable`: off does what it says exactly for targets with a stable key; for any other,
  `OffAfterOnIsLostExactlyWhen` shows an off without effect.
- `KeyNamesOneTargetExactlyWhenBarFree`: a subscriber key names one target exactly when no field contains "|"; with a
  shared key the second chat's on is lost (`SecondCommandIsLostExactlyWhen`).
- `RepeatsExactlyWhen`: a delivered request is sent again at the next tick exactly for a blank id, a clock that is not
  positive, or after 24 hours.
- `KeyUnambiguousExactlyWhenColonFree`: a token cache key belongs to one pair of ids exactly when neither has a colon.
- `ResetIsSafeExactlyWhenIdle`: clearing the token caches keeps refreshes single-flight exactly while none is in flight.
- `StartOfUtcDayExact`: the start of the UTC day is right exactly outside the years 0 to 99, which `Date.UTC` shifts.
- `CommonAncestorExactly`: the common ancestor loop is right exactly when the answer is the first path or another path
  names a different child of the answer; otherwise it stops one level too low, as on the input of
  `StopsOneLevelTooLow`.
- `BuildsIncreaseExactlyFromYear1000`: a passing appcast feed orders builds across its cutover exactly when the later
  version's year is at least 1000.
- `IdempotentExactly`: replacing a marker block is idempotent exactly when the end marker occurs neither in the start
  marker nor in an indented line.

## Model

| member | source | states |
|---|---|---|
| NotifyStore.NormalizeNotifyState | extensions/device-pair/notify.ts:81-135 | the loops over raw subscribers and notified entries compute the normalized state of any parsed JSON value |
| NotifyStore.NormalizeReads | extensions/device-pair/notify.ts:81-135 | from any parsed value the reader takes the subscribers of its list, if it has one, and the records, by name or by array index, that have a positive number under an id that is not blank, fractions dropped |
| NotifyStore.NormalizeSubscriberReads | extensions/device-pair/notify.ts:89-121 | an element of the list is read as a given subscriber if and only if its fields say so: a target text, optional account and thread, an arming time or else the time of reading, and once mode only for that very word |
| NotifyStore.ReadOfWritten | extensions/device-pair/notify.ts:137-150 | reading back a written state gives each entry with trimmed fields, without blank ids and times that are not positive, whatever the clock says |
| NotifyStore.WrittenStateReadsBack | extensions/device-pair/notify.ts:81-135 | normalization is the identity on a written state if and only if the state is clean |
| NotifyStore.NormalizedSubscribersAreClean | extensions/device-pair/notify.ts:89-121 | every subscriber read from any file has a trimmed non-blank target, account id and text thread id |
| NotifyStore.UpsertNotifySubscriber | extensions/device-pair/notify.ts:184-206 | the push, keep and overwrite branches are the upsert function, with the changed flag |
| NotifyStore.UpsertSubscribes | extensions/device-pair/notify.ts:184-206 | in any list an upsert changes nothing if the key's first entry has the mode, else the new entry replaces that first one or goes to the end; other keys are as before, and distinct keys stay distinct |
| NotifyStore.RemoveKeyUnsubscribes | extensions/device-pair/notify.ts:416-424 | in any list removal takes out the key's first entry and nothing else; it leaves the key unsubscribed if and only if the key had one entry at most |
| NotifyStore.KeyNamesOneTargetExactlyWhenBarFree | extensions/device-pair/notify.ts:152-158 | a subscriber key names one target if and only if none of the target's fields contains the separator |
| Notifier.PruneNotified | extensions/device-pair/notify.ts:292-297 | the deleting loop keeps exactly the pending ids that are at most 24 hours old and says whether it deleted any |
| Notifier.NotifyAll | extensions/device-pair/notify.ts:306-321 | the inner loop's sends and one-shot keys are those of the delivery function |
| Notifier.FilterDelivered | extensions/device-pair/notify.ts:328-332 | the filter drops exactly the entries with a delivered key, in order |
| Notifier.TickState | extensions/device-pair/notify.ts:285-342 | pruning, both delivery loops, one-shot removal and the changed flag are the tick function |
| Notifier.PairNotifier.ReadNotifyState | extensions/device-pair/notify.ts:137-144 | reading the stored file gives the reloaded state |
| Notifier.PairNotifier.NotifyPendingPairingRequests | extensions/device-pair/notify.ts:281-342 | a tick writes the tick's state if anything changed and leaves the file alone otherwise, and its sends are the tick's log |
| Notifier.PairNotifier.ArmPairNotifyOnce | extensions/device-pair/notify.ts:344-376 | arming is the once command on the file, and reports whether a target was found |
| Notifier.PairNotifier.HandleNotifyCommand | extensions/device-pair/notify.ts:378-456 | the on, off, once and other branches are the command step on the file |
| NotifierSafety.DeliverFacts | extensions/device-pair/notify.ts:306-321 | one request is offered to exactly the persistent subscribers and the one-shots armed no later than its timestamp, once each and in order, the k-th send taking the k-th outcome |
| NotifierSafety.SweepSends | extensions/device-pair/notify.ts:299-327 | every send of a tick goes to an eligible subscriber for a pending request that was not recorded |
| NotifierSafety.SweepRecords | extensions/device-pair/notify.ts:301-327 | an id's record changes exactly when a send for it succeeded, to the tick's time, and a recorded id is never tried |
| NotifierSafety.SweepIsComplete | extensions/device-pair/notify.ts:299-327 | with distinct ids every unrecorded pending request reaches exactly the persistent subscribers and the one-shots armed no later than its timestamp, every recorded one nobody |
| NotifierSafety.TickTellsExactly | extensions/device-pair/notify.ts:229-327 | with distinct ids a tick attempts to tell a stored subscriber of a request if and only if the file has no record of it of at most 24 hours and the subscriber is persistent or the timestamp is a positive number of at least the arming time |
| NotifierSafety.TickRecords | extensions/device-pair/notify.ts:289-327 | after a tick an id is recorded if and only if a send succeeded or its record was kept; the recorded ids are pending |
| NotifierSafety.TickRemovesDeliveredOneShots | extensions/device-pair/notify.ts:300-336 | a tick removes exactly the one-shots that received a send, and no persistent subscriber, if and only if whoever shares a key with one of them is one of them; distinct keys suffice and are kept |
| NotifierSafety.TicksRemoveExactlyServedExactlyWhen | extensions/device-pair/notify.ts:300-336 | every possible tick on a store removes exactly the one-shots it served if and only if no one-shot in the store shares its key with another entry |
| NotifierSafety.TickReloads | extensions/device-pair/notify.ts:339-341 | what the next reader sees after a tick, written or not, is the tick's state up to blank ids and non-positive times |
| NotifierSafety.CommandReloads | extensions/device-pair/notify.ts:378-437 | commands leave the records alone, and every later subscriber was there before or is the command's entry |
| NotifierSafety.AtMostOnce | extensions/device-pair/notify.ts:281-342 | over any run, after a successful send for a request with a non-blank id at a positive clock, no tick attempts another while it stays pending and 24 hours have not passed |
| NotifierSafety.RepeatsExactlyWhen | extensions/device-pair/notify.ts:126-131 | with a persistent subscriber left, the next tick repeats a delivery if and only if the id is blank, the clock was not positive, or 24 hours passed |
| NotifierSafety.OneShotServedOncePerArming | extensions/device-pair/notify.ts:318-336 | between a tick that sent to a one-shot and any later tick that tries to, the subscriber was armed again |
| NotifierSafety.OneShotsWereArmed | extensions/device-pair/notify.ts:184-206 | every stored one-shot has an arming in force: a step that put it there at its recorded time, since when it has been stored at every step and no tick has sent to it |
| NotifierSafety.OneShotToldOnlyOfNewerRequests | extensions/device-pair/notify.ts:229-250 | from the empty store a one-shot is only told about requests with a positive integer timestamp not before the time of the arming in force |
| NotifierKeys.KeysStayDistinct | extensions/device-pair/notify.ts:152-206 | subscriber keys stay pairwise distinct in every run whose command targets have stable keys |
| NotifierKeys.DistinctnessNeedsStableKeys | extensions/device-pair/notify.ts:166-206 | an upsert always keeps keys distinct for the next reader if and only if the target's key survives storing |
| NotifierKeys.KeyStableExactlyWhenTrimmed | extensions/device-pair/notify.ts:89-121 | a target's key survives storing if and only if its text fields have no surrounding white space |
| NotifierKeys.UnstableKeyCollidesInRun | extensions/device-pair/notify.ts:166-206 | arming twice from the empty store, for any target whose key does not survive storing, leaves two entries with one key |
| NotifierKeys.PaddedAccountIsUnstable | extensions/device-pair/notify.ts:166-182 | sender "1" with account id " a" resolves to such a target |
| NotifierKeys.CommandTargetExactly | extensions/device-pair/notify.ts:166-182 | a command acts only on Telegram, on the first of sender, from and to that is not blank, trimmed, with account and thread as given |
| NotifierKeys.ActionWords | extensions/device-pair/notify.ts:405-455 | on and enable, off and disable, once and arm are the three actions, and every other word leaves the file as it is |
| NotifierKeys.RunRemovesDeliveredOneShots | extensions/device-pair/notify.ts:328-336 | the last tick of a run removed exactly the served one-shots if and only if whoever shared a key with one of them was one of them, as is so when all commands had stable keys |
| NotifierKeys.PersistentIsLost | extensions/device-pair/notify.ts:328-336 | for every target with an unstable key, on, then once, then a tick with a new request leaves no subscriber at all: the tick drops the persistent one |
| NotifierKeys.RemovalNeedsStableKeys | extensions/device-pair/notify.ts:300-336 | the ticks of all runs with one chat remove exactly the served one-shots if and only if the chat's target has a stable key |
| NotifierKeys.CommandTakesEffect | extensions/device-pair/notify.ts:405-437 | in any store and for any target: on and once leave the stored target subscribed in their mode unless only its raw key already was; off leaves it unsubscribed if and only if it had at most one entry, or none for an unstable key; no key but its raw and stored one is touched |
| NotifierKeys.StableCommandTakesEffect | extensions/device-pair/notify.ts:405-437 | for a target with a stable key on and once leave it subscribed in their mode, and off leaves it unsubscribed if the store's keys are distinct |
| NotifierKeys.OffUnsubscribesExactlyWhenStable | extensions/device-pair/notify.ts:416-424 | off leaves the chat unsubscribed in every store with distinct keys if and only if its target's key is stable |
| NotifierKeys.OffAfterOnIsLostExactlyWhen | extensions/device-pair/notify.ts:405-424 | from the empty store, off right after on changes nothing if and only if the target's key is unstable |
| NotifierKeys.SecondCommandIsLostExactlyWhen | extensions/device-pair/notify.ts:405-424 | after a first chat's on, another chat's on changes nothing if and only if its key is the stored one, and its off if and only if it is not |
| NotifierSafety.RunsWriteCleanFiles | extensions/device-pair/notify.ts:81-150 | runs with positive clocks, non-blank ids and command targets stored as they are write only files that read back exactly |
| FoundryRuntime.KeyUnambiguousExactlyWhenColonFree | extensions/microsoft-foundry/shared-runtime.ts:10-15 | a cache key belongs to one pair of ids if and only if neither contains a colon |
| FoundryRuntime.Runtime.PrepareFoundryRuntimeAuth | extensions/microsoft-foundry/runtime.ts:70-92 | the turn from cache lookup to first await is the call event |
| FoundryRuntime.Runtime.RefreshEntraTokenResumes | extensions/microsoft-foundry/runtime.ts:26-33 | publishing the token is the success event |
| FoundryRuntime.Runtime.RefreshEntraTokenThrows | extensions/microsoft-foundry/runtime.ts:26-33 | a rejected token request is the failure event and touches no map |
| FoundryRuntime.Runtime.FinallyCallback | extensions/microsoft-foundry/runtime.ts:87-89 | deleting the key's entry is the cleanup event |
| FoundryRuntime.Runtime.ResetFoundryRuntimeAuthCaches | extensions/microsoft-foundry/runtime.ts:17-20 | clearing both maps is the reset event |
| FoundryRuntime.NextKeepsInv | extensions/microsoft-foundry/runtime.ts:74-92 | every turn keeps the invariant that ties in-flight entries, unsettled refreshes, cached tokens and callers together |
| FoundryRuntime.SingleFlightAlways | extensions/microsoft-foundry/runtime.ts:74-92 | in every interleaving at most one refresh per key is unsettled, and the in-flight table holds exactly the unsettled refreshes |
| FoundryRuntime.AnswersComeFromOwnIds | extensions/microsoft-foundry/runtime.ts:29-32 | with colon-free ids each answer came from a refresh for the caller's ids, and a cached token had more than five minutes left |
| FoundryRuntime.AnswersComeFromAz | extensions/microsoft-foundry/runtime.ts:22-33 | every token handed to a caller, from the cache or after waiting, is one that az answered earlier for the caller's key, with az's own expiry or 55 minutes when it gave none |
| FoundryRuntime.CachedIsLastArrival | extensions/microsoft-foundry/runtime.ts:17-33 | in every run the cached token of a key is the last one that arrived for it, unless a reset came after |
| FoundryRuntime.CallIsAnsweredFromCacheExactlyWhen | extensions/microsoft-foundry/runtime.ts:74-81 | at any point of any run a call is answered from the cache if and only if the last token that arrived for its key has more than five minutes left, and waits otherwise |
| FoundryRuntime.CachedAnswersAreFresh | extensions/microsoft-foundry/runtime.ts:74-81 | in every interleaving, whatever the ids and resets, a token answered from the cache had more than five minutes left |
| FoundryRuntime.WaiterGetsJoinedOutcome | extensions/microsoft-foundry/runtime.ts:82-96 | a caller that joined a refresh ends with that refresh's token or error, whatever happens in between |
| FoundryRuntime.AzAnswerReachesWaiter | extensions/microsoft-foundry/runtime.ts:26-96 | from any point of any interleaving az's answer to a running refresh, the cleanup and the resumption give a waiting caller exactly that token, which is then cached, or that error |
| FoundryRuntime.WaiterIsAnswered | extensions/microsoft-foundry/runtime.ts:87-96 | a waiting caller whose refresh has an answer holds it after the cleanup and its resumption |
| FoundryRuntime.NoCallerIsStranded | extensions/microsoft-foundry/runtime.ts:82-96 | when az and the callbacks are done the in-flight table is empty and every waiting caller can resume |
| FoundryRuntime.RefreshStartsExactlyWhenKeyIsIdle | extensions/microsoft-foundry/runtime.ts:74-92 | at any point of any interleaving a call without a fresh token starts a refresh if and only if every earlier refresh of its key is settled, and joins the unsettled one otherwise |
| FoundryRuntime.FailureFreesKey | extensions/microsoft-foundry/runtime.ts:82-91 | a failure leaves the token cache unchanged, and at every later point the failed refresh has its cleanup to run or no longer holds its key |
| FoundryRuntime.FailureAllowsRetry | extensions/microsoft-foundry/runtime.ts:82-91 | at any later point at which a failed refresh is settled, a call for its key without a fresh token starts a refresh or joins one started after it, never the failed one |
| FoundryRuntime.CachedTokenStays | extensions/microsoft-foundry/runtime.ts:17-33 | between two points of a run the cached token of a key is unchanged unless a token arrived for that key or the maps were cleared |
| FoundryRuntime.ResetIsSafeExactlyWhenIdle | extensions/microsoft-foundry/runtime.ts:17-20 | a reset followed by a call keeps single flight if and only if no refresh is in flight |
| LanceDbLoader.Loader.Load | extensions/memory-lancedb/lancedb-runtime.ts:200-258 | load starts an attempt only when none is remembered and waits for the remembered one |
| LanceDbLoader.Loader.BundledImportRejects | extensions/memory-lancedb/lancedb-runtime.ts:205-239 | the turn after a rejected bundled import looks up a cached runtime, gives up in Nix mode, or installs |
| LanceDbLoader.Loader.CachedImportRejects | extensions/memory-lancedb/lancedb-runtime.ts:216-239 | a rejected cached import falls through to the Nix test and the installer |
| LanceDbLoader.Loader.ImportResolves | extensions/memory-lancedb/lancedb-runtime.ts:203-251 | a resolved import ends the attempt with its module |
| LanceDbLoader.Loader.InstallResolves | extensions/memory-lancedb/lancedb-runtime.ts:234-241 | a finished install imports the entry it returned |
| LanceDbLoader.Loader.InstallRejects | extensions/memory-lancedb/lancedb-runtime.ts:234-239 | a rejected install ends the attempt with the installer's error |
| LanceDbLoader.Loader.InstalledImportRejects | extensions/memory-lancedb/lancedb-runtime.ts:240-250 | a rejected import after an install ends the attempt with its own error |
| LanceDbLoader.Loader.ForgetFailedAttempt | extensions/memory-lancedb/lancedb-runtime.ts:252-255 | the catch handler clears the remembered attempt |
| LanceDbLoader.OneAttemptAtATime | extensions/memory-lancedb/lancedb-runtime.ts:197-257 | in every interleaving at most one attempt is unfinished, and it is the remembered one |
| LanceDbLoader.ResetForgetsOnlyTheFailedAttempt | extensions/memory-lancedb/lancedb-runtime.ts:252-255 | the unconditional reset never discards a newer attempt, and the next load starts afresh |
| LanceDbLoader.SuccessIsFinal | extensions/memory-lancedb/lancedb-runtime.ts:200-258 | after a success no interleaving imports or installs again and every later load gets that module |
| LanceDbLoader.CallerGetsJoinedAttempt | extensions/memory-lancedb/lancedb-runtime.ts:252-257 | every caller ends with the module or error of the attempt remembered when it called |
| LanceDbLoader.OutcomeIsExpected | extensions/memory-lancedb/lancedb-runtime.ts:202-251 | in every interleaving a finished attempt came out as the try and catch blocks read from top to bottom: bundled, else cached, else outside Nix mode installed, with the module or error of the import, lookup or install that decided it |
| LanceDbLoader.AttemptFinishes | extensions/memory-lancedb/lancedb-runtime.ts:202-255 | at any point of any run an attempt is at most five answers of the world away from that outcome |
| LanceDbLoader.GotComesFromImport | extensions/memory-lancedb/lancedb-runtime.ts:203-251 | every module handed to a caller is the one that an import of its attempt resolved to |
| LanceDbLoader.ThrewComesFromRejection | extensions/memory-lancedb/lancedb-runtime.ts:206-250 | every error handed to a caller is that of a rejection of its attempt, with its own text |
| LanceDbLoader.WaiterIsAnswered | extensions/memory-lancedb/lancedb-runtime.ts:257 | a waiting caller whose attempt is finished gets its module or its error |
| LanceDbLoader.NoCallerIsStranded | extensions/memory-lancedb/lancedb-runtime.ts:252-258 | when no attempt has anything left to run, every waiting caller can resume, and what load remembers has loaded |
| LanceDbLoader.InstallExactlyAsLastResort | extensions/memory-lancedb/lancedb-runtime.ts:203-239 | an install starts if and only if the bundled import was rejected, no cached runtime could be imported, and Nix mode is off |
| LanceDbLoader.EffectsExactly | extensions/memory-lancedb/lancedb-runtime.ts:203-241 | a step starts the bundled import if and only if a call finds every earlier attempt failed, and imports exactly the entry that the lookup found or the installer returned |
| Calendar.DayRoundTrip | scripts/openclaw-npm-release-check.ts:163-165 | every day number is the number of its own civil date, which exists in the Gregorian calendar |
| Calendar.CivilRoundTrip | scripts/openclaw-npm-release-check.ts:88-95 | a civil date survives the trip through its day number if and only if it exists |
| Calendar.DayOrder | scripts/openclaw-npm-release-check.ts:163-169 | day numbers order the valid dates as the calendar does |
| Calendar.Epoch | scripts/openclaw-npm-release-check.ts:88 | time 0 starts 1 January 1970, and the next day starts 86,400,000 milliseconds later |
| Calendar.NextDayIsNext | scripts/openclaw-npm-release-check.ts:88 | consecutive existing dates have consecutive day numbers |
| Calendar.DayNumbersCountFromEpoch | scripts/openclaw-npm-release-check.ts:88-92 | the civil date of day n is the one reached by counting n days from 1 January 1970 in the reference calendar |
| Calendar.StartOfUtcDayExact | scripts/openclaw-npm-release-check.ts:163-165 | the start of the UTC day is midnight of the time's own day if and only if the year is outside 0 to 99, and otherwise that of the same date 1900 years later |
| Calendar.DistanceCountsDays | scripts/openclaw-npm-release-check.ts:167-169 | the rounded millisecond quotient is exactly the distance of the two start days |
| Calendar.DistanceSinceEpoch | scripts/openclaw-npm-release-check.ts:167-169 | from 1970 on the distance of two times is the difference of the days that contain them |
| ReleaseVersion.ReadsBackExactly | scripts/openclaw-npm-release-check.ts:88-95 | the Date check accepts exactly the existing days of years from 100 on |
| ReleaseVersion.ParsesRendered | scripts/openclaw-npm-release-check.ts:109-140 | every valid release's version string parses to the record of that release |
| ReleaseVersion.ParsedIsRendered | scripts/openclaw-npm-release-check.ts:63-140 | whatever parses is, trimmed, the version string of the valid release it parses to |
| ReleaseVersion.AcceptsExactlyReleases | scripts/openclaw-npm-release-check.ts:40-44 | the parser accepts exactly the three shapes with a year from 100 on and an existing day |
| ReleaseVersion.BaseVersionPrintsBack | scripts/openclaw-npm-release-check.ts:97-106 | base version and suffix print the trimmed input back if and only if the year is at least 1000 |
| ReleaseVersion.WindowIsFiveDays | scripts/openclaw-npm-release-check.ts:265-273 | the distance test passes if and only if the release day is one of the five days centred on now |
| ReleaseVersion.WindowSinceEpoch | scripts/openclaw-npm-release-check.ts:265-273 | checked from 1970 on, a release is in the window if and only if its day is at most two days from the day that contains the time of the check |
| ReleaseVersion.WindowExample | scripts/openclaw-npm-release-check.ts:265-273 | 2026.3.8 is in the window at noon UTC of 10 March 2026 and not one day later |
| ReleaseVersion.CollectReleaseTagErrors | scripts/openclaw-npm-release-check.ts:212-291 | the errors pushed, in order, are those of the error function |
| ReleaseVersion.NoTagErrorsExactlyWhenReleasable | scripts/openclaw-npm-release-check.ts:212-291 | no error is reported if and only if a valid release in the window is tagged with its own version or, unsuffixed, a correction of it, on the main ref if asked |
| ReleaseVersion.EachTagErrorExactly | scripts/openclaw-npm-release-check.ts:225-288 | each error is reported if and only if its own fault is there, the distance with its number of days, and the errors come in the order of the checks, each once |
| SparkleBuild.MatchesExactly | scripts/sparkle-build.ts:12 | the matcher finds exactly the decompositions the calver pattern allows |
| SparkleBuild.LaneMeaning | scripts/sparkle-build.ts:40-49 | a suffix's lane is the number it ends in, capped at 89, and 1 when it ends in none |
| SparkleBuild.ShortVersionFloorsExactly | scripts/sparkle-build.ts:14-53 | a short version has floors if and only if it is, trimmed, a calver text with a month of 1 to 12 and a day of 1 to 31; they are the key 10000y+100m+d, ten times it, and a hundred times it plus the lane of its own suffix |
| SparkleBuild.FloorsValue | scripts/sparkle-build.ts:37-52 | the concatenated key and floors are 10000y+100m+d, ten times it, and a hundred times it plus a lane of at most 90 |
| SparkleBuild.LaneFloorsOrderLexicographically | scripts/sparkle-build.ts:37-52 | lane floors order versions by date and then lane |
| SparkleBuild.UnsuffixedRanksHighest | scripts/sparkle-build.ts:40-51 | an unsuffixed version ranks strictly above every suffixed one of its day |
| SparkleBuild.EffectiveCutover | scripts/release-check.ts:192-199 | the inferred cutover is the least date of a lane-sized build, capped by the adoption date |
| SparkleBuild.CollectAppcastSparkleVersionErrors | scripts/release-check.ts:157-214 | both passes push exactly the errors of the error function, in order |
| SparkleBuild.FloorsHoldExactlyWhenSeparated | scripts/release-check.ts:192-211 | no item is below its floor if and only if some cutover date up to the adoption date separates legacy builds from lane builds |
| SparkleBuild.InferredIsNoEarlier | scripts/release-check.ts:192-199 | the inferred cutover is the latest of all separating dates up to the adoption date |
| SparkleBuild.BuildsIncreaseAcrossCutover | scripts/release-check.ts:38-39 | across a separating cutover every later build is strictly greater than every earlier one, for years from 1000 on |
| SparkleBuild.AppcastPassesExactly | scripts/release-check.ts:157-214 | the check passes if and only if the feed is non-empty, builds are numeric and some cutover date splits the items with calver versions into builds of at least ten times their key below 10^9, and builds of at least a hundred times their key plus their lane |
| SparkleBuild.EachAppcastErrorExactly | scripts/release-check.ts:157-214 | exactly these are reported: an empty feed, each missing build, each non-numeric one, and each build below the floor of its side of the cutover, with that floor |
| SparkleBuild.PassingFeedBuildsIncrease | scripts/release-check.ts:157-214 | in a feed that passes, every build dated from the inferred cutover on is strictly greater than every build dated before it, for years from 1000 on |
| SparkleBuild.BuildsIncreaseExactlyFromYear1000 | scripts/release-check.ts:192-211 | for an earlier and a later unsuffixed version, every passing feed with the cutover between them orders their builds if and only if the later year is at least 1000 |
| SparkleBuild.EarlyYearsNeedNotIncrease | scripts/release-check.ts:192-211 | for any two unsuffixed versions, the later of a year before 1000, a passing feed gives the later one the smaller build |
| ImportGraph.CollectRelativeImportGraph | scripts/load-channel-config-surface.ts:103-130 | terminates on every import graph with exactly the files reachable from the entry, and fails if and only if a reachable file is unreadable |
| ImportGraph.PushTargets | scripts/load-channel-config-surface.ts:117-126 | the inner loop queues exactly the resolved relative imports |
| CommonAncestor.ResolveCommonAncestor | scripts/load-channel-config-surface.ts:132-149 | the nested climbing loops are a fold of one meet per path; an empty path set is an error |
| CommonAncestor.CommonOfAllIsGreatest | scripts/load-channel-config-surface.ts:132-149 | the reference result is the greatest prefix shared by all paths |
| CommonAncestor.CommonAncestorExactly | scripts/load-channel-config-surface.ts:138-148 | the loop ends on the common prefix or one level below it, on it if and only if that is the first path or another path names a different child there |
| CommonAncestor.StopsOneLevelTooLow | scripts/load-channel-config-surface.ts:138-148 | a/b/c followed by a ends on a/b, although a is the common prefix |
| CommonAncestor.CommonAncestorOfDirectoryAndFiles | scripts/load-channel-config-surface.ts:158-160 | for a directory followed by paths not above it the loop returns the common prefix |
| FileWalk.CollectFilesSync | scripts/check-file-utils.ts:13-51 | the stack loop terminates and yields exactly the recursive walk's sequence |
| FileWalk.ReadDirectory | scripts/check-file-utils.ts:35-47 | one directory adds its accepted files and pushes its entered subdirectories |
| FileWalk.WalkMembers | scripts/check-file-utils.ts:13-51 | a file is yielded if and only if it is accepted and reached through no skipped and no unreadable directory |
| FileWalk.WalkHasNoDuplicates | scripts/check-file-utils.ts:13-51 | with distinct names in every directory each file is yielded once |
| Utf16.SliceUtf16Safe | src/utils.ts:237-264 | clamping, swapping and both surrogate adjustments are the slice function |
| Utf16.BoundsCountFromEitherEnd | src/utils.ts:240-241 | a bound counts from the start, or from the end when it is negative, and outside the text it is the nearer end |
| Utf16.SliceOfStretch | src/utils.ts:237-264 | any stretch between two boundaries is returned for its ends in either order, each counted from the start or from the end, the end of the text left out or not |
| Utf16.PairsEncodeCodePoints | src/utils.ts:229-235 | the pairs that are not cut are exactly the UTF-16 encodings of the code points above the first plane |
| Utf16.CutsDecodingExactlyAtBoundaries | src/utils.ts:229-235 | decoding distributes over a cut if and only if the cut is not inside a surrogate pair |
| Utf16.SliceIsLargestAligned | src/utils.ts:249-263 | the slice is the largest aligned range inside the requested one, and empty for the one request without a boundary |
| Utf16.SliceKeepsDecoding | src/utils.ts:237-264 | every slice is the text between two boundaries, and decoding the text is decoding what is before it, the slice, and what is after it, also for a request inside a surrogate pair |
| Utf16.TruncateIsLongestAlignedPrefix | src/utils.ts:266-272 | truncation returns the longest aligned prefix within the limit and loses at most one code unit against it |
| Utf16.LimitMeans | src/utils.ts:267 | a text fits the limit if and only if it is empty or has at most that many code units |
| SetupCode.SetupCodeRoundTrip | extensions/device-pair/index.ts:364-368 | restoring the alphabet and the padding and decoding recovers every byte |
| SetupCode.SetupCodeInjective | extensions/device-pair/index.ts:364-368 | distinct payload bytes give distinct codes |
| SetupCode.SetupCodeIsUrlSafe | extensions/device-pair/index.ts:364-368 | a code is URL-safe characters of the unpadded length, never 1 mod 4 |
| SetupCode.CodeCharacters | extensions/device-pair/index.ts:366-367 | a code is the base64 text with plus and slash exchanged for minus and underscore, without its padding |
| SetupCode.GroupIsBigEndian | extensions/device-pair/index.ts:366 | the four characters of three bytes are their 24 bits read from the left in base 64, in the alphabet of RFC 4648 |
| SetupCode.ShortGroupIsPadded | extensions/device-pair/index.ts:366 | a last group of one or two bytes is the full one with zero bytes added, its unused characters replaced by padding |
| MarkerBlock.FailsExactly | scripts/sync-moonshot-docs.ts:21-28 | the two errors occur exactly without a start marker, and without an end marker after the first start marker |
| MarkerBlock.OutsideIsUnchanged | scripts/sync-moonshot-docs.ts:30-50 | the first block becomes the start marker, the given lines in order and the end marker, each on its own line and indented like the start marker was; everything outside is kept, up to a final newline when the block ends the text |
| MarkerBlock.IdempotentExactly | scripts/sync-moonshot-docs.ts:15-51 | replacing twice is replacing once if and only if the end marker is in neither the start marker nor an indented line |
| ChunkBuffer.Buffer.AppendBoundedChunk | extensions/microsoft-foundry/cli.ts:153-164 | a non-empty chunk is appended and chunks are dropped from the front until the rest fits; after any sequence of chunks the buffer is the fitted tail of the non-empty ones and the total is the length of its output |
| ChunkBuffer.FitIsLongestSuffix | extensions/microsoft-foundry/cli.ts:159-163 | the fitted tail is the longest suffix of whole chunks within the cap |
| ChunkBuffer.KeptIsTailOfOutput | extensions/microsoft-foundry/cli.ts:153-164 | what is kept is the end of the output received, at most 8,000 code units of it, and all of it while it fits |

## Left out

- AtMostOnce: assumes a non-blank request id and a positive clock, which RepeatsExactlyWhen shows to be needed.
- KeysStayDistinct: assumes command targets with stable keys, which UnstableKeyCollidesInRun shows to be needed.
- StableCommandTakesEffect: assumes a target with a stable key, and for off distinct keys; CommandTakesEffect says what
  happens without.
- RunsWriteCleanFiles: assumes positive clocks, non-blank ids and clean command targets, the cases in which
  WrittenStateReadsBack has nothing to drop.
- BuildsIncreaseAcrossCutover: assumes a later year from 1000 on, which BuildsIncreaseExactlyFromYear1000 shows to be
  needed.
- SingleFlightAlways: and the other results over runs of the token cache exclude a reset while a refresh is in flight,
  which ResetIsSafeExactlyWhenIdle shows to be needed.
- AnswersComeFromOwnIds: assumes the caller's ids are colon-free, which KeyUnambiguousExactlyWhenColonFree shows to be
  needed.
- IdempotentExactly: assumes what the callers' constant markers satisfy: neither marker is empty, the start marker does
  not begin with a newline, and the end marker contains none.
- TickTellsExactly: and SweepIsComplete assume that no two pending requests have the same id.
- AnswersComeFromAz: and AzAnswerReachesWaiter are about runs without a reset while a refresh is in flight, like
  SingleFlightAlways.
- WalkHasNoDuplicates: assumes no directory lists one name twice, as file systems guarantee.
- Overlapping notifier ticks, and a crash between a send and the write: each tick and command is one atomic step. A tick
  whose pairing list cannot be read stops before it changes anything and is not a step.
- Request ids that are property names inherited from `Object.prototype`, such as `constructor`: the source's lookup would
  find the inherited function.
- Thread ids in command contexts that are not integers or strings; the account id and text thread id of a command may
  be any string.
- Message texts, reply texts, logging, and the Telegram parameters of a send.
- The wording of error messages beyond which error it is; the base URL and profile parts of
  the Azure runtime, which do not touch the maps.
- Rounding of numbers above 2^53, and numerals so long that they parse to an infinity: versions and builds are unbounded
  integers. Invalid dates and the range limit of `Date`.
- Regular expressions, XML, JSON text and UTF-8: the models start from parsed values, extracted tags and payload bytes;
  the version grammars are written out.
- File systems that change during a walk or an import closure, path normalization by `path.join` and `path.resolve`, and
  Windows drive roots. `resolveImportCandidates` is a parameter.
- Slice bounds that are not integers; the truncation limit is a rational and is floored.
- `resolveConfigSchemaExport`, the isolated copy and its cleanup, pack-size checks, package metadata checks and the other
  checks of the release scripts: straight-line comparisons or I/O.
- LanceDB search, embeddings, capture rules, plugin registration, wizards and model catalogs.
