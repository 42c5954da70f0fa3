# Verified model of the Hailiang session runtime

This project models the parts of the Hailiang skills platform where a mistake is hard to
notice, and proves what they promise.

| module | models |
|---|---|
| `TurnProtocol`, `TurnPermits`, `TurnOwnership`, `TurnCancellation`, `TurnScenarios` | the turn coordinator as a state machine over any number of workers and one shared Redis |
| `TurnCoordinator` | the coordinator object and the Redis commands, updated in place, tied to the state machine |
| `SseStream`, `SseRetry`, `FrameGate` | the event-stream reader, its retry loop, and the gate that decides which state frames are applied |
| `Subjects`, `SubjectLookup` | the compiler and checker of subject requirements, the ranking and the coverage counts |
| `Spreadsheet` | cell references, merged ranges and the dense grid |
| `MbtiScore`, `PathCatalog`, `FrontMatter` | questionnaire scoring, path-catalog grouping, front-matter splitting and synchronising |
| `Text`, `PythonText`, `JsText`, `Ordering`, `Counting`, `Arithmetic` | strings, orders, counting and products |

`dafny verify dfyconfig.toml` checks everything.

## How the coordinator is modelled

Each atomic section of the code is one action: a semaphore operation, a block under the guard
lock, one Lua script, one SET. A call is a program point of a `Turn` or `Cancel` record, so
actions of other calls and other workers can come between any two sections. Every Redis call
is answered, or fails before its effect, or fails after it. Keys may expire at any time
through a separate action; the theorems say which expiries they exclude.

In the state machine a turn starts with a run id that no turn of its session has used: the route
handler claims the id in its ledger of used ids before it acquires a lease
(`hailiang-skills/src/hailiang_skills/api/routes/chat_stream.py:500-525` and `528-557`). A
`supersede` announces any non-empty id (`chat_stream.py:110`), used or not, because the handler
calls it before the ledger is asked (`chat_stream.py:1059-1060`).

The class `Coordinator` repeats the code with its fields. Each method states the state it
leaves and also yields a legal run of the state machine with the same effect, so the theorems
about runs apply to what the methods do. What `Acquire` says about the state holds of used run ids
as well.

## What the code does not promise

- A stop is not always sticky. A `cancel` that reaches Redis between the guard block and the
  SET of its run is answered 0 and has then to pop its local marker. If meanwhile the lease is
  issued and a second `cancel` gets an error from Redis, the second call returns True, and the
  late clean-up of the first pops the marker of the second: the lease is current and
  uncancelled again (`StaleCleanUpUndoesStop`).
- A run that was superseded can become current again. A duplicate POST of its own request
  announces its run id before the ledger refuses it, which puts the run back into the local slot
  and turns the marker on its successor (`DuplicateRequestRevives`). This undoes every stop that
  rests on the local slots alone (`Revival`), until the successor's SET reaches Redis
  (`PublishDisplaces`). `OwnershipReturnsIff` says exactly when ownership returns.
- A stop confirmed for a lease on another worker rests on the Redis marker alone. In every single
  state it holds while that key lives and is read (`ConfirmedCancelIsSticky`), and not otherwise.
  `StopHoldsIff`, `CancelSticksIff` and `SupersedeSticksIff` say exactly which stops hold under
  which conditions.
- The stream runner reads the ownership first and the marker later, in another state. Even a lease
  with both markers, and with keys that live and are read, can be missed in between, when another
  run of the session publishes and is itself stopped (`StopMissedAfterSet`). Exactly that, a
  missing Redis marker, or a lost key makes it possible (`OwnershipThenMarkerIff`); without such a
  SET the later read is safe (`MarkerReadWithoutOtherSet`). Reading the markers first and the
  ownership later would be safe throughout (`MarkersThenOwnership`).
- An issued lease need not be current, and of several live ones none need be (`NobodyCurrent`).
- The comment at `concurrency.py:233` says that the TTL bounds leaked permits. The same expiry
  recovers leaks when no reservation is held (`ExpiryHarmlessIff`), but under live leases it resets
  their counter, and the caps then fail: what is left is the cap times the number of workers
  (`WorkersBound`, `ExpiryBreaksCap`).
- The handler compares one version field of a frame and stores another. So the newest frame of an
  orderly stream may be lost (`AppliedWholeIff`, `NewestLost`). Copies of frames are ignored in
  every stream numbered upwards (`OrderedCopyIgnored`), and the encoder numbers the frames of a
  response upwards (`sse_protocol.py:403-404`); only with frames out of order may a refused frame
  be applied when it comes again (`CopyIgnoredIff`, `RefusedCopyApplied`).
- A requirement made only of "+" is specified but compiles to no group: nothing ever meets it
  and nothing is reported missing (`NothingHelpsIff`).
- Overlapping merged ranges can give different results in different orders, namely if they clash
  on an absent cell or one passes its text on through the other (`OrderIrrelevantIff`).
- Front matter whose YAML has a later line starting with `---` does not split back
  (`PrintSplitIff`).

## Model

| member | source | states |
|---|---|---|
| TurnPermits.CapsHold | hailiang-skills/src/hailiang_skills/core/concurrency.py:83-120 | In every run over any number of workers, with any Redis call failing before or after its effect and no counter key expiring while a turn holds a reservation of it: each Redis counter equals the reservations its leases know of plus the permits lost to failed calls since its last expiry, so the issued leases of all workers stay within the global cap and each user's within the user cap |
| TurnPermits.RefusedIff | hailiang-skills/src/hailiang_skills/core/concurrency.py:86-105 | Admission is exact: in every such run an answered admission is refused if and only if reservations and lost permits together have used up the global cap, or those of the user the user cap |
| TurnScenarios.GlobalCapReached | hailiang-skills/src/hailiang_skills/core/concurrency.py:92-97 | Some run without expiry or failure issues exactly as many leases as the global cap, whatever the caps |
| TurnScenarios.UserCapReached | hailiang-skills/src/hailiang_skills/core/concurrency.py:92-97 | Some run without expiry or failure issues exactly as many leases of one user as the user cap, if the global cap leaves room |
| TurnPermits.ExpiryHarmlessIff | hailiang-skills/src/hailiang_skills/core/concurrency.py:232-234 | After an expiry the global counter still covers all reservations if and only if there were none; then all leaked permits are recovered |
| TurnPermits.CountersConservedFrom | hailiang-skills/src/hailiang_skills/core/concurrency.py:86-103 | The same equation kept from any state in which it holds, for the global counter and for one user's |
| TurnPermits.PermitsConserved | hailiang-skills/src/hailiang_skills/core/concurrency.py:65-120 | After every run, on every worker: free and held permits add up to the bound, for the global semaphore and every user's; with no turn in progress all permits are back, whatever timed out, was rejected or failed |
| TurnPermits.PermitsConservedFrom | hailiang-skills/src/hailiang_skills/core/concurrency.py:204-214 | The balance of every semaphore is kept by every run from any state in which it holds and the turns that need a user's semaphore find it |
| TurnPermits.LocksAlwaysKnown | hailiang-skills/src/hailiang_skills/core/concurrency.py:208-211 | A user's semaphore is never removed, so a release of an issued lease always finds the semaphore it has to return a permit to |
| TurnPermits.WorkersBound | hailiang-skills/src/hailiang_skills/core/concurrency.py:44-45 | In every run, expiring counters included, the issued leases of all workers stay within the number of workers times the global cap, and a user's within the number of workers times the user cap |
| TurnScenarios.ExpiryBreaksCap | hailiang-skills/src/hailiang_skills/core/concurrency.py:232-234 | With expiring counters nothing better holds: for all positive caps and any number of workers some run ends with live leases to exactly the number of workers times the global cap |
| TurnScenarios.Acquired | hailiang-skills/src/hailiang_skills/core/concurrency.py:65-120 | With a permit of each kind free and Redis admitting, an undisturbed acquire reaches an issued, published lease |
| TurnOwnership.OwnershipNeverReturns | hailiang-skills/src/hailiang_skills/core/concurrency.py:140-150 | In every run: once the Redis generation has moved on from a settled turn it never comes back, once the local slot has it does not come back unless a `supersede` on that worker announces the turn's own run; either way the turn is never current again, with Redis answering or not |
| TurnOwnership.OwnershipReturnsIff | hailiang-skills/src/hailiang_skills/core/concurrency.py:127-150 | The exact condition, for every run from a state in which a settled turn is not current: it becomes current again if and only if some `supersede` on its worker finds another run in the slot and announces the turn's own run while Redis, if there is one, still holds the turn's generation |
| TurnOwnership.InstallDisplaces | hailiang-skills/src/hailiang_skills/core/concurrency.py:79-82 | The second guard block of an acquire ends the ownership of the settled turns of its session on its worker, before Redis is asked and even if Redis then rejects it, unless a `supersede` announces their run again |
| TurnOwnership.PublishDisplaces | hailiang-skills/src/hailiang_skills/core/concurrency.py:107-109 | A SET that took effect, its answer lost or not, ends the ownership of every other settled turn of its session on all workers for good |
| TurnOwnership.OneCurrentRun | hailiang-skills/src/hailiang_skills/core/concurrency.py:76-109 | After every run at most one turn of a session is current across all workers (without Redis: at most one per worker) |
| TurnOwnership.SetMakesCurrentIff | hailiang-skills/src/hailiang_skills/core/concurrency.py:107-120 | When an issued lease is current: the answered SET makes its own turn current if and only if the local slot still names it |
| TurnOwnership.InstallStartsClean | hailiang-skills/src/hailiang_skills/core/concurrency.py:79-82 | A turn that takes over the slot is its owner and unmarked there, even if its run was stopped before it began |
| TurnScenarios.NobodyCurrent | hailiang-skills/src/hailiang_skills/core/concurrency.py:79-109 | A run without failures after which two issued leases of a session are both live and neither is current, because their SETs come in the opposite order to their guard blocks |
| TurnOwnership.SupersedeRemoves | hailiang-skills/src/hailiang_skills/core/concurrency.py:127-138 | `supersede` ends the ownership of the settled turns of its session on its worker at once, except of the run it announces, and for as long as no later `supersede` announces their run |
| TurnOwnership.CancelsKeepCurrent | hailiang-skills/src/hailiang_skills/core/concurrency.py:152-190 | No run made of sections of `cancel` calls, however interleaved and failing, changes whether a turn is current |
| TurnCancellation.CancelIsSticky | hailiang-skills/src/hailiang_skills/core/concurrency.py:159-190 | A `cancel` whose local check passes for an issued lease, with no clean-up of the same run pending, keeps the lease from ever being both current and uncancelled until its release, in every continuation in which no `supersede` announces the run again, whatever fails or expires and although later calls overwrite or pop the slot |
| TurnCancellation.ConfirmedCancelIsSticky | hailiang-skills/src/hailiang_skills/core/concurrency.py:168-181 | A `cancel` that took effect in Redis, from any worker, is sticky while the cancellation key lives and is read, even if the run is announced again |
| TurnCancellation.StopHoldsIff | hailiang-skills/src/hailiang_skills/core/concurrency.py:127-211 | Exactly when a stop holds, under each of four conditions (the run may or may not be announced again; cancellation keys may or may not expire or fail to be read): no permitted continuation shows the lease current and uncancelled if and only if Redis has moved on, or Redis holds its marker and cannot lose it, or the run is not announced again and either the local slot has moved on or holds its marker with no clean-up of that run pending |
| TurnCancellation.CancelSticksIff | hailiang-skills/src/hailiang_skills/core/concurrency.py:159-190 | The same under each of the four conditions, read off before a `cancel` on the lease's worker: its marker holds if and only if Redis has moved on, or Redis holds the marker already and cannot lose it, or the run is not announced again and no earlier `cancel` of it has a clean-up pending (or the lease is not the local owner anyway) |
| TurnCancellation.SupersedeSticksIff | hailiang-skills/src/hailiang_skills/core/concurrency.py:127-138 | The same for a `supersede` on the lease's worker that announces another run: it stops the lease if and only if the run is not announced again, or Redis has moved on, or Redis holds its marker and cannot lose it |
| TurnCancellation.Revival | hailiang-skills/src/hailiang_skills/core/concurrency.py:129-138 | From every state in which a live lease still holds its Redis generation and has no marker there that is read, at most two `supersede` calls that announce another run and then the lease's own make it current and uncancelled |
| TurnScenarios.DuplicateRequestRevives | hailiang-skills/src/hailiang_skills/api/routes/chat_stream.py:1059-1060 | A run from the start in which a live lease is superseded by the next request and then current and uncancelled again because a duplicate of its own request announces it |
| TurnCancellation.MarkersThenOwnership | hailiang-skills/src/hailiang_skills/core/streaming_runner.py:806-810 | Four reads in four states: of a lease whose stop holds at the first and that is live at the last, it is never found that the local marker is missing, then the Redis marker, then that the local slot is its own, then that Redis holds its generation |
| TurnCancellation.OwnershipThenMarkerIff | hailiang-skills/src/hailiang_skills/core/streaming_runner.py:931-938 | The other order, exactly, from every consistent state and live lease under each of the four conditions: a later read can find it not cancelled if and only if cancellation keys may get lost, or Redis holds no marker of it now, or another run of its session has published, or can while it is live |
| TurnCancellation.MarkerReadWithoutOtherSet | hailiang-skills/src/hailiang_skills/core/streaming_runner.py:931-938 | In every run in which no other run's SET of the session takes effect and the key is kept, a lease that Redis marks and that has not been overtaken is read as cancelled |
| TurnScenarios.StopMissedAfterSet | hailiang-skills/src/hailiang_skills/core/streaming_runner.py:931-938 | Wherever a permit of each kind and the admission are free for another turn of the session, a later read can miss the stop, markers in both places notwithstanding |
| TurnScenarios.StaleCleanUpUndoesStop | hailiang-skills/src/hailiang_skills/core/concurrency.py:182-190 | A run in which a `cancel` that returned True on a Redis error is undone by the clean-up of an earlier `cancel` that Redis had answered with 0 before the SET |
| TurnCancellation.StopStays | hailiang-skills/src/hailiang_skills/core/concurrency.py:192-211 | A stop that holds under some conditions still holds after every run they permit, until the release |
| TurnCancellation.ReachableIsConsistent | hailiang-skills/src/hailiang_skills/core/concurrency.py:65-214 | Every state reached by a run from the start is consistent: run ids are unique per session, turns sit on existing workers, slots taken over are never without a run, and without Redis no cancel stays in progress; so the results about consistent states hold in every reachable one |
| TurnCancellation.NoStrayCancellation | hailiang-skills/src/hailiang_skills/core/concurrency.py:192-202 | After every run a turn is told it is cancelled only if some action of the run named exactly its run id in its session |
| TurnCancellation.BlamedOnlyIfNamed | hailiang-skills/src/hailiang_skills/core/concurrency.py:152-202 | Every marker, local or in Redis, and every cancel in progress goes back to an action that named that run |
| TurnCancellation.ReleasesClearOnlyThemselves | hailiang-skills/src/hailiang_skills/core/concurrency.py:204-231 | However many other turns are released, in any interleaving and with any failures, a turn is told the same about its cancellation |
| TurnCoordinator.RedisServer.Admit | hailiang-skills/src/hailiang_skills/core/concurrency.py:86-103 | The admission script, in terms of the old counters: it answers 1 exactly if the global counter is below its cap and the user's below its own, then both go up by one, and otherwise neither; a failed call has the whole effect or none; no other key changes |
| TurnCoordinator.RedisServer.Publish | hailiang-skills/src/hailiang_skills/core/concurrency.py:109 | The SET writes the generation key of its session and nothing else, and nothing at all if it failed before |
| TurnCoordinator.RedisServer.GiveBack | hailiang-skills/src/hailiang_skills/core/concurrency.py:220-231 | The teardown script: each counter goes down by one unless missing or zero |
| TurnCoordinator.RedisServer.CancelIfCurrent | hailiang-skills/src/hailiang_skills/core/concurrency.py:168-179 | The cancel script: writes the marker and answers 1 only while the run is the published generation |
| TurnCoordinator.Coordinator.constructor | hailiang-skills/src/hailiang_skills/core/concurrency.py:39-54 | A new coordinator has all global permits and no user semaphores, generations or markers |
| TurnCoordinator.Coordinator.Acquire | hailiang-skills/src/hailiang_skills/core/concurrency.py:65-120 | For any run id, used or not: exactly when each of the five outcomes occurs, and the exact local and Redis state after each: a local timeout changes no generation, marker or Redis key; a Redis rejection or failure returns both permits but has taken over the slot; a lease took one permit of each kind; and with a fresh run id the call is a legal run of the protocol |
| TurnCoordinator.Coordinator.Release | hailiang-skills/src/hailiang_skills/core/concurrency.py:204-214 | Pops the marker only if it is the lease's own, returns the user permit if the user has a semaphore, the global permit and the reservation, and is a legal run of the protocol |
| TurnCoordinator.Coordinator.ReturnPermits | hailiang-skills/src/hailiang_skills/core/concurrency.py:110-119 | The common tail of a failed acquire and of a release: both permits, then the reservation if there is one |
| TurnCoordinator.Coordinator.CurrentGeneration | hailiang-skills/src/hailiang_skills/core/concurrency.py:122-125 | The run that a `supersede` would replace and mark, if any; the only run id that passes the local check of `cancel`; and the only run of the session that can be current on this worker |
| TurnCoordinator.Coordinator.Supersede | hailiang-skills/src/hailiang_skills/core/concurrency.py:127-138 | Replaces and marks the run in the slot unless there is none or it is the announced one, for any announced id; one protocol action |
| TurnCoordinator.Coordinator.Cancel | hailiang-skills/src/hailiang_skills/core/concurrency.py:152-190 | True exactly if the run holds the local slot and Redis, if it answers, confirms the generation; the whole local state after it: unchanged, marked, or marked and popped again; a legal run of the protocol |
| TurnCoordinator.Coordinator.IsCurrent | hailiang-skills/src/hailiang_skills/core/concurrency.py:140-150 | Current exactly if the local slot names the lease and, with Redis, an answering Redis does; fails closed |
| TurnCoordinator.Coordinator.IsCancelled | hailiang-skills/src/hailiang_skills/core/concurrency.py:192-202 | Cancelled exactly if the local marker or an answering Redis names the lease |
| SseStream.ParseChunk | hailiang-skills/frontend/src/utils/sse.ts:19-59 | The line loop computes the events of a frame: its data lines joined and read under its event name, filtered by protocol |
| SseStream.NameIsLast | hailiang-skills/frontend/src/utils/sse.ts:21-27 | The event name is the trimmed text of the last `event:` line, and "message" if there is none |
| SseStream.DataLineByLine | hailiang-skills/frontend/src/utils/sse.ts:28-30 | The data lines are collected line by line in order, each without its field name and trimmed |
| SseStream.PartsAreTrimmed | hailiang-skills/frontend/src/utils/sse.ts:129 | Blanks around a part make no difference |
| SseStream.ReadStream | hailiang-skills/frontend/src/utils/sse.ts:119-146 | Chunking does not matter: for every way of cutting a text into reads, the events passed on are those of splitting the whole text once on blank lines and parsing each trimmed part; a broken stream passes on those of the parts closed so far |
| SseStream.NextRead | hailiang-skills/frontend/src/utils/sse.ts:125-134 | One read closes exactly the parts that the longer text has closed and the shorter had not, and keeps the open part |
| SseStream.BrokenIsPrefix | hailiang-skills/frontend/src/utils/sse.ts:123-138 | What a broken stream has passed on is a beginning of what any longer text passes on |
| SseStream.EncodedFramesComeBack | hailiang-skills/src/hailiang_skills/core/streaming_runner.py:42-43 | Frames of any one-line event name and data, as the server encodes them, come back as exactly their events, each once and in order |
| SseStream.PingsAreSilent | hailiang-skills/src/hailiang_skills/core/streaming_runner.py:1581 | Of state frames, pings and a done frame, the events are exactly those of the state and done frames |
| SseRetry.PostSseStream | hailiang-skills/frontend/src/utils/sse.ts:88-170 | At most retryCount + 1 fetches; another fetch exactly after a retryable status or an attempt that delivered nothing and was not aborted; all events come from the last attempt; a normal return has delivered all events, at least one, of one whole response; exact total back-off and its bound; the throw behind the loop is reached only for a negative count |
| SseRetry.WaitsAddUp | hailiang-skills/frontend/src/utils/sse.ts:164-166 | The back-off after k attempts, delay + 2 delay + .. + k delay, is delay k (k + 1) / 2 |
| SseRetry.FramesDelivered | hailiang-skills/src/hailiang_skills/api/routes/chat_stream.py:598-615 | End to end: a normal return on a response of state frames, pings and a final done frame has passed on exactly the state and done frames, each once and in order, however the text was cut and however many fetches failed before |
| Text.SplitJoin | hailiang-skills/frontend/src/utils/sse.ts:126 | Splitting on a separator loses nothing and leaves no separator in a piece |
| Text.SplitMore | hailiang-skills/frontend/src/utils/sse.ts:125-127 | Text added at the end changes only the last, still open piece |
| Text.TrimSpec | hailiang-skills/frontend/src/utils/sse.ts:129 | Trimming loses only blanks at the ends and leaves none there |
| Text.TrimPadded | hailiang-skills/frontend/src/utils/sse.ts:129 | Trimming a padded text gives the text |
| JsText.BlanksDiffer | hailiang-skills/frontend/src/utils/sse.ts:25-29 | JavaScript's blanks are Python's without four separators and the next-line control, and with the byte order mark |
| FrameGate.StateHandler.OnState | hailiang-skills/frontend/src/hooks/useChatActions.ts:1315-1331 | A frame changes nothing if its run id, scope or profile differs from the send's, its number is not higher, or its version is below the stored one; otherwise it sets number, branch version, switch flag, content and status |
| FrameGate.OnlyOwnFramesCount | hailiang-skills/frontend/src/hooks/useChatActions.ts:1318-1323 | Removing every frame of another run, scope or profile from a stream never changes the result |
| FrameGate.AppliedIncrease | hailiang-skills/frontend/src/hooks/useChatActions.ts:1318-1329 | Applied frames have strictly increasing numbers, and what is left is the number, content and status of the highest applied one |
| FrameGate.StaleFrameIgnored | hailiang-skills/frontend/src/hooks/useChatActions.ts:1318-1319 | A frame numbered no higher than an applied one changes nothing wherever it is inserted |
| FrameGate.AppliedCopyIgnored | hailiang-skills/frontend/src/hooks/useChatActions.ts:1318-1319 | A second copy of an applied frame changes nothing wherever it is inserted later |
| FrameGate.CopyIgnoredIff | hailiang-skills/frontend/src/hooks/useChatActions.ts:1318-1328 | Exactly when a second copy of a frame of the stream changes nothing, whatever follows: unless it belongs to the send, was refused for its branch version when it first came, the stored version has fallen to its own or below since, and nothing with its number or a higher one was applied |
| FrameGate.RefusedThen | hailiang-skills/frontend/src/hooks/useChatActions.ts:1325-1328 | A frame that gets through on its second coming had been refused for its branch version, and the stored version has fallen since |
| FrameGate.OrderedCopyIgnored | hailiang-skills/frontend/src/hooks/useChatActions.ts:1318-1328 | Replay immunity: in a stream numbered upwards, as the frames of one response are, a second copy of any frame, applied or refused, inserted anywhere after it changes nothing, whatever the versions |
| FrameGate.CopyIgnored | hailiang-skills/frontend/src/hooks/useChatActions.ts:1318-1341 | In any order of frames, if every frame's own version is the one stored with it, every copy is ignored |
| FrameGate.RefusedCopyApplied | hailiang-skills/frontend/src/hooks/useChatActions.ts:1325-1341 | With neither, a copy can be applied: for every send, two frames numbered downwards for which it is |
| FrameGate.AppliedWholeIff | hailiang-skills/frontend/src/hooks/useChatActions.ts:1318-1341 | Exactly which streams are applied whole: the frames belong to the send, are numbered upwards, and none carries a version below the one stored with its predecessor |
| FrameGate.NewestLost | hailiang-skills/frontend/src/hooks/useChatActions.ts:1326-1341 | For every send, two frames in order of which the newer one is lost |
| Subjects.ParseSubjectComponent | hailiang-skills/runtime_skills/subject_advisor/scripts/build_subject_requirement_asset.py:355-361 | The loop computes the known subjects of a component, each once, or its stripped text |
| Subjects.ComponentMeans | hailiang-skills/runtime_skills/subject_advisor/scripts/build_subject_requirement_asset.py:355-361 | A component offers exactly the subjects it mentions under their own name or an alias, without repetition, or its own text if it mentions none |
| Subjects.KnownInOrder | hailiang-skills/runtime_skills/subject_advisor/scripts/build_subject_requirement_asset.py:357-360 | Subjects are listed in the order of their first mention |
| Subjects.AlternativesSplit | hailiang-skills/runtime_skills/subject_advisor/scripts/build_subject_requirement_asset.py:357 | The alternatives of a component are what lies between the separators |
| Subjects.ParseRequirement | hailiang-skills/runtime_skills/subject_advisor/scripts/build_subject_requirement_asset.py:336-352 | Blank text compiles to missing in source, "不限" to no limit, and every other text to the groups of the product of its components |
| Subjects.SpecialTexts | hailiang-skills/runtime_skills/subject_advisor/scripts/subject_requirements_lookup.py:272-277 | From text to answer: a blank text is unknown for every selection, "不限" is eligible for every non-empty one, an empty selection is otherwise reported as such, and any other text is eligible or not |
| Subjects.PlusSeparates | hailiang-skills/runtime_skills/subject_advisor/scripts/build_subject_requirement_asset.py:343 | The part before a "+" is a component of its own, unless it is blank, and comes before those of the rest |
| Subjects.ProductHas | hailiang-skills/runtime_skills/subject_advisor/scripts/build_subject_requirement_asset.py:343-345 | The product holds exactly the combinations of one option per component |
| Subjects.ProductAt | hailiang-skills/runtime_skills/subject_advisor/scripts/build_subject_requirement_asset.py:345 | The order of the combinations: the last component varies fastest, options in order |
| Subjects.CheckCompatibility | hailiang-skills/runtime_skills/subject_advisor/scripts/subject_requirements_lookup.py:269-288 | Status and missing list for every requirement and selection: eligible exactly if some group is contained in the selection, otherwise the sorted missing subjects of the first group that misses fewest |
| Subjects.CompatibilityUnique | hailiang-skills/runtime_skills/subject_advisor/scripts/subject_requirements_lookup.py:279-288 | This fixes the answer: requirement and selection determine status and missing list |
| Subjects.FirstMentionedReported | hailiang-skills/runtime_skills/subject_advisor/scripts/subject_requirements_lookup.py:287 | Among equally cheap groups the first counts: of one component none of whose subjects is selected, the one mentioned first is reported missing |
| Subjects.CoveredIffMet | hailiang-skills/runtime_skills/subject_advisor/scripts/build_subject_requirement_asset.py:343-352 | Some expanded group lies in the selection if and only if the selection meets every component with one of its options |
| Subjects.ExpansionPreservesMeaning | hailiang-skills/runtime_skills/subject_advisor/scripts/build_subject_requirement_asset.py:336-361 | For every specified text: the checker says eligible if and only if the text has a non-blank component and the selection meets every one |
| Subjects.EligibilityMonotone | hailiang-skills/runtime_skills/subject_advisor/scripts/subject_requirements_lookup.py:279-286 | Selecting more never loses eligibility |
| Subjects.MissingIsOptimal | hailiang-skills/runtime_skills/subject_advisor/scripts/subject_requirements_lookup.py:279-288 | For a text with a non-blank component: adding the reported missing subjects meets every component, they repeat nothing selected, and no smaller set of added subjects meets every component |
| Subjects.NothingHelpsIff | hailiang-skills/runtime_skills/subject_advisor/scripts/build_subject_requirement_asset.py:343-352 | A specified requirement can never be met, and reports nothing missing, if and only if it has no non-blank component ("+" alone) |
| SubjectLookup.MatchRecords | hailiang-skills/runtime_skills/subject_advisor/scripts/subject_requirements_lookup.py:160-188 | Exactly the positions of the records that the target names, by descending points, then category/name, then asset order |
| SubjectLookup.ScoreIsPoints | hailiang-skills/runtime_skills/subject_advisor/scripts/subject_requirements_lookup.py:171-184 | The score is the points of a record: 100 for a listed category, 25 more for the first, 30 for an overlap, and 120 or 45 for each keyword that is the name or only lies in name or category |
| Ordering.BeforeIff | hailiang-skills/runtime_skills/subject_advisor/scripts/subject_requirements_lookup.py:187 | Texts are compared lexicographically: a proper beginning comes first, and otherwise the first difference decides |
| SubjectLookup.CategoriesInOrder | hailiang-skills/runtime_skills/subject_advisor/scripts/subject_requirements_lookup.py:174-188 | Searching by categories alone lists the records of the first one before all others, and of any listed one before those that only overlap one |
| SubjectLookup.SameCategoryByHits | hailiang-skills/runtime_skills/subject_advisor/scripts/subject_requirements_lookup.py:178-188 | Records of one category come in the order of their weighted keyword hits, and equals in the order of their names |
| SubjectLookup.ScorePositiveIff | hailiang-skills/runtime_skills/subject_advisor/scripts/subject_requirements_lookup.py:171-184 | A score is positive exactly if the category is listed or overlaps a listed one, or a non-empty keyword is the name or lies in the name or category |
| SubjectLookup.ExactNamesFirst | hailiang-skills/runtime_skills/subject_advisor/scripts/subject_requirements_lookup.py:178-188 | Searching for one keyword alone ranks the records of that very name before all others |
| SubjectLookup.BuildComboCoverage | hailiang-skills/runtime_skills/subject_advisor/scripts/subject_requirements_lookup.py:201-245 | Category counts and requirement counts each count the eligible records and add up to their number; samples are the first at most five names of each category; the categories listed are the most frequent, and the requirement summary lists all, most frequent first |
| SubjectLookup.CountAll | hailiang-skills/runtime_skills/subject_advisor/scripts/subject_requirements_lookup.py:218-219 | A counter has one entry per key that occurs, in the order of first occurrence, with its number of occurrences, and adds up to the number of keys |
| SubjectLookup.OccurrencesCount | hailiang-skills/runtime_skills/subject_advisor/scripts/subject_requirements_lookup.py:218-219 | That number is the number of places at which the key stands |
| SubjectLookup.SampleNames | hailiang-skills/runtime_skills/subject_advisor/scripts/subject_requirements_lookup.py:220-224 | The samples of a category are its first at most five eligible names |
| SubjectLookup.MostCommon | hailiang-skills/runtime_skills/subject_advisor/scripts/subject_requirements_lookup.py:232 | The most frequent entries first, ties in order of first occurrence, and nothing left out is more frequent than anything listed |
| Spreadsheet.ColToNum | hailiang-skills/scripts/xlsx_utils.py:13-18 | The loop computes the bijective base-26 number of the letters |
| Spreadsheet.ReadPrinted | hailiang-skills/scripts/xlsx_utils.py:13-18 | Reading the printed letters of a number gives the number |
| Spreadsheet.PrintRead | hailiang-skills/scripts/xlsx_utils.py:13-18 | Printing the number of a letter text gives the text; only the empty text reads as 0 |
| Spreadsheet.ColumnsAreABijection | hailiang-skills/scripts/xlsx_utils.py:13-18 | Column numbering is a bijection between non-empty letter texts and positive numbers |
| Spreadsheet.PrintedRefComesBack | hailiang-skills/scripts/xlsx_utils.py:21-25 | Every cell is found again from its printed reference, and the other column numbering agrees |
| Spreadsheet.ParseRefMeans | hailiang-skills/scripts/xlsx_utils.py:21-25 | A reference is letters, digits and then anything; without both, the text gives row and column 0 |
| Spreadsheet.PrintedRangeComesBack | hailiang-skills/scripts/xlsx_utils.py:28-35 | Every range is found again from its printed corners, and a single cell from its own reference |
| Spreadsheet.ColumnIndex | hailiang-skills/runtime_skills/subject_advisor/scripts/build_subject_requirement_asset.py:320-325 | The second numbering: all letters of the upper-cased text, wherever they stand |
| Spreadsheet.LettersCount | hailiang-skills/runtime_skills/subject_advisor/scripts/build_subject_requirement_asset.py:321 | Every letter counts where it stands, a small one as its capital, and every other character is passed over |
| Spreadsheet.NumberingsAgreeIff | hailiang-skills/runtime_skills/subject_advisor/scripts/build_subject_requirement_asset.py:320-325 | On a text that starts with a cell reference the two numberings agree if and only if no further letter follows |
| Spreadsheet.FillRange | hailiang-skills/scripts/xlsx_utils.py:78-84 | One merged range: every absent cell gets the stripped corner text if there is one, and nothing else changes |
| Spreadsheet.FillMerges | hailiang-skills/scripts/xlsx_utils.py:75-84 | The merge loop over all ranges in order |
| Spreadsheet.FillNeverOverwrites | hailiang-skills/scripts/xlsx_utils.py:84 | No existing cell is overwritten, for any ranges in any order |
| Spreadsheet.FilledCells | hailiang-skills/scripts/xlsx_utils.py:77-84 | On disjoint ranges: a cell is filled exactly if it was there or some range spreads a corner text to it, and then with that text |
| Spreadsheet.FillOrderIrrelevant | hailiang-skills/scripts/xlsx_utils.py:77-84 | On disjoint ranges the result does not depend on their order or on repetitions |
| Spreadsheet.OrderIrrelevantIff | hailiang-skills/scripts/xlsx_utils.py:77-84 | Exactly when the order of two ranges matters, overlapping or not: both orders give the same cells if and only if no absent cell lies in both while their non-blank corner texts differ, and neither range fills the absent corner of the other while the other has an absent cell beyond it |
| Spreadsheet.SwapNeighbours | hailiang-skills/scripts/xlsx_utils.py:77-84 | In a list of any ranges, two neighbours that meet this condition on the cells filled so far can change places without changing the final result |
| Spreadsheet.OverlapOrderMatters | hailiang-skills/scripts/xlsx_utils.py:77-84 | Two ranges for which both orders differ |
| Spreadsheet.BuildGrid | hailiang-skills/scripts/xlsx_utils.py:104-117 | The grid lists exactly the sheet rows that have text, in order, each without trailing blanks and with every cell in its column |
| MbtiScore.ScoreAnswers | hailiang-skills/runtime_skills/mbti_self_exploration/scripts/mbti_score.py:30-53 | Incomplete exactly if some question has no usable answer, with exactly those listed in order; otherwise the scores count the answers and add up to 93, for each pair percentages, tendency and letter agree with the scores and with each other, and the four letters are those with the higher score, the first of a pair on a tie |
| MbtiScore.AnswerKeys | hailiang-skills/runtime_skills/mbti_self_exploration/scripts/mbti_score.py:36 | An answer is looked up as "mbti_001" and so on first, and under the plain number if nothing is there |
| MbtiScore.TallyCounts | hailiang-skills/runtime_skills/mbti_self_exploration/scripts/mbti_score.py:41-42 | A letter's score is the number of questions answered "A" with it as the first option or "B" with it as the second |
| MbtiScore.CountAnswers | hailiang-skills/runtime_skills/mbti_self_exploration/scripts/mbti_score.py:33-42 | Each letter's score is the number of questions answered for it; scores and missing questions add up to 93 |
| MbtiScore.RoundNear | hailiang-skills/runtime_skills/mbti_self_exploration/scripts/mbti_score.py:50-52 | A rounded fraction is within a half of the fraction and even on a tie |
| MbtiScore.RoundComplement | hailiang-skills/runtime_skills/mbti_self_exploration/scripts/mbti_score.py:50-51 | Rounding commutes with subtraction from an even number, ties included |
| MbtiScore.PercentagesSum | hailiang-skills/runtime_skills/mbti_self_exploration/scripts/mbti_score.py:49-51 | The two percentages of a pair always add up to 100 |
| MbtiScore.LeaderLeads | hailiang-skills/runtime_skills/mbti_self_exploration/scripts/mbti_score.py:49-53 | With at most 93 answers the leading letter has the strictly larger percentage and the tendency points to it |
| MbtiScore.PairAgrees | hailiang-skills/runtime_skills/mbti_self_exploration/scripts/mbti_score.py:49-53 | Score order, percentage order and sign of the tendency agree, with ties shown exactly on ties, and every figure within a half of its quotient |
| MbtiScore.RoundAbove | hailiang-skills/runtime_skills/mbti_self_exploration/scripts/mbti_score.py:50-52 | A fraction rounds above an even number exactly when it lies more than a half above it |
| MbtiScore.LeaderShowsIff | hailiang-skills/runtime_skills/mbti_self_exploration/scripts/mbti_score.py:50-52 | For every non-empty pair: the left percentage is larger if and only if the left letter leads by more than a hundredth of the answers, the tendency is positive if and only if it leads by more than a two-hundredth; below 100 answers any lead shows |
| PathCatalog.ParseSheet | hailiang-skills/scripts/build_multiroute_assets.py:107-180 | The loop that mutates the current item leaves items whose values are the row-by-row grouping |
| PathCatalog.PathItem.Add | hailiang-skills/scripts/build_multiroute_assets.py:147-180 | Appends the row's variant with the next index and folds its text and findings into the item |
| PathCatalog.ParseCatalog | hailiang-skills/scripts/build_multiroute_assets.py:99-182 | The loop over the numbered sheets leaves the groupings of their rows, one after another |
| PathCatalog.CatalogLosesNothing | hailiang-skills/scripts/build_multiroute_assets.py:99-182 | For the whole workbook: flattening the variants of all items gives the accepted rows of the numbered sheets in order, with the path and category they take over from above on the same sheet, and every item agrees with its variants |
| PathCatalog.GroupingLosesNothing | hailiang-skills/scripts/build_multiroute_assets.py:107-180 | The same for one sheet: in each item variants carry its path and category, are numbered 1..n, and the item's text and findings are exactly the join and the union over its variants |
| PathCatalog.FoundIsUnion | hailiang-skills/scripts/build_multiroute_assets.py:164-180 | The fact keys, subjects, provinces and regions of an item are exactly those of its variants, each kind by itself |
| PathCatalog.TextIsJoin | hailiang-skills/scripts/build_multiroute_assets.py:152-156 | The rule text of an item is the join of its variants' non-empty texts |
| PathCatalog.NumberedIff | hailiang-skills/scripts/build_multiroute_assets.py:104-105 | A sheet counts exactly if its name starts with digits and a point |
| PathCatalog.ItemsSplitOnlyWhereNamed | hailiang-skills/scripts/build_multiroute_assets.py:119-123 | An item after the first starts only at a row that names a path or a category other than that of the item before |
| FrontMatter.PrintSplitIff | hailiang-skills/frontend/src/utils/agentRoutingFrontmatter.ts:5-14 | Splitting a printed text gives the YAML text and the body back if and only if no line of the YAML text after its first starts with the delimiter |
| FrontMatter.SplitKeepsText | hailiang-skills/frontend/src/utils/agentRoutingFrontmatter.ts:5-14 | When splitting succeeds the YAML text ends before the first such line and the parts put together are the source, up to a missing line end after the closing delimiter; when it fails there is no opening or no closing delimiter |
| FrontMatter.Sync | hailiang-skills/frontend/src/utils/agentRoutingFrontmatter.ts:20-75 | Fails exactly for unclosed front matter, YAML errors, or a document that cannot take rules; leaves the source alone without ids; and otherwise writes front matter with a completed document in front of the unchanged body |
| FrontMatter.SyncKeepsDocument | hailiang-skills/frontend/src/utils/agentRoutingFrontmatter.ts:74 | With a YAML library that keeps what it wrote, the result splits into that text and the unchanged body and parses to the completed document, which has the old rules as a prefix and all other details of the old one |
| FrontMatter.RulesCompleted | hailiang-skills/frontend/src/utils/agentRoutingFrontmatter.ts:52-73 | Existing rules stay as a prefix, afterwards every requested id has a rule, and a second pass adds nothing |
| FrontMatter.AddedIds | hailiang-skills/frontend/src/utils/agentRoutingFrontmatter.ts:60-73 | The rules added are skeletons for exactly the requested ids that had none |
| FrontMatter.AddedOnce | hailiang-skills/frontend/src/utils/agentRoutingFrontmatter.ts:67-73 | No id is added twice |
| FrontMatter.UniqueIdsDistinct | hailiang-skills/frontend/src/utils/agentRoutingFrontmatter.ts:22 | The requested ids are the trimmed non-empty ones, each once |
| FrontMatter.UniqueIdsInOrder | hailiang-skills/frontend/src/utils/agentRoutingFrontmatter.ts:22 | The ids stand in the order of their first occurrence |
| FrontMatter.AddedInOrder | hailiang-skills/frontend/src/utils/agentRoutingFrontmatter.ts:67-73 | The rules added stand in the order of the ids |
| FrontMatter.SyncIdempotent | hailiang-skills/frontend/src/utils/agentRoutingFrontmatter.ts:20-75 | Synchronising twice is synchronising once, if the YAML library parses back what it printed for the document written |

## Left out

- Wall-clock time: waits are free to end when no permit is there, key lifetimes are an expiry action that may happen at any time, and semaphore fairness is not modelled.
- A Redis command that takes effect only after its caller has seen a timeout and moved on: an effect comes before or with the error.
- Crash and restart of a worker, and losing the whole Redis state at once.
- Releasing a lease twice, which makes a `BoundedSemaphore` raise; a turn is released once.
- `StopHoldsIff` and what follows from it ask both questions, ownership and marker, in one state; `MarkersThenOwnership` and `OwnershipThenMarkerIff` are about reads in different states.
- TurnCoordinator.Coordinator.Acquire: the method runs undisturbed, so a wait without a free permit times out; waits that others end, and all interleavings inside a call, are in the state machine.
- SseRetry.PostSseStream: the fetches, the reads, the abort flag and the event a handler throws at are parameters; the `onRetry` callback, the error texts and UTF-8 decoding are not modelled.
- SseStream.ParseChunk: JSON parsing is a parameter that says whether a text parses and carries the protocol and the ids.
- FrameGate.StateHandler.OnState: keeps the number, the branch version, the switch flag, content and status; the other store setters and the other writers of the branch versions are not modelled.
- SubjectLookup.MatchRecords: Python's sort is an insertion sort on positions whose order breaks ties by position; missing record fields are empty strings.
- SubjectLookup.BuildComboCoverage: does not model the query echo, warnings and interpretation hints of the report.
- Subjects.ParseRequirement: `itertools.product` is a function; a "no limit" result is a case of its own instead of one empty group.
- Finding the target of a query in free text, subject extraction, record formatting and the asset's other fields.
- Spreadsheet.ParseRef: decimal digits are '0' to '9' and upper-casing is that of ASCII letters; the source's `\d` and `upper` know more.
- Spreadsheet archives, XML, shared strings and cell types; the merge and grid code start from the cell map.
- MbtiScore.ScoreAnswers: quotients are exact rationals, while Python divides binary floating-point numbers and can round a quotient next to a tie the other way; a scoring rule outside the eight letters and the profile lookup are not modelled.
- PathCatalog.ParseSheet: the text scanners are a parameter, sorted lists of findings are sets, and the remaining text columns and an item's separate merged and by-province texts are not modelled.
- FrontMatter.Sync: the YAML library is a parse and a print function on documents reduced to the rules list; comments and formatting inside a document are opaque text.
- User interface, network orchestration, persistence, migrations and the agent runtime.
