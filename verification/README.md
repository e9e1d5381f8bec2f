# Verified model of the signed-request verifier

A Dafny model of the parts of this repository that decide whether a signed HTTP request is accepted, and
proofs of what those parts promise over every input and every run. Asynchronous code is a state machine whose
steps are the stretches between two suspensions; clock readings, store replies, timers and worker results come
from the environment, as parameters or constants that no step can choose. Code that updates state in place is a
class or a method with loops, proved equal to a specification function or against a relational contract; the
theorems are about the specifications and the reachable states. `dafny verify dfyconfig.toml` checks everything.

The modules, in reading order:

- `Basics`, `Codes`, `Digits`: shared values, the result catalogue, decimal digits.
- `TimePolicy`, `ClockTracker`, `OperationEpochs`, `MemoryReplayStore`, `CandidateReplay`, `VerificationEngine`,
  `SecurityController`: the replay-protection components. `ReplayProtocol` composes them into one transition
  system and proves at-most-once acceptance per epoch; `ReplayReset` proves that a first use succeeds and
  that a reset makes a second use possible.
- `RedisScript`, `RedisReplies`, `RedisHistory`, `RedisProtocol`: the Lua script on its three keys, its exact reply
  to every call, undisturbed runs of it, and at-most-once acceptance across detected losses of the history behind the
  recovery horizon; `RedisLoss` proves that a first use succeeds and that the recovery horizon is exactly the
  quarantine a policy needs: every shorter one lets some signature through twice.
- `Base64`, `Utf8`, `SfModel`, `SfSerializer`, `SfSerialized`, `SfParser`, `SfParse`, `SfReading`, `SfRoundTrip`,
  `SfParsed`, `DecimalText`: the Structured Fields codec (RFC 9651) with its limits, both round trips, and exact
  decimal rounding. `SfGrammar` says without a parser which texts spell a field; `SfSpelled`, `SfAccepted` and
  `SfExact` prove that exactly those are parsed to it, `SfLimits` that limits only ever refuse, and `SfCanonical`
  that the serializer writes the shortest spellings with fixed separators.
- `SignatureBase`: the signature base (RFC 9421) and its unique decodability. `SignatureValues`: what the value of
  a covered component is, and when there is a base.
- `FetchScheduler`, `DirectoryCache`, `DirectoryHistory`, `DirectoryRetention`, `DirectoryTransport`, `Freshness`:
  directory discovery. `DirectoryHistory` compares whole runs of a cache with unbounded records of its commits and
  failures; `DirectoryRetention` says how long a set is kept.
- `JwksInput`: the bounded copy of trusted object input. `JsonText`: the JSON texts of a value (RFC 8259), of which
  the charged size is the least length.

Points where the statements are exact about their scope:

- With the memory store, at-most-once holds per epoch: a reset clears the history by design and invalidates the old
  epoch first. Several candidates of one invocation may share one accepted consume, so invocations are counted. All
  verifiers of a run share one resolved time policy per candidate.
- Across lost Redis histories the theorem assumes one clock that never goes back, a detectable loss (at least one of
  the three keys is gone), and a horizon of at least the recovery horizon in every adapter.
- `decimalFromString` checks for more than twelve significant integer digits before it rounds. That check is implied
  by the range check after rounding (`DecimalText.TooLarge`), so refusal is stated without it.
- In `FetchScheduler` the two branches for 1000 tracked origins, and the branch that fails a job with a clock error
  after its worker returned, are proved unreachable. The failures it may record are those its events have a cause for:
  the sets of timers that fired and workers that gave no value grow only by those two events.

## Model

| member | source | states |
|---|---|---|
| `TimePolicy.CheckIsAnInterval` | packages/core/src/profiles/time-policy.ts:47-74 | for a well-formed signature the check passes exactly on a half-open interval of seconds, from created minus skew to the earlier end plus skew |
| `TimePolicy.ReasonsAreExact` | packages/core/src/profiles/time-policy.ts:47-74 | the reason given, each under exactly its own condition: an unusable clock, malformed times, too long a lifetime, a window still to come, expired, or too old |
| `TimePolicy.RetentionCoversWindow` | packages/core/src/profiles/time-policy.ts:75-96 | every time that passes the check is strictly before the retention deadline computed at consumption, so no window outlives its record |
| `TimePolicy.RetentionIsExact` | packages/core/src/profiles/time-policy.ts:75-96 | the deadline counts the whole age and skew from the later of creation and consumption, and is, below the largest timestamp, the least bound that outlasts every signature created then exactly if the age is the tighter limit; it is refused exactly past the safe range |
| `TimePolicy.HorizonSeparatesAcceptances` | packages/core/src/profiles/recovery-horizon.ts:10-16 | two times that both pass the check of one signature are less than the recovery horizon apart |
| `TimePolicy.HorizonIsExact` | packages/core/src/profiles/recovery-horizon.ts:26-36 | a bound separates every two acceptances of one signature exactly if it reaches the widest window; that is the recovery horizon exactly when the limits and the skew stay below the largest timestamp, and never more |
| `ClockTracker.ObserveAdvances` | packages/core/src/profiles/clock-tracker.ts:90-121 | one observation keeps the tracker state valid, never lowers the high-water second, and a healthy reading is at or above the previous high water |
| `ClockTracker.HealthySecondsNeverDecrease` | packages/core/src/profiles/clock-tracker.ts:90-121 | over every run of samples, healthy seconds never decrease, whatever happens between them |
| `ClockTracker.RegressionIsPermanent` | packages/core/src/profiles/clock-tracker.ts:94-101 | once a valid monotonic sample lies below an earlier valid one, that observation and every later one is unhealthy, whatever the wall samples were |
| `ClockTracker.LowSampleIsUnhealthy` | packages/core/src/profiles/clock-tracker.ts:94-101 | a valid monotonic sample below the highest one tracked ends health for good, even if other observations came in between |
| `ClockTracker.HealthIsExact` | packages/core/src/profiles/clock-tracker.ts:90-121 | over every run, an observation is healthy exactly if both samples are usable, no monotonic reading went back by then and the wall sample is within the drift of reference plus elapsed time, and reports that time and its second; otherwise the first thing that failed; a transition is a change of health |
| `ClockTracker.StartsExactly` | packages/core/src/profiles/clock-tracker.ts:57-66 | a tracker starts from every usable pair of samples and from no other |
| `ClockTracker.Tracker.Observe` | packages/core/src/profiles/clock-tracker.ts:90-121 | the mutating tracker moves to the specified next state and returns its observation, with the transition flag exactly on a change of health |
| `OperationEpochs.InFlightCountsOpenLeases` | packages/core/src/profiles/operation-epochs.ts:43-105 | after every sequence of begins, finishes, invalidations and activations, the counter equals the number of unfinished leases of the active epoch and epochs never exceed the last one issued |
| `OperationEpochs.LostLeaseStaysLost` | packages/core/src/profiles/operation-epochs.ts:70-91 | a lease that is not current is never current again, whatever follows |
| `OperationEpochs.InvalidationIsIrreversible` | packages/core/src/profiles/operation-epochs.ts:86-104 | no lease begun before an invalidation passes the gate after it, even when a new epoch opens |
| `OperationEpochs.ClosedUntilActivated` | packages/core/src/profiles/operation-epochs.ts:60-104 | after an invalidation nothing can begin before an activation succeeds, however many are refused |
| `OperationEpochs.BeginsExactly` | packages/core/src/profiles/operation-epochs.ts:60-68 | a lease that is begun passes the gate exactly if an epoch is open and fewer leases than the limit are, and no other lease is touched |
| `OperationEpochs.PassesUntilFinished` | packages/core/src/profiles/operation-epochs.ts:70-91 | over every run, a lease that passes the gate goes on passing exactly until it is finished or its epoch is closed |
| `OperationEpochs.StepIsValid` | packages/core/src/profiles/operation-epochs.ts:43-105 | every operation keeps the counter equal to the open leases and never lowers the epoch; a successful activation strictly raises it |
| `OperationEpochs.Registry.Begin` | packages/core/src/profiles/operation-epochs.ts:60-68 | a fresh lease of the active epoch, or none when closed or full; the registry's new state is the specified one |
| `OperationEpochs.Registry.AssertCurrent` | packages/core/src/profiles/operation-epochs.ts:70-75 | true exactly for an owned, unfinished lease of the active epoch |
| `OperationEpochs.Registry.Finish` | packages/core/src/profiles/operation-epochs.ts:77-84 | idempotent; lowers the count only for a lease of the active epoch |
| `OperationEpochs.Registry.Invalidate` | packages/core/src/profiles/operation-epochs.ts:86-91 | returns the number in flight, closes the epoch and clears the count |
| `OperationEpochs.Registry.ActivateNext` | packages/core/src/profiles/operation-epochs.ts:93-104 | opens the next epoch, or nothing when one is open or identifiers are exhausted |
| `MemoryReplayStore.ConsumeKeepsLiveRecords` | packages/core/src/profiles/memory-replay-store.ts:71-114 | a consume keeps every live record with its deadline, adds one exactly on acceptance, never exceeds capacity or per-key quota, and answers replayed exactly for a live identity |
| `MemoryReplayStore.OutcomeIsExact` | packages/core/src/profiles/memory-replay-store.ts:73-113 | the outcome of every call by the live records alone: replayed exactly if the identity has one, else the quota exactly if its own key has as many as one key may have, else unavailable exactly if the store is full or the call malformed, and accepted in all other cases |
| `MemoryReplayStore.ThumbprintIsHash` | packages/core/src/profiles/memory-replay-store.ts:90-93 | a thumbprint is valid exactly if it is the base64url text of 32 bytes |
| `MemoryReplayStore.Store.Consume` | packages/core/src/profiles/memory-replay-store.ts:73-113 | the lazily expiring store with counters and a next-expiry mark gives the same outcome and history as the naive store that filters expired records on every call |
| `MemoryReplayStore.Store.Expire` | packages/core/src/profiles/memory-replay-store.ts:56-69 | removes exactly the records whose deadline has come, keeps counters equal to the records per key and the mark equal to the least live deadline |
| `MemoryReplayStore.Store.Insert` | packages/core/src/profiles/memory-replay-store.ts:109-111 | adds one record and keeps counters and the least deadline exact |
| `MemoryReplayStore.Store.ClearForClockReset` | packages/core/src/profiles/memory-replay-store.ts:117-130 | forgets everything, including the last time seen, and reports how much |
| `CandidateReplay.GroupCandidates` | packages/core/src/profiles/candidate-replay.ts:39-54 | candidates with a nonce are partitioned by scope, key and nonce, members in header order and groups in the order of their first members; those without get the optional outcome |
| `CandidateReplay.Prepare` | packages/core/src/profiles/candidate-replay.ts:59-91 | the loop over a group yields the specified ready members, failures and deadline |
| `CandidateReplay.PreparedPartitions` | packages/core/src/profiles/candidate-replay.ts:62-77 | every member is either ready, in order, or has exactly its own rejection |
| `CandidateReplay.PreparedDeadline` | packages/core/src/profiles/candidate-replay.ts:68-71 | the deadline is at least that of every ready member and is one of them |
| `CandidateReplay.GroupOutcomesAreTotal` | packages/core/src/profiles/candidate-replay.ts:56-115 | whatever gate fails, a group gives exactly its members an outcome and changes no other, and a member is accepted only after an accepted store reply and a passing recheck |
| `CandidateReplay.OutcomesAreVerdicts` | packages/core/src/profiles/candidate-replay.ts:15-117 | every candidate with a nonce is told what its own group met: a closed gate, its own window or retention at dispatch, its window again at the reply, and then the store's reply, each reply with its own rejection |
| `CandidateReplay.IdentityIsExact` | packages/core/src/profiles/candidate-replay.ts:44-54 | candidates share an identity exactly if scope, key and nonce are the same |
| `CandidateReplay.CallIsExact` | packages/core/src/profiles/candidate-replay.ts:59-93 | a group is sent to the store unless its gate is closed or no member passes at dispatch: with the identity of all its members, the second of dispatch and the latest deadline of those that pass |
| `CandidateReplay.ConsumeCandidateGroups` | packages/core/src/profiles/candidate-replay.ts:32-117 | every eligible candidate ends with exactly one outcome, that of its group; accepted ones passed the checks at dispatch and after the reply; the store is asked once for each group dispatched with a member ready, for its identity and deadline, and for nothing else |
| `CandidateReplay.OneCallPerIdentity` | packages/core/src/profiles/candidate-replay.ts:49-54 | one invocation sends an identity to the store at most once, however many candidates share it |
| `VerificationEngine.VerifiedOnesAre` | packages/core/src/profiles/verification-engine.ts:85-88 | the filtered successes are exactly the verified results in order, and a first failure exists exactly when some result is not verified |
| `VerificationEngine.AggregateDecides` | packages/core/src/profiles/verification-engine.ts:81-106 | verified under the rule all exactly if there are candidates and all are verified, under any exactly if some is; otherwise the first failure's rejection; the result is never an internal error |
| `VerificationEngine.VerifiedInOrder` | packages/core/src/profiles/verification-engine.ts:85-98 | a verified request lists its verified results in header order, and is replay protected exactly if every one of them is |
| `VerificationEngine.StoreReplyIsReported` | packages/core/src/profiles/candidate-replay.ts:15-23 | of candidates whose window stays open and whose evidence holds, replay, outage and quota are reported exactly if the store replied so, and verified exactly if it accepted |
| `VerificationEngine.Verify` | packages/core/src/profiles/verification-engine.ts:115-211 | results keep header order and length; each is that of its own evaluation, evidence, final time and replay outcome, and the request is verified exactly if the rule earns it; the store is asked exactly what the groups of the eligible candidates call for, and an ambiguous or interrupted request asks it nothing |
| `VerificationEngine.GateAll` | packages/core/src/profiles/verification-engine.ts:158-165 | an eligible candidate whose evidence is lost becomes its rejection; nothing else changes |
| `VerificationEngine.FilterEligible` | packages/core/src/profiles/verification-engine.ts:166-168 | the eligible candidates in order, with their positions |
| `VerificationEngine.FinalizeAll` | packages/core/src/profiles/verification-engine.ts:183-185 | one result per evaluation, in order: a rejected one keeps its reason, an eligible one gets lost evidence, time or replay as its reason, in that order, or is verified |
| `VerificationEngine.FinalizeOne` | packages/core/src/profiles/verification-engine.ts:51-79 | the internal-invariant exceptions are unreachable: a planned candidate has an outcome of the right kind |
| `VerificationEngine.Ambiguous` | packages/core/src/profiles/verification-engine.ts:140-156 | in exactly-one mode several candidates are never verified; each keeps its own rejection, or gets the final gate's or a time failure, or the ambiguity exactly when it is still in time |
| `VerificationEngine.Unfinished` | packages/core/src/profiles/verification-engine.ts:193-197 | after a failure of the whole request no result is verified: candidates evaluated and rejected before it keep their own reason, all others get the failure, evaluated or not |
| `SecurityController.TimeReadAdvances` | packages/core/src/profiles/security-context-controller.ts:133-152 | a time read keeps the controller sound; a value comes only from an open context, a current lease and a healthy sample, and is the new high water |
| `SecurityController.OperationsAreExact` | packages/core/src/profiles/security-context-controller.ts:183-201 | a lease is begun exactly by a healthy reading of an open context with a slot free; completing succeeds exactly with a healthy reading under a current lease and retires that lease and no other |
| `SecurityController.ResetsAreExact` | packages/core/src/profiles/security-context-controller.ts:270-354 | both halves of a reset: when each goes on or fails, and everything it leaves behind in each case |
| `SecurityController.SecurityContextController.CurrentTime` | packages/core/src/profiles/security-context-controller.ts:139-152 | moves the tracker and health flag as specified and returns the second, or nothing |
| `SecurityController.SecurityContextController.BeginOperation` | packages/core/src/profiles/security-context-controller.ts:183-186 | a lease only from an open context with a healthy clock |
| `SecurityController.SecurityContextController.CompleteOperation` | packages/core/src/profiles/security-context-controller.ts:197-201 | a final time read under the lease, which it then retires |
| `SecurityController.SecurityContextController.BeginReset` | packages/core/src/profiles/security-context-controller.ts:253-262 | refused while another reset is under way; closes the context at once |
| `SecurityController.SecurityContextController.PrepareReset` | packages/core/src/profiles/security-context-controller.ts:270-290 | an unusable sample fails before anything is invalidated; otherwise the old epoch is invalidated irreversibly before any cleanup |
| `SecurityController.SecurityContextController.CommitReset` | packages/core/src/profiles/security-context-controller.ts:313-354 | a failed cleanup or an unhealthy final sample leaves the context closed; success opens the next epoch on the prepared reference |
| `ReplayProtocol.AtMostOncePerEpoch` | packages/core/src/profiles/candidate-replay.ts:56-116 | over every interleaving of invocations, clock samples, store steps and resets, no signed candidate with a nonce is returned verified by two invocations of one epoch |
| `ReplayReset.FirstUseIsVerified` | packages/core/src/profiles/candidate-replay.ts:56-116 | an undisturbed invocation of a candidate that the empty store can record and that is in its window returns it verified, and leaves the context open and idle |
| `ReplayReset.ResetAllowsASecondUse` | packages/core/src/profiles/memory-replay-store.ts:117-129 | at most once does not hold across epochs: in every context, a candidate that can be recorded at its start is verified once before and once after a reset |
| `ReplayProtocol.RegressionGuardNeverFires` | packages/core/src/profiles/memory-replay-store.ts:88-88 | in every run a dispatch never carries a time below the last one the store has seen |
| `ReplayProtocol.InFlightIsExact` | packages/core/src/profiles/operation-epochs.ts:43-105 | in every run the counter equals the open leases of the active epoch |
| `ReplayProtocol.LostInvocationIsNeverVerified` | packages/core/src/profiles/verification-engine.ts:180-185 | an invocation whose lease was lost never returns a result, whatever follows |
| `ReplayProtocol.ResetLosesEveryOpenInvocation` | packages/core/src/profiles/security-context-controller.ts:287-290 | once a reset has prepared, every invocation without a result stays without one |
| `ReplayProtocol.ClosedContextBeginsNothing` | packages/core/src/profiles/security-context-controller.ts:337-350 | after a reset that fails past invalidation no invocation begins until a reset succeeds, however many fail before it |
| `ReplayProtocol.FailedResetCloses` | packages/core/src/profiles/security-context-controller.ts:324-350 | a reset whose cleanup, final sample or activation fails leaves the context closed and the epoch number as it was |
| `ReplayProtocol.ClosedStep` | packages/core/src/profiles/security-context-controller.ts:324-336 | a closed context is opened by a successful reset and by no other step |
| `ReplayProtocol.RunKeepsInv` | packages/core/src/profiles/security-context-controller.ts:203-251 | the invariant behind these theorems: every acceptance of the open epoch is recorded until its deadline, deadlines cover the holders' windows, and later acceptances of an identity start after earlier deadlines |
| `ReplayProtocol.StoreStepKeepsLog` | packages/core/src/profiles/memory-replay-store.ts:98-112 | a store step keeps earlier acceptances covered and admits a new one only after the deadline of every earlier one for that identity |
| `ReplayProtocol.ReadyAreEntitled` | packages/core/src/profiles/candidate-replay.ts:62-90 | the deadline sent covers the window of every ready candidate of the group |
| `RedisScript.IntegerDecimal` | packages/core/src/redis/replay-script.ts:21-30 | a safe integer written in decimal is read back |
| `RedisScript.IntegerIsCanonical` | packages/core/src/redis/replay-script.ts:21-28 | two texts read as the same integer are equal, so comparing texts compares values |
| `RedisScript.ScanSucceeds` | packages/core/src/redis/replay-script.ts:130-160 | the record loop finishes without quarantine exactly when records are well formed, distinct and agree with the caller on its identity's key |
| `RedisScript.ScanKeepsLive` | packages/core/src/redis/replay-script.ts:150-158 | it collects exactly the live records, and reports a replay exactly for a live record of the identity |
| `RedisScript.ScanCountsKey` | packages/core/src/redis/replay-script.ts:150-153 | the running count of the key is the number of live records with its thumbprint |
| `RedisScript.AcceptedWithinQuota` | packages/core/src/redis/replay-script.ts:165-177 | an accepted document holds at most the capacity of records, and at most the quota of records of the accepted key |
| `RedisScript.LiveStaysOk` | packages/core/src/redis/replay-script.ts:150-158 | the live records are again well formed and distinct |
| `RedisReplies.ReplyIsExact` | packages/core/src/redis/replay-script.ts:54-177 | the reply to every call and what it leaves behind, by what arguments, keys and records spell: improper arguments, a document to be replaced, another configuration, a quarantine not over, and then only the live records of the identity, of its own key and of all keys decide |
| `RedisScript.Server.Execute` | packages/core/src/redis/replay-script.ts:30-177 | the script with its in-place keys, branches and single write gives exactly the specified reply and database |
| `RedisScript.Server.ScanRecords` | packages/core/src/redis/replay-script.ts:136-159 | the loop over records, with its early quarantine, computes the specified scan |
| `RedisScript.Server.Quarantine` | packages/core/src/redis/replay-script.ts:74-86 | writes a fresh document behind a full horizon, or nothing when it is too large |
| `RedisHistory.RoundingKeepsTheDuration` | packages/core/src/redis/replay-script.ts:55-59 | rounding up when writing and down when reading never loses a microsecond of the duration |
| `RedisHistory.QuarantineIsIntact` | packages/core/src/redis/replay-script.ts:74-86 | everything the quarantine branch writes passes validation under the configuration that wrote it |
| `RedisHistory.IntactStep` | packages/core/src/redis/replay-script.ts:97-177 | one call of the same configuration with a clock that has not gone back keeps the document valid and never answers quarantine for lost history |
| `RedisHistory.UndisturbedNeverRequarantines` | packages/core/src/redis/replay-script.ts:88-163 | over every run of such calls the quarantine deadline never changes again |
| `RedisHistory.LiveRecordSurvives` | packages/core/src/redis/replay-script.ts:150-175 | a record stays in the database with its deadline through every call made before the deadline |
| `RedisHistory.AcceptedIsNotAcceptedAgain` | packages/core/src/redis/replay-script.ts:166-177 | an identity accepted at t for a duration d is not accepted again by any call before t + d |
| `RedisProtocol.AtMostOnceAcrossLosses` | packages/core/src/profiles/recovery-horizon.ts:10-36 | with one non-regressing clock and horizons of at least the recovery horizon, no signed candidate is verified by two invocations in any run, however often the history is lost and detected |
| `RedisLoss.FirstUseIsVerified` | packages/core/src/redis/replay-script.ts:54-177 | on an undisturbed server a recordable candidate in its window is verified once the first quarantine is over |
| `RedisLoss.ShortQuarantineVerifiesTwice` | packages/core/src/profiles/recovery-horizon.ts:10-17 | if the window of a signature is open at two seconds one quarantine apart, a run with one detected loss verifies it twice |
| `RedisLoss.ShorterThanHorizonIsTooShort` | packages/core/src/profiles/recovery-horizon.ts:10-17 | for two exact seconds `wait` apart, some signature of the policy has its window open at both exactly if `wait` is shorter than the recovery horizon and the later second is before the largest timestamp plus the skew |
| `RedisLoss.ShorterQuarantineFails` | packages/core/src/profiles/recovery-horizon.ts:10-17 | for every resolved policy, every quarantine shorter than its recovery horizon, every key, nonce and adapter with room, some candidate is verified twice in a reachable state, provided the deadlines of the two rounds are exact in milliseconds |
| `RedisLoss.HorizonIsNecessaryAndSufficient` | packages/core/src/profiles/recovery-horizon.ts:10-36 | with quarantines of at least `bound` seconds no candidate of a policy is ever verified twice, exactly if `bound` reaches the recovery horizon of the policy, for policies whose deadlines are exact in milliseconds |
| `RedisProtocol.LaterAcceptanceFailsRecheck` | packages/core/src/profiles/candidate-replay.ts:94-106 | two acceptances of one candidate are so far apart that the later one fails the check after the reply |
| `RedisProtocol.RunKeepsInv` | packages/core/src/redis/replay-script.ts:74-177 | every acceptance stays guarded: still recorded, past its deadline, behind a quarantine of a full horizon, or its loss is detectable |
| `RedisProtocol.AcceptKeepsGuard` | packages/core/src/redis/replay-script.ts:166-177 | an acceptance keeps all earlier ones guarded and comes after the deadline or horizon of those with the same identity |
| `Base64.DecodeContent` | packages/structured-fields/src/serializer.ts:209-219 | decoding the base64 content of bytes gives the bytes back |
| `Base64.ContentDecode` | packages/structured-fields/src/parser.ts:278-309 | decoding any content gives bytes whose own content is that content with its unused bits cleared |
| `Utf8.DecodeEncode` | packages/structured-fields/src/serializer.ts:267-275 | decoding the UTF-8 of well-formed text gives the text back |
| `Utf8.EncodeDecode` | packages/structured-fields/src/parser.ts:320-328 | the strict decoder accepts only encodings: what it returns is well formed and encodes back to the input |
| `SfSerializer.Writer.Append` | packages/structured-fields/src/serializer.ts:62-70 | charges the output budget before it adds a chunk; the accounted length is the length of the joined chunks |
| `SfSerializer.Writer.Finish` | packages/structured-fields/src/serializer.ts:72-75 | the joined chunks |
| `SfSerializer.Writer.Key` | packages/structured-fields/src/serializer.ts:135-145 | length, syntax, duplicates and room are checked in that order |
| `SfSerializer.Writer.String` | packages/structured-fields/src/serializer.ts:224-237 | the measuring loop fails exactly as specified, before the escaped text is built |
| `SfSerializer.Writer.Display` | packages/structured-fields/src/serializer.ts:239-275 | the measuring loop rejects lone surrogates and over-long text exactly as specified; the byte loop writes the escaped UTF-8 |
| `SfSerializer.Writer.Bare` | packages/structured-fields/src/serializer.ts:174-222 | each kind of bare item ends in the specified output or error |
| `SfSerializer.Writer.Params` | packages/structured-fields/src/serializer.ts:147-161 | the parameter loop ends in the specified output or error |
| `SfSerializer.Writer.Member` | packages/structured-fields/src/serializer.ts:113-133 | items and inner lists end in the specified output or error |
| `SfSerializer.Writer.Field` | packages/structured-fields/src/serializer.ts:77-111 | fields end in the specified output or error |
| `SfSerializer.Serialize` | packages/structured-fields/src/serializer.ts:34-41 | the writer computes the specified serialization |
| `SfSerialized.SerializationSucceeds` | packages/structured-fields/src/serializer.ts:34-275 | serialization succeeds exactly on valid values within the limits whose canonical text fits the output budget, and then gives that text; no charge before the end refuses anything that fits |
| `SfCanonical.TextIsCanonical` | packages/structured-fields/src/serializer.ts:77-275 | the text written is canonical: no spelling of any bare item is shorter, padding apart; true is left out; parameters, items, members and entries stand together with the fixed separators |
| `SfLimits.ValidOrLimit` | packages/structured-fields/src/serializer.ts:34-41 | a valid value is written as its canonical text or refused for a limit that it exceeds, which the error names with what it allows, and for nothing else |
| `SfLimits.WritingLimitsOnlyRefuse` | packages/structured-fields/src/limits.ts:1-110 | under narrower limits a value is written as before, with the same error if it has one, or a limit it exceeds is named |
| `SfSerialized.WriteMemberMeaning` | packages/structured-fields/src/serializer.ts:113-133 | the same for one member, with its exact contribution to text and occurrence count |
| `SfSerialized.MeasureDisplayMeaning` | packages/structured-fields/src/serializer.ts:245-265 | the measuring loop accepts exactly well-formed text whose decoded and encoded sizes fit |
| `SfSerialized.MeasureStringMeaning` | packages/structured-fields/src/serializer.ts:228-234 | the measuring loop accepts exactly printable text whose escaped size fits |
| `SfParser.Parser.Name` | packages/structured-fields/src/parser.ts:180-191 | the cursor loop for keys and tokens reads and bounds exactly the specified text |
| `SfParser.Parser.Number` | packages/structured-fields/src/parser.ts:219-247 | integers and decimals as specified, with digit caps and error positions |
| `SfParser.Parser.String` | packages/structured-fields/src/parser.ts:258-276 | quoted strings as specified |
| `SfParser.Parser.ByteSequence` | packages/structured-fields/src/parser.ts:278-309 | base64 between colons as specified, padding optional |
| `SfParser.Parser.Display` | packages/structured-fields/src/parser.ts:311-340 | percent-escaped UTF-8 as specified |
| `SfParser.Parser.Bare` | packages/structured-fields/src/parser.ts:193-217 | the dispatch on the first character as specified |
| `SfParser.Parser.Params` | packages/structured-fields/src/parser.ts:161-178 | the parameter loop as specified, counting every occurrence |
| `SfParser.Parser.InnerList` | packages/structured-fields/src/parser.ts:135-151 | the inner-list loop as specified |
| `SfParser.Parser.List` | packages/structured-fields/src/parser.ts:91-100 | the list loop as specified |
| `SfParser.Parser.Dictionary` | packages/structured-fields/src/parser.ts:102-129 | the dictionary loop as specified, counting raw entries |
| `SfParser.Parser.Field` | packages/structured-fields/src/parser.ts:69-79 | a whole field and nothing after it |
| `SfParser.ParseRaw` | packages/structured-fields/src/parser.ts:29-47 | length, ASCII and syntax are checked in that order |
| `SfExact.ParsesExactlySpellings` | packages/structured-fields/src/parser.ts:29-340 | a text is parsed to a raw field exactly if it is ASCII and not too long, spells the field by the grammar, with any blanks, padding and zeros that allows, and the field is within the limits |
| `SfSpelled.FieldSpelled` | packages/structured-fields/src/parser.ts:69-340 | whatever is parsed spells what it is parsed to |
| `SfExact.FieldAccepted` | packages/structured-fields/src/parser.ts:69-340 | whatever spells a field within the limits is parsed to it |
| `SfLimits.GrammarOrLimit` | packages/structured-fields/src/parser.ts:29-340 | a text that spells a field is parsed to it or refused for a limit it exceeds, which the error names, and for nothing else |
| `SfLimits.LimitsOnlyRefuse` | packages/structured-fields/src/limits.ts:1-110 | under narrower limits a text is parsed as before, with the same error if it has one, or a limit it exceeds is named |
| `SfLimits.Unambiguous` | packages/structured-fields/src/parser.ts:69-79 | a text spells at most one field of a type |
| `SfParse.LastWinsMeaning` | packages/structured-fields/src/parse.ts:18-26 | resolving repeated keys keeps each key once, in the order of first occurrence, with the value given last |
| `SfParse.CollectParameters` | packages/structured-fields/src/parse.ts:18-26 | the map loop computes that resolution for parameters |
| `SfParse.ConvertDictionary` | packages/structured-fields/src/parse.ts:56-64 | the two loops resolve entries before converting members, with the same result |
| `SfParse.Parse` | packages/structured-fields/src/parse.ts:75-81 | parsing and conversion together |
| `SfExact.ValuesOfSpellings` | packages/structured-fields/src/parse.ts:28-81 | a text is parsed to a value exactly if it spells, within the limits, a field whose value that is |
| `SfReading.BareReads` | packages/structured-fields/src/parser.ts:193-340 | wherever the canonical text of a bare item stands and the next character ends it, the parser reads that item |
| `SfReading.FractionMeaning` | packages/structured-fields/src/serializer.ts:183-190 | the written fraction has one to three digits that denote the thousandths |
| `SfRoundTrip.MemberReads` | packages/structured-fields/src/parser.ts:131-151 | the same for members, with the occurrences counted |
| `SfRoundTrip.FieldConverts` | packages/structured-fields/src/parse.ts:28-66 | conversion undoes the raw tree of a value with distinct keys |
| `SfRoundTrip.PrintableField` | packages/structured-fields/src/serializer.ts:72-75 | canonical text is printable ASCII |
| `SfRoundTrip.ParseUndoesSerialize` | packages/structured-fields/src/parse.ts:75-81 | whatever the serializer writes, the parser reads back as the same value within the same limits, if the input budget covers the text |
| `SfRoundTrip.MemberTextIsInjective` | packages/structured-fields/src/serializer.ts:44-51 | the text of a member determines the member |
| `SfParsed.ParsedIsSerializable` | packages/structured-fields/src/parser.ts:29-340 | every parsed value is a valid serializer input within the limits it was parsed under, occurrences included |
| `SfParsed.SerializeAfterParse` | packages/structured-fields/src/serializer.ts:34-41 | serializing a parsed value succeeds exactly when its text fits, and parsing that text gives the value again |
| `SfParsed.SetAllBounds` | packages/structured-fields/src/parse.ts:56-64 | resolving repeated keys never increases entries or counted occurrences |
| `DecimalText.DecimalFromString` | packages/structured-fields/src/decimal.ts:16-113 | the digit scanner computes the exact value of the text times 1000, rounded half to even, or refuses |
| `DecimalText.RefusalIsExact` | packages/structured-fields/src/decimal.ts:68-104 | apart from the input budget, text is refused exactly when it is malformed or rounds out of range; more than twelve significant integer digits are always out of range |
| `DecimalText.DecimalIsExact` | packages/structured-fields/src/decimal.ts:16-113 | a text is read as a decimal exactly if it is not too long, is an optional minus, digits and perhaps a point with digits, and its value, rounded to the nearest thousandth and to the even one of two, has at most fifteen digits |
| `DecimalText.RoundIsNearest` | packages/structured-fields/src/decimal.ts:78-99 | the rounded quotient is the nearest integer, and the even one of two equally near |
| `DecimalText.LongFraction` | packages/structured-fields/src/decimal.ts:78-99 | rounding by the fourth digit, a nonzero tail and parity is rounding the exact quotient half to even |
| `DecimalText.RoundsUp` | packages/structured-fields/src/decimal.ts:78-99 | the tail loop decides rounding as that rule says |
| `DecimalText.TooLarge` | packages/structured-fields/src/decimal.ts:55-59 | more than twelve significant digits always round out of range |
| `DecimalText.UndoesDecimalText` | packages/structured-fields/src/serializer.ts:183-190 | reading the serializer's text of a decimal gives the decimal back |
| `SignatureBase.ComponentFlags` | packages/core/src/signature-base.ts:26-64 | the parameter loop and the coherence rules give the specified flags or error |
| `SignatureBase.FlagsMeaning` | packages/core/src/signature-base.ts:31-49 | parameters are accepted exactly when each is understood, and the flags say which are present with which last value |
| `SignatureBase.FlagsAreExact` | packages/core/src/signature-base.ts:26-64 | a component is accepted exactly if every parameter is understood and they go together: none of sf, bs and key on a derived one, name for a query parameter and nothing else, bs without sf and key; otherwise it is malformed |
| `SignatureBase.FirstStranger` | packages/core/src/signature-base.ts:31-49 | the first parameter that is not understood decides the error |
| `SignatureBase.CreateSignatureBase` | packages/core/src/signature-base.ts:132-194 | the loop over components, with its duplicate and size checks, computes the specified text or error |
| `SignatureValues.BaseSucceeds` | packages/core/src/signature-base.ts:132-194 | there is a base exactly if the input is acceptable, no component is covered twice, every component has a value in the message and the whole text fits |
| `SignatureValues.RequestComponent` | packages/core/src/signature-base.ts:158-180 | a component of the related request has exactly the value or error it has in the request alone, whatever the response itself says |
| `SignatureValues.DerivedComponent` | packages/core/src/signature-base.ts:164-176 | a status is the three digits of the response's own; other derived components are a request's |
| `SignatureValues.PlainField` | packages/core/src/signature-base.ts:92-112 | a field without parameters is its lines joined by commas, and missing exactly if it has none |
| `SignatureValues.FieldFails` | packages/core/src/signature-base.ts:92-119 | why a field has no structured value before it is parsed: no lines, too many bytes, no ASCII, no type, or a key in what is not a dictionary |
| `SignatureValues.StructuredField` | packages/core/src/signature-base.ts:113-128 | with sf, the canonical text of what the joined lines parse to, which parses to the same again |
| `SignatureValues.DictionaryMember` | packages/core/src/signature-base.ts:120-126 | with key, the member under that key of the dictionary the lines parse to, and missing exactly if there is none |
| `SignatureValues.BinaryField` | packages/core/src/signature-base.ts:94-111 | with bs, a list that parses to the bytes of the lines; there is one exactly if there are lines that can be decoded within the limits and fit |
| `SignatureBase.BaseMeaning` | packages/core/src/signature-base.ts:148-194 | an accepted base is one line per component, each value free of line breaks, and a last line with the signature parameters |
| `SignatureBase.UniquelyDecodable` | packages/core/src/signature-base.ts:131-194 | two equal bases, of any messages under any limits, cover the same components with the same values and the same signature parameters |
| `SignatureBase.LabelPlaysNoPart` | packages/core/src/signature-base.ts:132-194 | two inputs that differ only in the label have the same base |
| `SignatureBase.CoversOnce` | packages/core/src/signature-base.ts:150-157 | no component is covered twice |
| `FetchScheduler.AtRest` | packages/core/src/discovery/fetch-scheduler.ts:37-207 | between events the map holds exactly the active and queued jobs, at most 16 and 64 of them; waiting work has a full set of slots or an armed timer; any 33 starts span a second, one origin's starts are 30 seconds apart, and jobs start in the order of their admission; at most 960 origins are tracked; exactly the active jobs have a start on record, at a time the clock gave; each job ended at most once or is still held; a value came from a started job, at a clock reading less than 3 seconds after the start recorded for the caller that created the job; a job failed for the clock only once the clock had, for the fetch only if it was started and its worker threw or gave no value, for the deadline only if its timer fired or a reading was past its budget, and never for capacity or rate |
| `FetchScheduler.AnswerIsExact` | packages/core/src/discovery/fetch-scheduler.ts:57-126 | the answer to a caller, with each refusal under exactly its own condition on the clock, the start it brings, the job of its origin, and all past starts, counted |
| `FetchScheduler.EndingIsExact` | packages/core/src/discovery/fetch-scheduler.ts:180-199 | how a job ends with its worker: without a value, on a clock that failed, past the budget, or delivered |
| `FetchScheduler.TrackedOriginsBound` | packages/core/src/discovery/fetch-scheduler.ts:101-107 | the start rate bounds the tracked origins by 960, so the branches for 1000 are never taken |
| `FetchScheduler.SpacedApart` | packages/core/src/discovery/fetch-scheduler.ts:143-170 | starts that are 32 k apart in the history are at least k seconds apart |
| `FetchScheduler.JobCount` | packages/core/src/discovery/fetch-scheduler.ts:121-141 | the number of jobs is active plus queued |
| `FetchScheduler.RecordStart` | packages/core/src/discovery/fetch-scheduler.ts:164-169 | a start admitted below 32 recent ones keeps every second of history within the rate |
| `FetchScheduler.TrackedIsHot` | packages/core/src/discovery/fetch-scheduler.ts:73-78 | after pruning, an origin is tracked exactly if it started within the cooldown |
| `FetchScheduler.CausesStay` | packages/core/src/discovery/fetch-scheduler.ts:128-207 | as time, dispatches, rejections and timers accumulate, every failure on record keeps its cause |
| `FetchScheduler.DirectoryFetchScheduler.Run` | packages/core/src/discovery/fetch-scheduler.ts:80-126 | the answer to a caller is determined by the next clock reading, the jobs under way and past starts; an existing job is shared, and failed if its budget is spent; a new job records the caller's start, or the reading if there is none, as what its budget runs from, and nothing else changes any recorded start; a refusal changes no job; a new job leaves nothing waiting that could start |
| `FetchScheduler.DirectoryFetchScheduler.Consider` | packages/core/src/discovery/fetch-scheduler.ts:101-126 | a caller with no job under way is refused exactly for a start of its origin within the cooldown, or for a full queue with no slot or no start to be had; otherwise a job with the given start is created and nothing waits that could start |
| `FetchScheduler.DirectoryFetchScheduler.Pump` | packages/core/src/discovery/fetch-scheduler.ts:143-173 | from any state with room it terminates, nested dispatches included, with no lost wakeup; if work still waits beside a free slot, the rate of 32 starts is used up and the timer armed |
| `FetchScheduler.DirectoryFetchScheduler.Execute` | packages/core/src/discovery/fetch-scheduler.ts:175-199 | a job waits for its worker exactly if the next reading is within its budget and the worker does not throw at once; otherwise it has ended and its slot and origin are given back |
| `FetchScheduler.DirectoryFetchScheduler.WorkerSettles` | packages/core/src/discovery/fetch-scheduler.ts:180-199 | an unsettled job ends as the next clock reading decides: with the value exactly if it is within the budget; a worker without a value is noted as the cause; the origin is released and waiting work started |
| `FetchScheduler.DirectoryFetchScheduler.DeadlineTimer` | packages/core/src/discovery/fetch-scheduler.ts:121-124 | an unsettled job fails with the deadline, its timer is noted as the cause, and the scheduler looks for work |
| `FetchScheduler.DirectoryFetchScheduler.Fail` | packages/core/src/discovery/fetch-scheduler.ts:128-141 | settles once, and only for a reason that has a cause; a queued job leaves the queue and the map, an active one keeps its slot and origin |
| `FetchScheduler.DirectoryFetchScheduler.Now` | packages/core/src/discovery/fetch-scheduler.ts:57-71 | the result is the next reading of the clock or nothing; an unusable or regressing one ends all work: everything unsettled fails, the queue is empty, no timer is armed |
| `FetchScheduler.DirectoryFetchScheduler.Prune` | packages/core/src/discovery/fetch-scheduler.ts:73-78 | keeps exactly the starts within the window and the origins within the cooldown |
| `DirectoryCache.StaleStaysStale` | packages/core/src/discovery/freshness.ts:189-196 | evidence once stale at or after receipt stays stale |
| `DirectoryRetention.AnswersAreExact` | packages/core/src/discovery/directory-cache.ts:156-199 | a commit decides every later answer for its origin until the next: what its document says, exactly as long as it is fresh, could be stored, and newer sets have always left room for it; unknown in all other cases |
| `DirectoryRetention.KeptOrDisplaced` | packages/core/src/discovery/directory-cache.ts:173-184 | a stored set is kept exactly as long as the newer sets leave room for it in first-in-first-out order |
| `DirectoryCache.DirectoryCache.Commit` | packages/core/src/discovery/directory-cache.ts:156-185 | at the reading given, a valid set replaces the old one even when it cannot be retained, clears the failure of its origin, and is retained behind what is left of the others exactly if storable; the byte counter stays exact and both capacities hold |
| `DirectoryCache.DirectoryCache.MakeRoom` | packages/core/src/discovery/directory-cache.ts:173-180 | the eviction loop terminates and leaves what the specification leaves; an empty cache never lacks room |
| `DirectoryCache.RoomMeaning` | packages/core/src/discovery/directory-cache.ts:173-180 | eviction gives up the oldest slots, until there is room, and no fewer would have sufficed |
| `DirectoryCache.DirectoryCache.LookUp` | packages/core/src/discovery/directory-cache.ts:187-199 | what the stored set says of the key if it is fresh at the reading given, which is accepted or ends the clock; nothing else changes |
| `DirectoryCache.DirectoryCache.Recheck` | packages/core/src/discovery/directory-cache.ts:202-215 | true exactly if a lookup at the same reading would find the key |
| `DirectoryCache.DirectoryCache.RecordFailure` | packages/core/src/discovery/directory-cache.ts:218-244 | at the reading given, prunes what is over and notes the new deadline on the record or under the overflow deadline; a deadline past the safe range ends the clock |
| `DirectoryCache.DirectoryCache.FetchBlocked` | packages/core/src/discovery/directory-cache.ts:246-252 | at the reading given, blocked exactly by a live record or the live overflow deadline, and without a usable reading always |
| `DirectoryHistory.FoundIsLastCommit` | packages/core/src/discovery/directory-cache.ts:156-215 | last commit wins: in every run a key is found, or passes the final gate, only if the last set committed for its origin contains it and is fresh at the reading the call was given |
| `DirectoryHistory.BackoffHolds` | packages/core/src/discovery/directory-cache.ts:218-252 | in every run, after a failure of an origin every fetch within one backoff is blocked unless a valid set for it was committed in between, however many others have failed |
| `DirectoryHistory.BackoffIsExact` | packages/core/src/discovery/directory-cache.ts:218-252 | once the overflow deadline has passed, exactly what an unbounded record of failures blocks is blocked |
| `DirectoryHistory.RoomMeansExact` | packages/core/src/discovery/directory-cache.ts:218-252 | while the record has room for every failure, exactly what an unbounded record of failures blocks is blocked: no failure holds back any origin but its own |
| `DirectoryHistory.UnusableReading` | packages/core/src/discovery/directory-cache.ts:111-122 | a missing, regressing or too large reading ends the clock and nothing else: nothing is kept, found or let through |
| `DirectoryHistory.BackoffIsBounded` | packages/core/src/discovery/directory-cache.ts:218-237 | nothing is blocked for longer than one backoff from the last reading |
| `DirectoryHistory.FailureKeepsLiveRecords` | packages/core/src/discovery/directory-cache.ts:230-237 | a failure never displaces or shortens a live record |
| `DirectoryHistory.CapacitiesHold` | packages/core/src/discovery/directory-cache.ts:167-183 | in every run both capacities and the limit on records hold, with one slot per origin |
| `DirectoryHistory.RunKeeps` | packages/core/src/discovery/directory-cache.ts:111-252 | the invariant behind these theorems: every slot is the last set committed for its origin, and every live failure is covered by its record or the overflow deadline |
| `DirectoryCache.WithoutMeaning` | packages/core/src/discovery/directory-cache.ts:124-130 | removing an origin removes its slot only and its bytes exactly |
| `DirectoryTransport.DirectoryTransport.Settle` | packages/core/src/discovery/directory-transport.ts:93-112 | the outcome is determined by the fetch, the preparations and the two deadline readings; a response turns every participant's cache into the committed set or the recorded failure, once, and any other outcome changes none of them |
| `DirectoryTransport.AppliedOnlyInTime` | packages/core/src/discovery/directory-transport.ts:79-108 | a response is applied exactly if it was fetched, every preparation succeeded and both readings, before and after preparing, are within three seconds of the start on a clock that has not gone back |
| `DirectoryTransport.EndingIsExact` | packages/core/src/discovery/directory-transport.ts:79-112 | every end of a delivery, in the order of its checks, and what it leaves of the clock |
| `DirectoryTransport.AppliedIsObserved` | packages/core/src/discovery/directory-service.ts:131-151 | what a cache answers after a response was applied: a prepared set is looked up as what its document says, and an invalid document holds back fetches of its origin for one backoff |
| `DirectoryTransport.DirectoryTransport.ApplyAll` | packages/core/src/discovery/directory-transport.ts:105-107 | every participant's cache and answers become what applying its preparation once makes of them |
| `DirectoryTransport.DirectoryTransport.Run` | packages/core/src/discovery/directory-transport.ts:93-99 | coalesced callers share one delivery with the time of the first |
| `DirectoryTransport.DirectoryTransport.Register` | packages/core/src/discovery/directory-transport.ts:70-77 | at most two participants, and none after the first run |
| `DirectoryTransport.DirectoryTransport.CheckDeadline` | packages/core/src/discovery/directory-transport.ts:79-91 | the reading given decides: a clock failure for good, the deadline, or neither exactly within three seconds of the start |
| `DirectoryTransport.Participant.Apply` | packages/core/src/discovery/directory-service.ts:131-151 | a prepared set is committed, an invalid document recorded as a failure and nothing more, and the result is remembered for the response |
| `Freshness.FreshnessIgnoresOrder` | packages/core/src/discovery/freshness.ts:108-185 | header occurrences in any order give the same result |
| `Freshness.FreshnessMeaning` | packages/core/src/discovery/freshness.ts:108-187 | what the headers mean by what occurs in them: kept exactly if affordable and nothing forbids storing; not reused for the listed reasons, and otherwise for the least directive lifetime, or Expires minus Date, or the fallback, capped, less the age |
| `Freshness.FreshMeansYoung` | packages/core/src/discovery/freshness.ts:165-185 | evidence found fresh later has a current age strictly below its lifetime and the cap, which is at most five minutes |
| `Freshness.FreshMeansAllowed` | packages/core/src/discovery/freshness.ts:108-196 | evidence is fresh at a time exactly when nothing forbids it and its age then is below lifetime and cap |
| `Freshness.CalculateDirectoryFreshness` | packages/core/src/discovery/freshness.ts:108-185 | the header loop with its budget, flags and lists computes that result |
| `Freshness.Gather` | packages/core/src/discovery/freshness.ts:134-160 | the flags gathered header by header are the summary of all headers, or the budget is exceeded |
| `JwksInput.SnapshotObject` | packages/core/src/profiles/jwks-input.ts:21-150 | object input is accepted exactly when it unfolds to a finite JSON tree whose compact encoding fits the budget, and the copy is that tree, with shared references copied and cycles refused |
| `JwksInput.SizeIsLength` | packages/core/src/profiles/jwks-input.ts:52-73 | the bytes charged for a tree are the length of its compact JSON encoding in UTF-8 |
| `JsonText.SizeIsLeast` | packages/core/src/profiles/jwks-input.ts:52-128 | the bytes charged are the least number in which the value can be written as JSON, whatever blanks and escapes are chosen |
| `JwksInput.UnfoldsOnce` | packages/core/src/profiles/jwks-input.ts:82-128 | a value unfolds to at most one tree |
| `JwksInput.NoCycle` | packages/core/src/profiles/jwks-input.ts:101-101 | an object that is its own ancestor unfolds to no tree |
| `JwksInput.ArrayNeeds` | packages/core/src/profiles/jwks-input.ts:109-113 | an array costs at least one byte an item and a comma between items, so the early refusal is justified |
| `JwksInput.BuiltRepresents` | packages/core/src/profiles/jwks-input.ts:124-149 | targets filled in place by reference represent the finished tree |
| `JwksInput.Snapshot.ChargeString` | packages/core/src/profiles/jwks-input.ts:52-73 | charges exactly the encoded size, or refuses when it does not fit |
| `JwksInput.Snapshot.Copy` | packages/core/src/profiles/jwks-input.ts:82-128 | a scalar is charged and copied, an object opened with its keys charged before its values; a refusal means no tree, or one too large, or an ancestor |
| `JwksInput.Snapshot.Advance` | packages/core/src/profiles/jwks-input.ts:137-147 | one child is charged, copied and put in place, keeping what remains equal to the budget less the size plus what is owed |
| `JwksInput.Snapshot.Run` | packages/core/src/profiles/jwks-input.ts:130-150 | the stack loop terminates, with the faithful copy or for lack of one that fits |

## Left out

- Sockets, TLS, DNS, proxies, HTTP reading, abort signals and the timer queue: a fetch ends in any result at any time, a timer may fire at any time.
- Ed25519, SHA-256, key import and key-set validation: candidate evaluation ends in any evaluation, document preparation in any document.
- URI and origin parsing, and derived request components: an origin is an opaque text and a derived component value is given by a function of the context, as any text or error.
- Header validation and normalization (`headers.ts`): field lines are given normalized, as bytes.
- Option snapshotting, accessor rejection, freezing, ownership by weak maps, error messages and configuration ceilings: values arrive well typed.
- Observers and provider reentrancy: refused at entry points in the source, without effect in the model.
- Spans and offsets of the raw syntax tree: errors keep their offsets, tree nodes do not.
- Text input to the key-set loader: JSON text parsing is a platform function; only object input is modelled.
- Parsing of cache-control lists, HTTP dates and delta seconds: `Freshness` takes each header value parsed or unparseable.
- Redis command timeouts and dropped replies appear as invocations without a reply; the JSON encoding of the state document is the document itself, and exceeding the 32 MiB ceiling is a choice of the environment that writes nothing.
- The base64url JSON text of a replay identity is an arbitrary function of the identity in `RedisProtocol`; the memory store uses the tuple itself. No theorem needs it to be injective except where equal texts stand for equal identities.
- Undetectable rollback of replicated Redis data: stated as a deployment risk by the source.
- Several events of `directory-service.ts` around the participant (admission, pending refreshes, the one-fetch budget, result classification): one-pass branching over the members modelled here.
- Finding signature pairs in headers (`parseSignatureHeaders`) and agent-specific candidate selection: they would add easy members over the codec.
- JavaScript number effects: negative zero, non-integer and unsafe numbers in field values; times are whole milliseconds in the discovery modules and reals in the clock tracker.
- FetchScheduler.DirectoryFetchScheduler.Run: jobs are values in the map keyed by origin, not shared objects; promise identity is the job's number.
- JwksInput.Snapshot.Copy: targets live in a map from numbers to contents, which stands for the heap; a frame's target is filled by updating that map.
- DirectoryCache.DirectoryCache.Commit: the single use of a preparation handle is not modelled; a prepared set is a value.
