# Verification model of the Flamingo verifier

This project models the parts of the verifier that carry its promises and proves properties of them in Dafny:

- the enclave's match protocol: concurrent handlers, the replay guard, the one worker behind its executor, tokens
  and response slots (`MatchProtocol`, `MatchSafety`, `MatchRuns`, `MatchReplies`, `Executor`, `EnclaveRuns`,
  `ReplayGuard`, `ResponseSlots`, `EnclaveState`);
- the adapter from a request payload to an engine operation and the score policy (`Pipeline`);
- the padded response envelope down to its CBOR bytes (`Bytes`, `Cbor`, `SealedTypes`, `ResponseEnvelope`);
- the engine's frames and message codecs (`Framing`, `EngineInterface`), and the bytes of every wire format (`KnownBytes`,
  `Utf8Text`);
- the WebSocket session of host and client, each alone and both together (`Sockets`, `HostSession`,
  `ClientSession`, `SessionProduct`, `SessionProgress`, `SessionAgreement`);
- the attestation refresh task, the sandboxed worker's client and the client's measurement policy
  (`Attestation`, `SandboxClient`, `ClientConfig`).

`Wrappers` holds the `Option` and `Result` types of all of them.

Check everything with `dafny verify dfyconfig.toml`.

## How the model is built

**Two layers for the enclave.** `MatchProtocol` is a step system: each `await` of a handler, each step of the runtime,
each cancellation and each loss of a blocking task is an action, and of the engine only the contract of the
`BiometricEngine` trait is assumed (`ContractAllows` says which answers it may give, `AnswersDue` by when). `MatchSafety`
proves its invariant step by step, `MatchRuns` the theorems over runs, and `MatchReplies` what each reply says about its
request. `Executor` is a second step system, the mutex, deadlines and blocking work of `Executor::run`. `EnclaveRuns` puts
the handlers on top of that executor, with the sandboxed worker's client behind it, and proves that every run, with the
executor erased, is a run over the contract, so the theorems of `MatchRuns` and `MatchReplies` hold of the executor itself.
The ghost parts of the state (`holder`, `starts`, `prepared`, `answer`, `signed`, `noRoom`, `lost`) record history and never
influence a step. The shared state those steps talk about is also given as a class, `EnclaveState`, each of whose methods is
proved to be a step of that system, so that any sequence of calls follows a run.

**Meaning, not only agreement.** A method is proved equal to a function on values; what the function does is then said
once more without it, on the fields of its arguments: `JudgeIff` on the scores of an answer, `ExpectedClaimsIff` on each
claim, `OperationPlacesEntries` on the entries, `WorkerComparesTheImages` on the worker's own pictures,
`SendsOnlyPermitted` on the frames a run hands over, `KnownBytes` on the bytes.

**Two views of the session.** `HostSession` and `ClientSession` run one half over any arrivals and delays; `SessionProgress`
interleaves both halves step by step. They share the reactions to a frame, and `SessionAgreement` proves that a half ends
the same way in both.

**Libraries as answers.** What an unseen library makes of some bytes is an input of the model: whether a sealed body
opens, what decoding and the assertion check answer, what a manifest parses to, whether sealing works. Theorems hold for
every such answer. Of a loaded manifest it is assumed that slots are nonempty and strictly increasing (`ValidRelease`).
A text frame is given by what each parser makes of it, a hash by what was hashed.

**Time.** Instants are nanoseconds, slots milliseconds; elapsed time is truncated to whole milliseconds as the code does.
`lag` bounds how late the runtime runs a task whose timer fired. In the sessions a timer fires punctually, and a frame
that is there when it fires still counts, because the runtime asks the inner future first.

**Numbers.** Scores are reals or not finite. Rounding to single and double width is any pair of monotone functions that
keep the values 0, 1, -1 and 2 where the argument needs them (`SandboxClient.Sound`). Machine widths are written out
where they matter (`u64`, `usize`, the 32-bit length of a frame, request IDs).

## Findings

- The fallback without the debug report saves bytes only for reports of 24 bytes or more
  (`ResponseEnvelope.FallbackIsShorterIff`). Because a shorter report can never be what makes a response too large
  while the fallback fits, the recorded size is never zero and the reader never refuses a fallback.
- `matches.rs:78` says that every outcome after opening leaves at a slot. Two things get around that. A reply whose
  sealing task is lost returns at once (the runtime drops the task; a panic in it ends the process): it is the only kind of reply to an opened request that leaves without waiting for a
  slot (`MatchRuns.LeavesWithoutSlotIff`), it is early exactly when the loss comes before the slot
  (`MatchRuns.LeavesEarlyIff`), and some run has one (`MatchRuns.EarlyReplyExists`).
- Whole milliseconds are compared with the slots, so a reply ready less than a millisecond after a slot counts as ready on it
  and leaves at once, at the very time it was ready: with slots 100 and 200, a reply ready after 100.5 ms leaves then, one
  ready after 150 ms leaves at 200 (`ResponseSlots.JustMissedShows`). Two runs ready between the same two slots leave
  together exactly when both were ready at one time or neither is such a reply (`ResponseSlots.SameIntervalSameSlotIff`).

## Model

| member | source | states |
|---|---|---|
| ReplayGuard.ReplayGuard.Reserve | verifier/enclave/src/replay.rs:47-72 | one reservation: the answer, the new set and the flag are those of `ReserveIn` |
| ReplayGuard.ReplayGuard.Release | verifier/enclave/src/replay.rs:77-84 | one release: the pair is gone and the flag is recomputed |
| ReplayGuard.ReplayGuard.constructor | verifier/enclave/src/replay.rs:28-42 | a new guard is empty, with the given limit and the flag clear |
| ReplayGuard.ReplayGuard.IsFull | verifier/enclave/src/replay.rs:86-90 | reads the flag |
| ReplayGuard.CallKeepsConsistent | verifier/enclave/src/replay.rs:47-84 | any call keeps size within the limit and the flag exact, and changes the size by exactly its gain |
| ReplayGuard.Bookkeeping | verifier/enclave/src/replay.rs:47-90 | after any calls in any order: size is reservations minus releases and never above the limit, the flag is set exactly when there is no room |
| ReplayGuard.HeldIsProcessed | verifier/enclave/src/replay.rs:47-84 | a pair is in the set exactly when its last effective call was a reservation |
| ReplayGuard.AnswersAfterAnyRun | verifier/enclave/src/replay.rs:51-63 | a held pair is answered Replayed, full or not; a new one Internal exactly when there is no room |
| ReplayGuard.FreshIsConsistentIff | verifier/enclave/src/replay.rs:35-42 | the flag is right from the start exactly for a positive limit |
| ResponseSlots.ReleaseAtIsFirst | verifier/enclave/src/routes/matches.rs:81-83 | the chosen slot is the first at or after the elapsed milliseconds, none when all are earlier |
| ResponseSlots.LeavesAtSlot | verifier/enclave/src/routes/matches.rs:81-85 | a response leaves on that slot, or at once when it is past it by less than a millisecond or past the last slot |
| ResponseSlots.SameIntervalSameSlotIff | verifier/enclave/src/routes/matches.rs:78-84 | two runs ready between the same two slots leave at one instant exactly when they were ready at one instant or neither was ready within the millisecond after the earlier slot |
| ResponseSlots.IntervalSlot | verifier/enclave/src/routes/matches.rs:81-84 | a run ready between two slots leaves on the later one, exactly unless it was ready within the millisecond after the earlier one: then at once |
| ResponseSlots.JustMissedShows | verifier/enclave/src/routes/matches.rs:81-84 | slots 100 and 200: ready after 100.5 ms leaves at once, ready after 150 ms leaves at 200 |
| ResponseSlots.EarlyRejectionIsNotEarly | verifier/enclave/src/routes/matches.rs:97-113 | a rejection before the pipeline is known never leaves before the first slot of any pipeline |
| ResponseSlots.HostWaitCovers | verifier/enclave/src/routes/encryption_key.rs:9-30 | the announced latest slot covers every punctual response of every pipeline and is one of their last slots |
| ResponseSlots.FoundPipeline | verifier/enclave/src/routes/matches.rs:125-127 | the first pipeline of the asked number, within the largest size limit; none exactly when none has it |
| ResponseSlots.LeavesWhenDue | verifier/enclave/src/routes/matches.rs:79-85 | in absolute time: a response is due on the first slot whose millisecond is not over when it is ready, or at once when every slot's is |
| ResponseSlots.LargestRequestIff | verifier/enclave/src/routes/matches.rs:32-37 | a size is within the largest request exactly when it is within some pipeline's limit |
| ResponseSlots.LatestFirstSlotIff | verifier/enclave/src/routes/matches.rs:107-113 | the latest first slot is the latest: no more and no less than some pipeline's first slot |
| MatchSafety.PrepareSucceedsIff | verifier/enclave/src/routes/matches.rs:101-151 | preparation succeeds exactly for a request that named the release, passed its size, strictness, assertion and layout checks and asks for a new pair the set has room for, and its result is then exactly that request's, each claim by itself |
| MatchSafety.PrepareSucceeds | verifier/enclave/src/routes/matches.rs:144-150 | a successful preparation reserved its own new pair and nothing else |
| MatchSafety.PrepareFails | verifier/enclave/src/routes/matches.rs:114-151 | a refused preparation reserves nothing and names the first check the request fails, or the replay set's refusal when it fails none; its reason is Internal exactly when a new pair found no room |
| MatchSafety.PrepareSlots | verifier/enclave/src/routes/matches.rs:107-128 | the slots are the pipeline's once it is known, before that the latest first slot |
| MatchSafety.LoadedIff | verifier/enclave/src/state.rs:103-121 | exactly when a manifest is accepted, and that the first accepted one stays |
| MatchSafety.ExpectedClaimsIff | verifier/sealed-types/src/messages.rs:16-31 | field by field: the request's own pair, the values of its verified assertion, the configuration it asked for and the hashes of its compared entries; none exactly when the assertion fails |
| MatchSafety.ReplayIsCheckedLast | verifier/enclave/src/routes/matches.rs:144-145 | a request that fails no check is refused as Replayed exactly when its pair is held, as Internal exactly when it is new and there is no room |
| MatchSafety.ArrivalErrorIff | verifier/enclave/src/routes/matches.rs:25-37 | exactly which bodies are let in to be opened, and which of the two errors turns the others away |
| MatchSafety.JudgeIff | verifier/enclave/src/routes/matches.rs:157-216 | on the fields of the answer: a token exactly when every score passes, a rejection exactly when the answer explains it (the first score below the threshold under its own role, or the engine's reason with its report), NotReady exactly for Busy, an internal error exactly for a fault |
| MatchSafety.JudgeIsSound | verifier/enclave/src/routes/matches.rs:187-216 | every sealed judgement is a rejection with an admissible report, and none seals an internal failure |
| MatchSafety.StepKeeps | verifier/enclave/src/routes/matches.rs:20-85 | every step of every handler, cancellations and lost blocking tasks included, interleaved in any way, keeps the invariant of the whole system |
| MatchRuns.AtMostOncePerPair | verifier/enclave/src/routes/matches.rs:144-145 | over every run, inference is dispatched at most once per (`aud`, `nonce`) and each dispatched pair is in the set |
| MatchRuns.DispatchedPairStays | verifier/enclave/src/replay.rs:74-84 | a dispatched pair stays in the set for the rest of the boot |
| MatchRuns.OnlyUndispatchedOwnerReleases | verifier/enclave/src/routes/matches.rs:190-195 | a pair leaves the set only by Busy, to its one owner, whose inference was never dispatched; it can then be reserved again |
| MatchRuns.ReleasedIff | verifier/enclave/src/routes/matches.rs:190-195 | a pair leaves the set exactly when the engine answers Busy to the request prepared for it |
| MatchRuns.HistoryGrows | verifier/enclave/src/state.rs:103-121 | the loaded release never changes, an overrun is never taken back, no dispatch is forgotten |
| MatchRuns.SuccessIsEarned | verifier/enclave/src/routes/matches.rs:205-240 | each sealed success passed every check and was dispatched under its own pair; its entries went to the engine in their places; each score of the engine's recorded answer, one for every comparison, is at most 1 and at least 0.80 plus 0.05 for each level; the token's claims are this request's, field by field |
| MatchRuns.TokenSignsComparedImages | verifier/sealed-types/src/messages.rs:16-31 | the signed hashes are those of exactly the images the engine compared, in role order |
| MatchRuns.SuccessesAreDistinct | verifier/enclave/src/routes/matches.rs:219-240 | no two sealed successes of a boot share an (`aud`, `nonce`) |
| MatchRuns.RepliesLeaveAtSlots | verifier/enclave/src/routes/matches.rs:54-85 | every reply to an opened request leaves when it is due (`DueAt`: on the first slot whose millisecond is not over, or at once past the last), at most `lag` late, except the error of a lost task, which leaves at once; without slots leave exactly refusals on arrival, bodies that do not open and lost openings, never a sealed result |
| MatchRuns.LeavesWithoutSlotIff | verifier/enclave/src/routes/matches.rs:65-84 | a reply to an opened request leaves without having waited for a slot exactly when some step of the run lost its task |
| MatchRuns.LeavesEarlyIff | verifier/enclave/src/routes/matches.rs:65-84 | it leaves before its slot exactly when its task was lost before that slot |
| MatchRuns.LostHistory | verifier/enclave/src/lib.rs:36-49 | a request is marked as lost exactly when some step of the run lost its task |
| MatchRuns.EarlyReplyExists | verifier/enclave/src/routes/matches.rs:65-77 | a run that loses a sealing task and replies 100 ms before its slot |
| MatchRuns.EngineAnswersInTime | verifier/enclave/src/biometric_engine.rs:126-127 | no open engine call is past one of its slots, or past its start if that was later, by more than `lag` |
| MatchRuns.TimeNeverLocks | verifier/enclave/src/routes/matches.rs:79-85 | the bounds on time never stop it: in every reachable state it can move on, or a due reply can leave, or a due engine call can be answered |
| MatchRuns.OverrunIsFinal | verifier/enclave/src/state.rs:146-160 | after an overrun the engine was terminated exactly once and every later arrival is refused |
| MatchRuns.NoOverrunNoTermination | verifier/enclave/src/state.rs:151-160 | the engine is terminated exactly when a request overran, and once |
| MatchRuns.SealedInternalIff | verifier/enclave/src/replay.rs:55-63 | a sealed reason is Internal exactly when the request passed every check and found the set without room as it finished opening |
| MatchReplies.RejectionIsExplained | verifier/enclave/src/routes/matches.rs:54-77 | over every run, a sealed rejection says what happened: what the engine's recorded answer means, or, when it was never asked, the first check the request fails or the replay set's refusal |
| MatchReplies.SuccessIsSigned | verifier/enclave/src/routes/matches.rs:219-240 | a sealed success carries the attestation of its own signing and the report of the answer it was judged by |
| MatchReplies.NotReadyIsBusy | verifier/enclave/src/routes/matches.rs:189-195 | after opening the only errors are NotReady, exactly when the engine answered Busy, and an internal one |
| MatchReplies.TimeoutIsPastEverySlot | verifier/enclave/src/routes/matches.rs:54-57 | an engine timeout comes only after every slot of the request |
| MatchReplies.OverranIff | verifier/enclave/src/routes/matches.rs:197-200 | a boot has overrun exactly when some request was answered with an engine timeout |
| MatchReplies.ArrivalIsRecorded | verifier/enclave/src/routes/matches.rs:24 | slots and deadlines are counted from the time of the step in which this request arrived with this body |
| Executor.StepKeepsInvariant | verifier/enclave/src/biometric_engine.rs:169-189 | every step keeps one owner, a matching fair queue, coherent tasks and the time bounds |
| Executor.AnswersAreTrue | verifier/enclave/src/biometric_engine.rs:174-188 | Busy was never dispatched and waited five seconds or past its deadline, every other answer was dispatched, a result is the work's own, a timeout comes only after the deadline, and at most one work item has the worker |
| Executor.DispatchIsPunctual | verifier/enclave/src/biometric_engine.rs:175-184 | work is dispatched strictly before its deadline and within the queue bound, plus `lag` |
| Executor.CallersAnsweredInTime | verifier/enclave/src/biometric_engine.rs:174-188 | no waiting caller is past its queue bound and no caller of running work past its deadline by more than `lag` |
| Executor.TimeNeverLocks | verifier/enclave/src/biometric_engine.rs:174-188 | in every reachable state time can move on, or a due caller can be answered or pick up its lock |
| Executor.SettledNeverRuns | verifier/enclave/src/biometric_engine.rs:174-184 | a waiter that was cancelled or answered Busy never runs, however the run goes on |
| Executor.LongestWaiterIsNext | verifier/enclave/src/biometric_engine.rs:174-178 | over every run, the lock next goes to a waiter that entered no later than any other in the queue |
| Executor.RefinesLock | verifier/enclave/src/biometric_engine.rs:174-188 | the executor is a single-owner lock: cancelling a caller whose work runs does not free it, and it goes to the longest waiter |
| EnclaveRuns.StepRefines | verifier/enclave/src/biometric_engine.rs:124-128 | each step with the real executor is a step the engine contract allows: its answers are admissible, and time passes only as far as the contract lets an answer wait |
| EnclaveRuns.TickRefines | verifier/enclave/src/biometric_engine.rs:126-127 | the executor answers by the deadline: whenever it lets time pass, so does the contract |
| EnclaveRuns.StepKeepsInStep | verifier/enclave/src/biometric_engine.rs:237-251 | handler and executor keep agreeing on every engine call |
| EnclaveRuns.RunRefines | verifier/enclave/src/biometric_engine.rs:124-154 | every run with the executor, the executor erased, is a run over the contract, answering by the deadline included |
| EnclaveRuns.EnclaveDispatchesOncePerPair | verifier/enclave/src/routes/matches.rs:190-203 | on the executor itself, with cancelled waiters, cancelled runners and Busy retries: at most one dispatch per pair |
| EnclaveRuns.EnclaveAnswersInTime | verifier/enclave/src/biometric_engine.rs:126-127 | on the executor itself no open engine call is past its deadline, or its start, by more than `lag` |
| EnclaveRuns.EnclaveTimeNeverLocks | verifier/enclave/src/biometric_engine.rs:174-188 | handlers and executor together: time can move on, or a due reply can leave, or a due call can be settled |
| EnclaveRuns.DispatchesAreRecorded | verifier/enclave/src/biometric_engine.rs:183-188 | every work item the executor ever dispatched is one of the recorded inferences |
| EnclaveRuns.EnclaveSuccessesAreDistinct | verifier/enclave/src/routes/matches.rs:219-240 | on the executor itself no two sealed successes share a pair |
| EnclaveRuns.AnswerMeansIff | verifier/enclave/src/biometric_engine.rs:223-251 | each error a handler is answered means one thing that happened to its work, and that only; every other answer is the client's accepted scores |
| EnclaveRuns.EnclaveSuccessIsEarned | verifier/enclave/src/biometric_engine.rs:278-345 | end to end: the result behind a sealed success is what the worker returned for this request's own work, and each of its similarities, normalised, reaches the level the request asked for |
| EnclaveState.EnclaveState.constructor | verifier/enclave/src/state.rs:53-95 | a boot holds the initial protocol state: nothing loaded, nothing processed, no overrun |
| EnclaveState.EnclaveState.LoadRelease | verifier/enclave/src/state.rs:103-121 | the protocol's load step: the first accepted manifest stays, and loading succeeds exactly for a manifest of this bundle with the loaded hash |
| EnclaveState.EnclaveState.ResetOverrunningEngine | verifier/enclave/src/state.rs:152-160 | the flag is set and the engine terminated, but only the first time, so once in all |
| EnclaveState.EnclaveState.Admit | verifier/enclave/src/routes/matches.rs:25-37 | the protocol's arrival step: the request is turned away with the arrival error or begins to open |
| EnclaveState.EnclaveState.Open | verifier/enclave/src/routes/matches.rs:40-51 | the protocol's opening step: the guard, the slots and the next phase it gives, whether or not the caller still waits |
| EnclaveState.EnclaveState.Prepare | verifier/enclave/src/routes/matches.rs:101-151 | slots, result and the guard afterwards are those of the protocol's preparation |
| EnclaveState.CheckRequest | verifier/enclave/src/routes/matches.rs:129-143 | the checks in order, ending in the first refusal or the prepared request |
| EnclaveState.EnclaveState.Settle | verifier/enclave/src/routes/matches.rs:187-216 | the protocol's answer step: the shared state and the request's next phase it gives; the engine is terminated at most once |
| EnclaveState.EnclaveState.Perform | verifier/enclave/src/routes/matches.rs:20-85 | any step of the protocol performed on the object: calls in sequence follow a run, with at most one termination |
| EnclaveState.LocalStep | verifier/enclave/src/routes/matches.rs:20-85 | every other step leaves the release, the guard, the flag and the terminations alone |
| EnclaveState.CheckScores | verifier/enclave/src/routes/matches.rs:206-214 | the loop stops at the first failing score and finds none exactly when all pass |
| Pipeline.TakeCompared | verifier/enclave/src/pipeline.rs:87-97 | taking entries by untrusted indices succeeds exactly for distinct indices in range and yields them in `compare` order |
| Pipeline.Take | verifier/enclave/src/pipeline.rs:91-97 | takes one slot, or nothing out of range or twice, and leaves every other slot alone |
| Pipeline.TakeFirst | verifier/enclave/src/pipeline.rs:99-101 | the partner is the first entry left over |
| Pipeline.AnyLeft | verifier/enclave/src/pipeline.rs:102-104 | whether a second entry is left over |
| Pipeline.LiveCaptureOf | verifier/enclave/src/pipeline.rs:129-150 | exactly the plain and the two LightGuard layouts make a live capture; the lit frame is the entry whose metadata says so, the other the unlit one, and the compared entry's metadata names the matching frame |
| Pipeline.AssignRoles | verifier/enclave/src/pipeline.rs:105-126 | popping the compared entries puts each in its place, or refuses metadata outside the live capture |
| Pipeline.OperationFor | verifier/enclave/src/pipeline.rs:81-127 | the adapter succeeds exactly for admissible payloads, with the one operation that puts every entry in its place |
| Pipeline.AdmissibleIff | verifier/enclave/src/pipeline.rs:74-127 | admissible, said of the entries alone: a known pipeline, no hints, distinct indices in range, and no metadata but on one LightGuard pair of the compared live entry and the one entry not compared |
| Pipeline.OperationPlacesEntries | verifier/enclave/src/pipeline.rs:81-150 | an operation is the payload's exactly when the credential, the challenge and the lit and unlit frames are each the data of the right entry, and the matching frame is the compared one |
| Pipeline.EntriesConserved | verifier/enclave/src/pipeline.rs:87-104 | compared and left-over entries are together all entries, each once |
| Pipeline.ImagesArePermutation | verifier/enclave/src/pipeline.rs:81-127 | the images of an operation are a permutation of all entry data; a second live frame is there exactly when one entry was left over |
| Pipeline.ComparedImagesAreSelected | verifier/enclave/src/pipeline.rs:105-150 | the engine compares the images `compare` selects, in that order, with the matching frame as the live one |
| Pipeline.CheckScore | verifier/enclave/src/pipeline.rs:59-72 | no failure exactly for a number in 0..=1 at the threshold; Internal exactly out of that range; below the threshold exactly the reason of its own role |
| Pipeline.ThresholdLevels | verifier/enclave/src/pipeline.rs:17-55 | exactly the levels 1 to 3 have a threshold, 0.80 plus 0.05 for each |
| Pipeline.NoFailureIff | verifier/enclave/src/routes/matches.rs:206-214 | no comparison fails exactly when every score passes |
| Pipeline.FirstFailureIsFirst | verifier/enclave/src/routes/matches.rs:206-214 | the failure is that of the first comparison that does not pass, under its own role |
| Pipeline.InRangeNeverInternal | verifier/enclave/src/pipeline.rs:64-70 | scores in range are never an internal failure |
| ResponseEnvelope.ToPaddedCbor | verifier/sealed-types/src/response.rs:60-84 | writes exactly the envelope of what is delivered, or refuses |
| ResponseEnvelope.WriteEnvelope | verifier/sealed-types/src/response.rs:73-83 | length, payload and zero padding, copied into a zeroed buffer |
| ResponseEnvelope.FromPaddedCbor | verifier/sealed-types/src/response.rs:89-112 | accepts exactly what the strict reader accepts, with its value |
| ResponseEnvelope.EnvelopeRoundTrip | verifier/sealed-types/src/response.rs:60-112 | what is encoded has the fixed length and opens to the response, or to it without its report exactly when the full form does not fit |
| ResponseEnvelope.FallbackIsShorterIff | verifier/sealed-types/src/response.rs:63-72 | omitting the report saves bytes exactly from 24 bytes on |
| ResponseEnvelope.AcceptedIff | verifier/sealed-types/src/response.rs:60-76 | a valid response is refused exactly when not even its shortest form fits |
| ResponseEnvelope.MalformedIff | verifier/sealed-types/src/response.rs:130-145 | refused as malformed exactly for a report above the cap or a recorded size of zero, and no such response is ever read |
| ResponseEnvelope.RejectionAlwaysFits | verifier/sealed-types/src/response.rs:60-84 | a rejection with an admissible report travels with its report intact |
| ResponseEnvelope.RejectionReachesClient | verifier/sealed-types/src/response.rs:44-54 | no rejection built at the engine boundary ever becomes an encoding error; the client reads the same reason and report |
| ResponseEnvelope.PaddingIsChecked | verifier/sealed-types/src/response.rs:99-103 | any nonzero padding byte is refused |
| ResponseEnvelope.LengthIsExact | verifier/sealed-types/src/response.rs:92-110 | with any other declared length, shorter or longer, the envelope is refused |
| ResponseEnvelope.ResponseReadsBack | verifier/sealed-types/src/messages.rs:45-62 | reading the written schema value gives the same response, for every constructor |
| ResponseEnvelope.ResponseSize | verifier/sealed-types/src/response.rs:60-76 | every response is encodable and its exact encoded size is known |
| SealedTypes.DebugReportFrom | verifier/sealed-types/src/response.rs:44-54 | a report is kept exactly up to the cap; above it its size is recorded |
| Cbor.EncodedSize | verifier/sealed-types/src/response.rs:62-64 | the length of an encoding, computed without encoding (sections 3 and 3.1 of RFC 8949) |
| Cbor.DecodeEncode | verifier/sealed-types/src/response.rs:104-110 | an encoded item decodes to itself and leaves what follows it |
| Cbor.DecodeExtends | verifier/sealed-types/src/response.rs:104-110 | a decoded item is decoded the same way when more bytes follow |
| Cbor.NoPrefixDecodes | verifier/sealed-types/src/response.rs:104-110 | no proper prefix of an encoding is a whole item |
| Bytes.BigEndianRoundTrip | verifier/engine-interface/src/framing.rs:50-57 | a number that fits reads back from its bytes |
| Bytes.BigEndianUnique | verifier/engine-interface/src/framing.rs:24-31 | bytes are the only writing of their number at that width |
| Bytes.BigEndianDigit | verifier/engine-interface/src/framing.rs:55 | each byte is the digit of its weight, the most significant first |
| Utf8Text.Utf8Iff | verifier/engine-interface/src/lib.rs:178-186 | bytes are taken for UTF-8 exactly when they are the encodings of Unicode scalar values, one after another (section 3 of RFC 3629) |
| KnownBytes.FrameLayout | verifier/engine-interface/src/framing.rs:1-2 | a frame is its length in four bytes, most significant first, and the payload |
| KnownBytes.RequestLayout | verifier/engine-interface/src/lib.rs:121-132 | a request is its ID in eight bytes, most significant first, and the payload |
| KnownBytes.ResponseLayout | verifier/engine-interface/src/lib.rs:146-167 | where a response's ID, verdict, report flag and report lie, and the byte of each verdict |
| KnownBytes.EnvelopeLayout | verifier/sealed-types/src/response.rs:73-83 | an envelope is the payload's length in four bytes, the payload, and zeros to 96 KiB |
| KnownBytes.CborExamples | verifier/sealed-types/src/response.rs:62-64 | encodings listed in appendix A of RFC 8949 |
| KnownBytes.FrozenRejection | verifier/sealed-types/src/response.rs:219-229 | the one payload whose bytes the repository freezes, in 59 bytes |
| KnownBytes.RejectionBytes | verifier/sealed-types/src/messages.rs:53-61 | every rejection without a report, byte by byte |
| KnownBytes.SuccessBytes | verifier/sealed-types/src/messages.rs:34-52 | every success without a report, byte by byte |
| KnownBytes.ReportBytes | verifier/sealed-types/src/response.rs:8-24 | the three forms of a debug report, byte by byte |
| KnownBytes.ReasonNames | verifier/sealed-types/src/errors.rs:73-109 | the wire name of each reason that carries nothing |
| KnownBytes.BelowThresholdBytes | verifier/sealed-types/src/errors.rs:28-38 | a comparison below its threshold, byte by byte, for each role |
| KnownBytes.MatchingFailedBytes | verifier/sealed-types/src/errors.rs:28-38 | a comparison that failed, byte by byte, for each role |
| KnownBytes.RejectedNames | verifier/sealed-types/src/errors.rs:15-105 | the wire names of the fields, places and reasons of a rejected image or input |
| Framing.Reader.Read | verifier/engine-interface/src/framing.rs:11-22 | a short read moves bytes from the stream to the buffer, zero only at the end |
| Framing.Reader.ReadExact | verifier/engine-interface/src/framing.rs:22-39 | fills the rest of the buffer from the stream under any schedule, or meets its end |
| Framing.Reader.ReadFrame | verifier/engine-interface/src/framing.rs:9-40 | one call does what `ParseFrame` says, whatever short reads and interrupts happen |
| Framing.Writer.WriteAll | verifier/engine-interface/src/framing.rs:55-57 | writes all bytes, or as many as there is room for |
| Framing.Writer.WriteFrame | verifier/engine-interface/src/framing.rs:46-58 | writes the frame's bytes, or refuses an empty, oversized or unrepresentable payload before writing anything |
| Framing.ReadAll | verifier/engine-interface/src/framing.rs:9-40 | reading frame after frame gives exactly the drained list and end; only a transport failure cuts it short |
| Framing.WholeStream | verifier/engine-interface/src/framing.rs:9-58 | reading concatenated writes gives the payloads written, then a clean end |
| Framing.CutStream | verifier/engine-interface/src/framing.rs:9-40 | cut at any byte: the whole frames before the cut, then a clean end exactly on a frame boundary |
| Framing.ParsedFrameIsWritten | verifier/engine-interface/src/framing.rs:24-40 | every frame read is the writer's form of its payload |
| Framing.CleanStreamIsWire | verifier/engine-interface/src/framing.rs:9-40 | a stream that ends cleanly is nothing but the written forms of the frames read off it |
| Framing.RejectedIff | verifier/engine-interface/src/framing.rs:12-38 | exactly why a frame is refused: a length of zero or above the limit, or an end too soon |
| EngineInterface.EncodeRequest | verifier/engine-interface/src/lib.rs:121-132 | builds the one wire form, or refuses an empty or oversized payload or an ID of zero |
| EngineInterface.EncodeResponse | verifier/engine-interface/src/lib.rs:146-167 | builds the one wire form, or refuses an ID of zero or an oversized report |
| EngineInterface.RequestWireIff | verifier/engine-interface/src/lib.rs:121-144 | bytes decode to a request exactly when they are its encoding |
| EngineInterface.ResponseWireIff | verifier/engine-interface/src/lib.rs:146-202 | bytes decode to a response exactly when they are its encoding |
| EngineInterface.TooLargeIff | verifier/engine-interface/src/lib.rs:134-175 | bytes are refused as too large exactly above the codec's limit, before anything else is read |
| EngineInterface.FrameLimitsCoincide | verifier/engine-interface/src/lib.rs:18-25 | the codec limits and the frame limits of both directions are the same limits |
| Sockets.Socket.ReceiveBy | verifier/client/src/session.rs:257-264 | one bounded receive: the next event if it arrives in time, otherwise the deadline |
| Sockets.Socket.SendBy | verifier/host/src/routes/matches.rs:125-134 | one bounded send: done, failed, or given up at the deadline, after which a later send can still be done |
| Sockets.ListenEndsByDeadline | verifier/host/src/routes/matches.rs:155-175 | no ignored frame extends a wait |
| Sockets.PingsAreInvisible | verifier/host/src/routes/matches.rs:180-204 | with all pings taken out, the same frame is heard at the same time |
| HostSession.NextClientMessage | verifier/host/src/routes/matches.rs:155-175 | the first frame other than a ping decides, within one deadline |
| HostSession.NextMatchFrame | verifier/host/src/routes/matches.rs:180-204 | the first frame other than a ping decides; only nonempty frames within the limit are taken |
| HostSession.FirstFrameDecides | verifier/host/src/routes/matches.rs:155-175 | pings aside, exactly which first frame leads to each outcome of the first wait, and when it ends |
| HostSession.MatchFrameDecides | verifier/host/src/routes/matches.rs:180-204 | the same for the wait for the sealed match, with the limits on its size |
| HostSession.RunMatchFacts | verifier/host/src/enclave.rs:79-89 | the match call takes at most the metadata timeout, the latest slot and the grace period, and gives the enclave's answer |
| HostSession.RunMatchWaits | verifier/host/src/enclave.rs:79-89 | the match call waits exactly until five seconds after the latest slot, and the metadata call two seconds; which answer or error each case gives |
| HostSession.ServeSocket | verifier/host/src/routes/matches.rs:71-119 | the phases in order, each under its own deadline, ending as the session on values does |
| HostSession.RelaySocket | verifier/host/src/routes/matches.rs:102-118 | one match call, then its result within the response limit |
| HostSession.Session | verifier/host/src/routes/matches.rs:56-69 | serving, then one deadline for an error envelope and the close |
| HostSession.HostLanguage | verifier/host/src/routes/matches.rs:56-119 | for every input and timing: a prefix of assignment and sealed result, at most one error envelope, a close; at most one call, after a sent assignment, with a nonempty frame within the limit that arrived here |
| HostSession.HostDeliversIff | verifier/host/src/routes/matches.rs:71-119 | a session hands over the assignment and the enclave's answer to a body exactly when, pings aside, every frame, call and write comes within its own limit |
| HostSession.FailureIsExplained | verifier/host/src/routes/matches.rs:71-119 | over every input and timing, each failure is what its error says: whose call failed and how, an oversized answer, or a frame that could not be handed over |
| HostSession.TeardownIff | verifier/host/src/routes/matches.rs:56-69 | error envelope and close share one deadline: the close is done exactly when both writes fit in it |
| HostSession.PermitIsBounded | verifier/host/src/routes/matches.rs:52-69 | a session, which holds the permit, lasts at most five idle timeouts, nine seconds and the latest slot |
| HostSession.SessionIgnoresPings | verifier/host/src/routes/matches.rs:155-204 | pings change nothing about a whole session: what it sends and calls, when and how it ends |
| ClientSession.SendMessage | verifier/client/src/session.rs:267-277 | a send that fails and one that times out are told apart |
| ClientSession.RequestAssignment | verifier/client/src/session.rs:171-193 | request and answer under one deadline; only a verified assignment is returned |
| ClientSession.ExchangeMatch | verifier/client/src/session.rs:196-238 | local checks first, then one sealed frame and one answer under one deadline; what the checks let through and refuse is `SendsOnlyPermitted` and `RefusalsIff` |
| ClientSession.RequestMatch | verifier/client/src/session.rs:66-80 | the exchange, then a close whatever it came to |
| ClientSession.ClientLanguage | verifier/client/src/session.rs:171-238 | for every input and timing: the request, at most one match sealed for a key verified from an assignment of this same socket, a close; at most three timeouts |
| ClientSession.SendsOnlyPermitted | verifier/client/src/session.rs:196-220 | every binary frame of every run is the request sealed, within the limit, under the key of an assignment this socket delivered, that was verified and lists the request's release |
| ClientSession.RefusalsIff | verifier/client/src/session.rs:204-220 | under a verified assignment, each local refusal is the result exactly when its check fails, in order, and nothing but the close is then handed over |
| ClientSession.AssignmentFailsIff | verifier/client/src/session.rs:171-193 | pings aside, exactly when the assignment fails, and with which error |
| ClientSession.ResultFailsIff | verifier/client/src/session.rs:220-238 | pings aside, exactly when a sent request fails, and with which error |
| ClientSession.CloseIff | verifier/client/src/session.rs:66-80 | the close has a full timeout of its own |
| ClientSession.ClientSucceedsIff | verifier/client/src/session.rs:171-238 | a session ends with a result exactly when, pings aside, both writes and both frames come within their phase's timeout, the assignment is verified and lists the release, the request seals within the limit and the answer opens to that result |
| ClientSession.ClientIgnoresPings | verifier/client/src/session.rs:171-238 | pings change nothing about a whole session of the client |
| SessionProduct.HalvesFit | verifier/client/src/session.rs:171-238 | any client run against any host run over an ordered transport: neither finds a message out of order, malformed, empty or oversized, and an accepted result answers the very body the client sealed |
| SessionProgress.StepKeeps | verifier/host/src/routes/matches.rs:71-119 | every joint step keeps phases and messages on their way fitting together |
| SessionProgress.NeverStuck | verifier/host/src/routes/matches.rs:71-119 | in every reachable joint state one half has a step, until both are done |
| SessionProgress.StepsRunOut | verifier/client/src/session.rs:171-238 | every step of a half uses up a measure, which only a ping adds to |
| SessionProgress.RunsAreShort | verifier/client/src/session.rs:171-238 | a run with p pings has at most 26 + 2 p steps |
| SessionProgress.OneResult | verifier/client/src/session.rs:196-238 | every interleaving ends in the one result the inputs determine |
| SessionAgreement.JointRunIsTwoSessions | verifier/host/src/routes/matches.rs:56-119 | a half that is done in a joint run ended exactly as the whole session of that half ends on the events it heard |
| Attestation.NewAttestedKey | verifier/enclave/src/attestation.rs:72-90 | there is a key to serve exactly when the first attestation succeeds |
| Attestation.AttestedKey.Refresh | verifier/enclave/src/attestation.rs:96-143 | the loop over the attestor's answers leaves the cache, the time and the task as `Turns` says |
| Attestation.ServesLastSuccess | verifier/enclave/src/attestation.rs:110-148 | while the task runs, the served document is the last successful attestation of this key, dated when it was handled |
| Attestation.AgeIsBounded | verifier/enclave/src/attestation.rs:12-18 | its age stays below the servable age (or the age the boot's document had when the refresh started) plus one interval plus the attestation under way |
| Attestation.RunsOnIff | verifier/enclave/src/attestation.rs:108-143 | the task runs on exactly while every attempt succeeds or is refused with the served document younger than the servable age; a panic ends it |
| Attestation.SurvivesFailuresIff | verifier/enclave/src/attestation.rs:120-131 | a run of failures is survived exactly while intervals and attempts fit in the servable age |
| Attestation.FailuresEndTheTask | verifier/enclave/src/attestation.rs:120-131 | an attestor that only fails ends the task once that many intervals fill the servable age |
| Attestation.SixFailuresEndTheTask | verifier/enclave/src/attestation.rs:120-131 | with the default interval that is the sixth failure in a row at the latest |
| SandboxClient.AddImages | verifier/sandbox-client/src/client.rs:163-170 | checked additions over one field's images, refusing an empty or oversized one |
| SandboxClient.AddFields | verifier/sandbox-client/src/client.rs:143-171 | the running total over every field, none when something does not fit |
| SandboxClient.ValidateImages | verifier/sandbox-client/src/client.rs:137-178 | accepts exactly the operations all of whose images are there, of a known kind, within their limit and within both totals |
| SandboxClient.SendableIff | verifier/sandbox-client/src/client.rs:137-178 | sendable, said of the images: every field there with a known source, every image nonempty and within its limit, and both totals kept |
| SandboxClient.ValidateIff | verifier/sandbox-client/src/client.rs:26-37 | limits are accepted exactly when an image fits a request, a request fits 32 bits and neither exceeds the worker protocol's own |
| SandboxClient.SentFitsProtocol | verifier/sandbox-client/src/client.rs:26-37 | under validated limits whatever is sent respects the worker protocol's frame and image bounds and a 32-bit length |
| SandboxClient.Decode | verifier/sandbox-client/src/client.rs:180-216 | exactly which replies are accepted, recoverable, or one of three violations |
| SandboxClient.SandboxClient.Evaluate | verifier/sandbox-client/src/client.rs:86-111 | answered IDs strictly increase and none is used twice; exactly when a request is answered, and when it is refused before; an accepted reply carries its request's ID and operation and valid scores |
| SandboxClient.NormalizedIsMonotone | verifier/enclave/src/biometric_engine.rs:197-199 | a score in -1..=1 normalises into 0..=1, in the same order, with the ends kept |
| SandboxClient.WorkerSeesTheImages | verifier/enclave/src/biometric_engine.rs:254-350 | the worker is sent exactly the operation's images, in its order |
| SandboxClient.WorkerComparesTheImages | verifier/enclave/src/biometric_engine.rs:254-276 | the pictures the worker matches, of a LightGuard pair the frame it is told to, are the ones the engine compares and the token signs, in role order |
| SandboxClient.WorkerRoles | verifier/enclave/src/biometric_engine.rs:254-345 | the credential travels as an orb picture, the challenge as an RTMS one, the live capture as it was taken with both frames in place |
| SandboxClient.AnswerKeepsFields | verifier/enclave/src/biometric_engine.rs:301-345 | each score of the answer is the normalised similarity of the reply's own field, with the reply's report |
| SandboxClient.AcceptedReplyIsJudged | verifier/enclave/src/biometric_engine.rs:291-345 | an accepted reply always has the result and the scores the engine expects, and they are never an internal failure |
| ClientConfig.CheckWellFormed | verifier/client/src/config.rs:169-175 | lengths and unique indices, by inserting into a set |
| ClientConfig.CheckPinned | verifier/client/src/config.rs:177-184 | whether an index is pinned to a nonzero value |
| ClientConfig.BuildConfig | verifier/client/src/config.rs:185-197 | the built configuration holds exactly the measured indices with their values |
| ClientConfig.BuildVerifier | verifier/client/src/config.rs:145-200 | a verifier is built exactly for an age within bounds and either skipped checks or at least one acceptable configuration, and it holds exactly those configurations |
| ClientConfig.AcceptableIff | verifier/client/src/config.rs:165-193 | acceptable, said of the values: 48 bytes each, no index twice, and PCR0 to PCR2 measured with something else than zeros |
| ClientConfig.UsableIff | verifier/client/src/config.rs:145-165 | usable exactly with an age of at most three hours, and skipped checks or at least one configuration, all acceptable |
| ClientConfig.LaterChecksCannotFail | verifier/client/src/config.rs:185-193 | once well formed and pinned, PCR0 is found, has 48 bytes and is not zero |
| ClientConfig.RepresentationIsUnique | verifier/client/src/config.rs:194-198 | a configuration determines its map, with 48-byte values and nonzero PCR0 to PCR2 |

## Left out

- Cryptography and libraries that are not part of this repository: channel sealing and opening, signatures, assertion and
  attestation checks, manifest parsing and request decoding are answers the model starts from. Hashes and tokens are symbols.
- Boot, keys, provisioning, TLS, URLs, flags, logging, health and discovery routes.
- Tables that map errors to HTTP statuses or wire names one to one; an `ImageFailureReason` is its wire name of at most 33 bytes.
- The handler and `Executor::run` are step systems rather than classes, because their behaviour is in how many calls interleave
  at awaits; the state they share is also modelled in place by `EnclaveState`.
- A request that is queued when the engine overruns is not claimed to stay undispatched: the flag is read on arrival only. What
  is proved is that later arrivals are refused and the engine is terminated once. The process exit after the grace period is
  not modelled.
- A cancelled request keeps its pair reserved; nothing is claimed about getting it back.
- ResponseEnvelope.FromPaddedCbor: takes maps of definite length with the written fields in the written order. The original's
  reader also accepts fields in another order, unknown fields and indefinite lengths; tags, floats and arrays are not
  modelled. Failures of the CBOR writer cannot happen in memory and are left out.
- Allocation failure while a frame body is read, and a flush that fails after a whole frame was written.
- The worker protocol's own constants and its protobuf encoding are parameters; readiness frames are left out.
- JSON and base64 are symbolic: a text frame is what each parser makes of it, and a frame the program writes parses as itself only.
- Pongs the socket layer sends by itself, and timers of a session that fire late.
- The two attestation caches of one boot are one class, used twice; its supervisor, which exits the process when a refresh task
  ends, is left out.
- Attestation.AttestedKey.Refresh: takes the attestor's next answers as a finite list of any length, because the loop itself never ends.
- SandboxClient.SandboxClient.Evaluate: a transport failure of the worker, which ends the process inside the connection, does not return and is not modelled.
- HostSession.PermitIsBounded: counts from the start of the session. The permit is taken before the upgrade
  (`verifier/host/src/routes/matches.rs:46-53`), and the time the upgrade takes is not bounded by this code.
- The table from the worker's failure codes to reasons (`verifier/enclave/src/error.rs`): a `FaceFailure` holds the reason its
  codes map to.
