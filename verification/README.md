# Ponos control protocols: a Dafny model with proofs

Ponos is the off-chain part of the Hourglass framework. An aggregator broadcasts tasks to the executors of
an AVS and collects signed results; executors run the tasks in containers, and a Kubernetes operator keeps
performer pods alive. This project models the control protocols of these programs, and the arithmetic and
byte encodings they rest on, and proves properties of them for every input and every interleaving.

Code that runs in several goroutines is a step relation: `Step` performs one atomic step of one goroutine
and leaves the state unchanged when that step is not possible, `Exec` runs an arbitrary schedule of steps,
and the theorems quantify over all schedules and any number of goroutines. Answers of Docker, Kubernetes,
the store, other servers and abstract components are part of the schedule. Operations that update fields
are also methods of classes with those fields, proved against specification functions; the `AloneIsASchedule`
and `SoloCallIsASchedule` lemmas, `Broadcast.CollectIsASchedule` and the contract of `Reconcile` connect an
operation that runs undisturbed with its protocol steps.

| file | subject |
|---|---|
| `Wrappers.dfy` | the option type shared by the modules |
| `Bytes.dfy`, `HexText.dfy` | big-endian words, zero padding, hex text and letter case |
| `SigningBytes.dfy` | bytes signed by aggregator and executor, request validation |
| `OperatorInfoLeaf.dfy` | ABI encoding of an operator-info leaf |
| `NumberText.dfy` | hex numbers of the demo worker |
| `Backoff.dfy` | restart delays and the gRPC retry loop |
| `Liveness.dfy` | failure counters of the two polling loops |
| `RestartAttempt.dfy` | one restart attempt in its two implementations |
| `RestartRace.dfy` | concurrent restart attempts against the restart limit |
| `AvsRegistry.dfy` | concurrent registration and deregistration of AVSs |
| `TaskDedup.dfy` | executor-side deduplication of tasks |
| `PerformerRace.dfy` | racing creation of performers |
| `Rehydration.dfy` | start-up of the executor from stored state |
| `Broadcast.dfy` | fan-out of a task and fan-in of its results |
| `Tokens.dfy` | single-use challenge tokens |
| `Reconciler.dfy` | the Performer controller |
| `OperatorWeights.dfy` | from the operator table to the weights of a session |

Where an expected property does not hold of the code, the exact condition is proved and, where the failure
is a run, such a run is constructed:

- The restart limit is exact for one caller only; k callers can exceed it by k - 1, and do in
  `RestartRace.BoundIsReached`.
- A failed start removes the map entry by address, so it can remove the entry of a later registration:
  `AvsRegistry.OrphanHappens`; it takes a deregistration and a second registration of the address between
  the first one's store and its failed start (`OrphanNeedsReplacement`).
- The first restart delay is not capped: `Backoff.NeverShrinksIff`.
- `Status.Ready` keeps its old value when no pod is found: `Reconciler.ReadyIsTruthfulIff`, and a run that
  leaves it set without a pod: `StaleReadyHappens`.
- `Process` never reads its error channel: `Broadcast.ErrorNeverWakesProcess`, and a run: `FailureHappens`.
- Peers are filtered up to letter case and looked up by exact spelling: `OperatorWeights.KeptPeerWeights`
  for one peer and `SessionConservesWeight` for the session.
- The two restart implementations differ for a disabled policy and for a context that ends during a send:
  `RestartAttempt.AttemptsAgreeIff`, `DenialCanBeSilent`.
- The inflight table loses the id of a running call when another call of that id finishes:
  `TaskDedup.InflightIff`, and a run: `OverlapSucceedsTwice`.
- Tasks are deduplicated by the exact spelling of their id, while the signed message does not depend on its
  letter case: `TaskDedup.OneSuccessPerSpelling`.
- Printing a negative number with an even count of hex digits gives text that does not parse:
  `NumberText.RoundTripIff`.
- The comment above `TaskSubmissionSignatureData.ToSigningBytes` lists the payload digest twice
  (ponos/pkg/util/signatures.go:21-25); the code writes it once and the model follows the code.

## Model

| member | source | states |
|---|---|---|
| Bytes.PaddedIntegerIsWord | ponos/pkg/util/signatures.go:41-54 | A fixed-width integer in zero padding is the 32-byte ABI word of its value |
| Bytes.DigitAt | ponos/pkg/util/signatures.go:41-54 | The byte at each place of a big-endian number is the digit of that weight, the most significant one first |
| HexText.FoldedHexDecodesAlike | ponos/pkg/util/signatures.go:30-39 | Letter case never changes the bytes decoded from hex text, well-formed or not |
| HexText.LowerKeysAgreeIff | ponos/pkg/executor/handlers.go:289 | Two AVS addresses share a performer key iff they are equal up to letter case |
| HexText.FixedHexFaithful | ponos/pkg/executor/handlers.go:888-932 | On well-formed hex of one length, equal bytes mean equal text up to letter case, and conversely |
| HexText.DecodedPairs | ponos/pkg/util/signatures.go:30-39 | Hex text decodes to one byte per pair, high digit first, up to the first pair that is not one |
| HexText.FixedHexValue | ponos/pkg/util/signatures.go:30-39 | A well-formed task id or address is, as hash or address, the number it spells |
| SigningBytes.PutUint32 | ponos/pkg/util/signatures.go:41-44 | The four bytes at the offset become the big-endian value and all others stay |
| SigningBytes.PutUint64 | ponos/pkg/util/signatures.go:51-54 | The eight bytes at the offset become the big-endian value and all others stay |
| SigningBytes.SubmissionToSigningBytes | ponos/pkg/util/signatures.go:26-60 | The appended slices are the seven ABI words of the submission, 224 bytes |
| SigningBytes.ResultToSigningBytes | ponos/pkg/types/task.go:77-99 | The appended slices are the five ABI words of the record, 160 bytes |
| SigningBytes.SubmissionWordsLayout | ponos/pkg/util/signatures.go:26-60 | Hash, padded addresses, numbers and digest stand at these places of the 224 bytes |
| SigningBytes.ResultWordsLayout | ponos/pkg/types/task.go:77-99 | Hash, padded addresses, operator set and digest stand at these places of the 160 bytes |
| SigningBytes.SubmissionRoundTrip | ponos/pkg/util/signatures.go:26-60 | Decoding the 224 bytes gives back hash, addresses, numbers and digest |
| SigningBytes.ResultRoundTrip | ponos/pkg/util/signatures.go:73-97 | Decoding the 160 bytes gives back hash, addresses, operator set and digest |
| SigningBytes.SubmissionBytesIff | ponos/pkg/util/signatures.go:10-60 | Well-formed submissions encode equally iff they agree up to letter case of id and addresses |
| SigningBytes.ResultBytesIff | ponos/pkg/util/signatures.go:63-97 | The same for result and authentication records |
| SigningBytes.SignedMessageFields | ponos/pkg/taskSession/taskSession.go:364-380 | For version 1 and no other, the signed message decodes to the fields of the task, the address of the executor and the hash of the payload |
| SigningBytes.RebuiltMessageFields | ponos/pkg/executor/handlers.go:751-772 | The executor rebuilds the encoding of the request with its own address in place of the one in the request |
| SigningBytes.SameMessageIff | ponos/pkg/util/taskMessageVersion.go:51-74 | Two tasks give an executor the same message iff ids and AVS addresses agree up to letter case and numbers and payload hashes agree |
| SigningBytes.EncodedResultFields | ponos/pkg/util/taskMessageVersion.go:34-48 | For version 1 and no other, a result message decodes to its fields and the hash of the output |
| SigningBytes.SentRequestIsValidIff | ponos/pkg/taskSession/taskSession.go:240-251 | The request sent to a peer carries its address and signature, and passes validation iff task, addresses and signature do |
| SigningBytes.ExecutorRebuildsSignedBytes | ponos/pkg/executor/handlers.go:751-772 | An executor whose address passes EqualFold rebuilds exactly the bytes the aggregator signed for it |
| SigningBytes.MessageBindsExecutor | ponos/pkg/taskSession/taskSession.go:364-380 | Two well-formed addresses give the same signed message iff they are equal up to letter case |
| SigningBytes.ValidateTaskSubmission | ponos/pkg/executor/handlers.go:888-943 | Validation passes iff all four hex fields are well-formed, a signature is present and the timestamp is not zero |
| SigningBytes.FirstFailedCheck | ponos/pkg/executor/handlers.go:888-943 | A refused request gets the error of the first of the fourteen checks that fails |
| SigningBytes.AcceptedSubmissionsIff | ponos/pkg/executor/handlers.go:888-943 | Two accepted requests have equal signing bytes iff they differ in letter case only |
| OperatorInfoLeaf.LeafLayout | ponos/pkg/util/encode.go:30-75 | Packing by the general ABI rules gives salt, offset 0x20, X, Y, offset 0x60, length and the weights |
| OperatorInfoLeaf.LeafStartsWithSalt | ponos/pkg/util/encode.go:71-75 | A leaf is 0x75 followed by five words and one word per weight |
| OperatorInfoLeaf.LeafRoundTrip | ponos/pkg/util/encode.go:30-75 | The leaf decodes to key and weights modulo 2^256 for any number of weights |
| OperatorInfoLeaf.DecodedLeafIsCanonical | ponos/pkg/util/encode.go:30-75 | Bytes that decode are the encoding of what they decode to |
| OperatorInfoLeaf.LeafInjective | ponos/pkg/util/encode.go:30-75 | Leaves are equal iff key and weights agree modulo 2^256 |
| NumberText.PrintedLengthEven | demo/main.go:38-47 | Printed numbers have an even number of characters |
| NumberText.DigitsAreCanonical | demo/main.go:38-47 | Printed digits are in lower case and without needless zeros |
| NumberText.ParseHexIff | demo/main.go:24-36 | A payload parses to i iff it, or what follows one 0x, is hex digits behind at most one sign that spell i |
| NumberText.PrintedParses | ponos/pkg/util/utils.go:141-150 | Parsing a printed natural number gives it back |
| NumberText.RoundTripIff | demo/main.go:24-47 | Printing and parsing an integer gives it back iff it is not negative or has an odd number of hex digits |
| NumberText.HandleTaskSquares | demo/main.go:58-78 | A task succeeds iff its payload parses, and its result is the printed square and parses to it |
| NumberText.PrintedNumberSquares | demo/main.go:58-78 | The worker squares every printed natural number |
| Backoff.CalculateRestartDelay | ponos/pkg/containerManager/dockerManager.go:1238-1255 | The early-exit loop computes the delay function of policy and restart count; count zero gives the base delay, every other count at most the cap |
| Backoff.ScaleIsQuotient | ponos/pkg/containerManager/dockerManager.go:1245-1247 | One multiplication gives the quotient truncated toward zero, for either sign |
| Backoff.DelayAtCap | ponos/pkg/containerManager/dockerManager.go:1243-1252 | A base delay that is not below the cap is never multiplied: later delays are the cap |
| Backoff.CappedPowerIff | ponos/pkg/containerManager/restartManager.go:170-187 | The delay is the capped power of the multiplier for all counts iff the multiplier is at least one or the cap is not in force from the start |
| Backoff.RetryAgreementIff | ponos/pkg/clients/grpcRetry.go:112-117 | Restart loop and retry interceptor wait equally long at every attempt under exactly that condition |
| Backoff.RestartDelayMonotone | ponos/pkg/containerManager/dockerManager.go:1238-1255 | From count one on the delay never shrinks |
| Backoff.NeverShrinksIff | ponos/pkg/containerManager/dockerManager.go:1239-1241 | The whole sequence is monotone, and capped, iff the base delay respects the cap |
| Backoff.IntermediateBound | ponos/pkg/containerManager/dockerManager.go:1245-1247 | Every value of the loop stays within one multiplication of the cap |
| Backoff.RetryUnary | ponos/pkg/clients/grpcRetry.go:86-122 | Attempts, verdict and sleeps of the retry loop, for any results of the calls |
| Backoff.SleepsFollow | ponos/pkg/clients/grpcRetry.go:112-117 | The first sleep is the initial delay as it is, each later one the scaled and capped one before it |
| Liveness.Watch | ponos/pkg/containerManager/dockerManager.go:902-992 | The loop reports and counts as the counter function of the polls seen so far |
| Liveness.CounterRange | ponos/pkg/containerManager/dockerManager.go:957-989 | After each poll the counter is zero or below the threshold, for any threshold |
| Liveness.CrossingIff | ponos/pkg/containerManager/dockerManager.go:913-957 | A poll crosses iff the container is gone or it completes a multiple of threshold consecutive failures |
| Liveness.HealthyIff | ponos/pkg/containerManager/dockerManager.go:933-955 | A poll reports health iff the container runs and, in the liveness loop, some failures since have not been part of a crossing |
| Liveness.CrossingBudget | ponos/pkg/containerManager/dockerManager.go:906-989 | Crossings not caused by a missing container, times the threshold, are at most the failed polls |
| Liveness.LoopsAgreeIff | ponos/pkg/containerManager/dockerManager.go:507-549 | Health loop and liveness loop cross at the same polls iff each missing container falls on a due count |
| RestartAttempt.ContainerMonitor.AttemptRestartInlined | ponos/pkg/containerManager/dockerManager.go:1094-1235 | Result, restart count and channel after one attempt: as many of its events as fit, in order |
| RestartAttempt.ContainerMonitor.AttemptRestartManaged | ponos/pkg/containerManager/restartManager.go:57-167 | The same for the restart manager, whose denial may take the context case of its send |
| RestartAttempt.ContainerMonitor.ShouldRestart | ponos/pkg/containerManager/restartManager.go:34-54 | Allowed iff enabled and below the limit, with the delay of the current count |
| RestartAttempt.ContainerMonitor.Send | ponos/pkg/containerManager/eventManager.go:22-38 | A send never waits, loses or reorders nothing that is in the channel, and its event arrives iff there is room and the context case is not taken |
| RestartAttempt.AttemptsAgreeIff | ponos/pkg/containerManager/restartManager.go:57-167 | Both implementations behave alike iff: at the limit, the denial is sent; otherwise the policy is enabled and no send is given up for the context while the attempt goes on, or it is disabled and both end silently for the context |
| RestartAttempt.DenialCanBeSilent | ponos/pkg/containerManager/dockerManager.go:1113-1116 | At the limit, with room in the channel and an ended context, one implementation delivers the refusal and the other may not |
| RestartAttempt.RunsAgreeIff | ponos/pkg/containerManager/dockerManager.go:1094-1235 | Over any run of attempts the outcomes agree iff every attempt meets that condition |
| RestartAttempt.EnabledRunsAgree | ponos/pkg/containerManager/restartManager.go:57-167 | With an enabled policy and a living context all runs agree |
| RestartAttempt.SequentialLimit | ponos/pkg/containerManager/dockerManager.go:1096-1118 | For one caller at a time the limit is exact and, once reached, final; each later attempt fails without a Docker call and reports it, except for a managed denial under an ended context |
| RestartRace.RestartBound | ponos/pkg/containerManager/dockerManager.go:1094-1118 | In every interleaving of k callers, count plus attempts in flight plus uncounted direct restarts is at most M - 1 + k plus direct restarts, and so are the real restarts |
| RestartRace.BoundIsReached | ponos/pkg/containerManager/dockerManager.go:744-750 | For every limit and number of callers a schedule reaches the bound |
| RestartRace.ReachableInv | ponos/pkg/containerManager/dockerManager.go:726-755 | The real restarts are the counted ones plus those not yet counted, of callers and of direct calls, at all times |
| RestartRace.AttemptGivenUp | ponos/pkg/containerManager/dockerManager.go:1094-1118 | An attempt on its own passes the check iff no limit is set or it is not reached, and leaves no trace if it gives up |
| RestartRace.AttemptCompleted | ponos/pkg/containerManager/dockerManager.go:744-750 | An attempt that passes and restarts adds one to both counts |
| RestartRace.DirectRestartCounts | ponos/pkg/containerManager/dockerManager.go:726-755 | A direct restart counts whatever the limit, in a step of its own |
| RestartRace.NewLimitDecides | ponos/pkg/containerManager/dockerManager.go:757-773 | A new limit decides about the next check and about nothing else |
| AvsRegistry.StoredIsLive | ponos/pkg/aggregator/aggregator.go:181-295 | In every interleaving stored contexts are not cancelled, belong to one AVS each, and failed registrations are cancelled |
| AvsRegistry.LiveAtQuiescence | ponos/pkg/aggregator/aggregator.go:181-295 | When all calls have returned the live contexts are the stored ones and the uncancelled orphans |
| AvsRegistry.OrphanNeedsBoth | ponos/pkg/aggregator/aggregator.go:250-254 | An entry is lost to another failed start only if some start fails and some AVS is deregistered |
| AvsRegistry.OrphanNeedsReplacement | ponos/pkg/aggregator/aggregator.go:245-295 | Every orphan had been stored at an address where, in this order, a registration was stored, the address deregistered, another registration of it stored, and the entry removed by the failed start of the first |
| AvsRegistry.EventsAreChanges | ponos/pkg/aggregator/aggregator.go:522-546 | The events of that history are the changes of the map: one registration stored at a free address, one address deregistered, one entry removed by a failed start |
| AvsRegistry.LiveIsStoredWithoutFailedStart | ponos/pkg/aggregator/aggregator.go:245-295 | Without one of the two the live contexts at quiescence are exactly the stored ones |
| AvsRegistry.OrphanHappens | ponos/pkg/aggregator/aggregator.go:541-546 | A schedule that leaves a registered AVS without entry and its context live |
| AvsRegistry.Aggregator.RegisterAvs | ponos/pkg/aggregator/aggregator.go:181-260 | Error and new fields of an undisturbed registration, for any results of its calls |
| AvsRegistry.Aggregator.DeregisterAvs | ponos/pkg/aggregator/aggregator.go:262-295 | Error and new fields of an undisturbed deregistration |
| AvsRegistry.Aggregator.StoreAvsManager | ponos/pkg/aggregator/aggregator.go:522-538 | Stores iff the address has no entry |
| AvsRegistry.Aggregator.RemoveAvsManager | ponos/pkg/aggregator/aggregator.go:541-546 | Removes whatever entry the address has |
| AvsRegistry.RegisterAloneIsASchedule | ponos/pkg/aggregator/aggregator.go:181-260 | For any results of its calls, the protocol steps of one undisturbed goroutine end with the effect and the verdict of the registration |
| AvsRegistry.AnyAloneScheduleRegisters | ponos/pkg/aggregator/aggregator.go:181-260 | So does every schedule of these steps after which the call has returned |
| AvsRegistry.DeregisterAloneIsASchedule | ponos/pkg/aggregator/aggregator.go:262-295 | The same for the deregistration |
| TaskDedup.DoubleSuccessOverlaps | ponos/pkg/executor/handlers.go:294-306 | Two successes for one id: the later check precedes the earlier mark unless one of these two store calls failed |
| TaskDedup.SequentialCallsSucceedOnce | ponos/pkg/executor/handlers.go:294-389 | With a store that never fails, calls whose windows do not overlap succeed at most once per id |
| TaskDedup.SuccessIsFinal | ponos/pkg/executor/handlers.go:294-389 | After a success that reached a working store, no call for the id that starts later succeeds, in any interleaving |
| TaskDedup.TimesAreStepTimes | ponos/pkg/executor/handlers.go:294-389 | The recorded times of check, mark, begin and delete are those of the steps |
| TaskDedup.InflightOnlyRunning | ponos/pkg/executor/handlers.go:340-341 | The inflight table holds ids of running calls only and is empty when all calls have returned |
| TaskDedup.InflightIff | ponos/pkg/executor/handlers.go:340-341 | In every schedule an id is in the table iff some running call of it began after every deferred delete of that id so far |
| TaskDedup.LaterCallRestoresEntry | ponos/pkg/executor/handlers.go:340-341 | An id can be in the table although a call of it finished after a still running one began, because a third one began later |
| TaskDedup.InflightExactForDistinctIds | ponos/pkg/executor/handlers.go:340-341 | With distinct ids the table holds exactly the ids of the running calls |
| TaskDedup.OverlapSucceedsTwice | ponos/pkg/executor/handlers.go:294-389 | Overlapping calls for one id can both succeed, and the first one's delete hides the second |
| TaskDedup.WholeCallSucceedsIff | ponos/pkg/executor/handlers.go:294-389 | On a store that works an undisturbed call succeeds iff the store does not know its id |
| TaskDedup.OneSuccessPerSpelling | ponos/pkg/executor/storage/badger/badger.go:266-285 | Accepted requests with one signed message have ids equal up to letter case; handled one after the other, both succeed iff the ids are spelled differently |
| TaskDedup.Executor.HandleReceivedTask | ponos/pkg/executor/handlers.go:281-390 | Success iff all nine conditions hold, otherwise the error of the first that fails; processed ids and inflight table change for these cases only |
| TaskDedup.SoloCallIsASchedule | ponos/pkg/executor/handlers.go:281-390 | For any request and any results of its calls, the protocol steps of one undisturbed call end with the success and the tables of the handler |
| TaskDedup.AnySoloScheduleHandles | ponos/pkg/executor/handlers.go:281-390 | So does every schedule of these steps after which the call has returned |
| PerformerRace.OnePerformerPerAvs | ponos/pkg/executor/handlers.go:245-279 | In every interleaving all callers for one address get the one stored performer, which is up |
| PerformerRace.EntryNeverChanges | ponos/pkg/executor/handlers.go:262-275 | A map entry never changes once set |
| PerformerRace.DuplicatesAreShutDown | ponos/pkg/executor/handlers.go:262-275 | When all callers have returned, exactly the performers neither stored nor failed to initialize have been shut down |
| PerformerRace.NoErrorsNoLeak | ponos/pkg/executor/handlers.go:245-279 | Without errors every performer that is not stored has been shut down |
| PerformerRace.LoserReturnsWinner | ponos/pkg/executor/handlers.go:262-275 | A caller that loses the race shuts its performer down and returns the stored one |
| PerformerRace.EveryCallerReturns | ponos/pkg/executor/handlers.go:245-279 | From every state the own steps of a caller take it to its end |
| PerformerRace.Executor.GetOrCreateAvsPerformer | ponos/pkg/executor/handlers.go:245-279 | Result and map of an undisturbed call |
| PerformerRace.SoloCallIsASchedule | ponos/pkg/executor/handlers.go:245-279 | The protocol steps of one undisturbed caller have that effect for any results of its calls, errors included |
| Rehydration.Executor.RehydratePerformersFromStorage | ponos/pkg/executor/executor.go:256-363 | Each AVS without performer gets the first docker state of its own that rehydrates; exactly states with a failed rehydrate call are deleted; the counters are exact and add up with map and store |
| Rehydration.Executor.RehydrateOne | ponos/pkg/executor/executor.go:276-354 | The loop body handles one more state, as rehydrated, failed or skipped, under the lower-case address |
| Rehydration.Executor.Initialize | ponos/pkg/executor/executor.go:123-253 | On success every configured AVS has its one performer; existing ones are kept, revived ones come from the first docker state that rehydrates, new ones from the first matching configuration |
| Rehydration.StatesAreConserved | ponos/pkg/executor/executor.go:273-360 | A run adds one performer per rehydrated state, deletes no more ids than states failed, and each state is rehydrated, failed or skipped; all docker states of an AVS left without performer failed |
| Rehydration.RevivalIsUnique | ponos/pkg/executor/executor.go:276-354 | The stated outcome determines the performer of every AVS |
| Broadcast.SendNeverBlocks | ponos/pkg/taskSession/taskSession.go:199-301 | In every schedule a peer goroutine that sends finds room for one more among as many places as there are operators, also after Broadcast has returned |
| Broadcast.ProcessedResults | ponos/pkg/taskSession/taskSession.go:274-323 | Each peer contributes at most one genuine result; exactly the consumed ones with the task's id are processed, in order, and none is left out |
| Broadcast.CertificateMeansThreshold | ponos/pkg/taskSession/taskSession.go:330-353 | A certificate follows right after the first processed result with which the threshold held |
| Broadcast.ProcessAnswers | ponos/pkg/taskSession/taskSession.go:155-190 | Process returns a certificate only if Broadcast produced it, and otherwise only once the context is done |
| Broadcast.CertificateIsReturned | ponos/pkg/taskSession/taskSession.go:182-183 | No certificate is lost: from every reachable state with one and a waiting Process, the remaining steps return it |
| Broadcast.SuccessHappens | ponos/pkg/taskSession/taskSession.go:155-190 | Every session with a peer has a run in which Process returns a certificate while the context lives |
| Broadcast.PeerEnds | ponos/pkg/taskSession/taskSession.go:203-298 | A peer goroutine ends without a trace, or puts its answer at the end of the channel iff the address matches and the size is below 1.5 MiB |
| Broadcast.ContextEnds | ponos/pkg/taskSession/taskSession.go:354-359 | The end of the context ends both waiting loops, and neither sees it before |
| Broadcast.ErrorNeverWakesProcess | ponos/pkg/taskSession/taskSession.go:162-189 | In every reachable state with Broadcast failed and Process waiting, Process can return without a further end of the context iff the context has already ended |
| Broadcast.FailureHappens | ponos/pkg/taskSession/taskSession.go:155-190 | Every session with a peer has a run to such a state with a living context |
| Broadcast.TaskSession.Collect | ponos/pkg/taskSession/taskSession.go:303-362 | The select loop stops at the first arrival that completes the threshold and hands over exactly the matching arrivals before it |
| Broadcast.CollectIsASchedule | ponos/pkg/taskSession/taskSession.go:303-362 | The protocol steps of the loop stop at the same arrival with the same results handed over |
| Tokens.ChallengeTokenManager.GenerateChallengeToken | ponos/pkg/auth/tokenManager.go:43-67 | A token is issued iff the entity matches up to letter case; its entry is unused and expires after the set time, and all other entries stay |
| Tokens.ChallengeTokenManager.UseChallengeToken | ponos/pkg/auth/tokenManager.go:70-90 | A use is accepted iff the token is known, unused and not expired; then exactly this token becomes used, and no entry appears, goes or changes its expiry |
| Tokens.ChallengeTokenManager.CleanupExpiredTokens | ponos/pkg/auth/tokenManager.go:93-107 | The loop removes exactly the expired entries and keeps the others as they are |
| Tokens.ChallengeTokenManager.VerifyAuthentication | ponos/pkg/auth/verifier.go:36-61 | The token is spent whatever the signature, none is spent without authentication, and each verdict is given iff its condition holds |
| Tokens.BytesEqual | ponos/pkg/auth/verifier.go:71-81 | The loop decides equality of byte slices |
| Tokens.CleanupIsInvisible | ponos/pkg/auth/tokenManager.go:93-107 | With a monotone clock cleanup at any times changes no accept or deny answer of any run |
| Tokens.CleanupRemovesExpired | ponos/pkg/auth/tokenManager.go:93-107 | In every run a tick leaves exactly the entries that had not expired, unchanged |
| Tokens.AcceptsAtMostIssues | ponos/pkg/auth/tokenManager.go:65-89 | In any run a token is accepted at most as often as it was issued |
| Tokens.SingleUse | ponos/pkg/auth/tokenManager.go:79-89 | With fresh tokens each token is accepted at most once |
| Tokens.AcceptedWhileValid | ponos/pkg/auth/tokenManager.go:74-85 | A token is accepted only after its issue to the authorized entity and not after it expired |
| Tokens.AcceptedIff | ponos/pkg/auth/tokenManager.go:43-107 | In every run, with cleanup at any times, a use is accepted iff its token was issued, has not expired since its last issue and has not been spent since |
| Tokens.SpentEvenIfSignatureFails | ponos/pkg/auth/verifier.go:41-58 | A verification that fails on the signature still spends the token |
| Reconciler.PerformerReconciler.Reconcile | hourglass-operator/internal/controller/performerController.go:37-96 | Verdict and cluster after a reconcile, case by case: a deleted Performer loses its finalizer and nothing else, a failing call stops the passes where it fails, a full one ends with the wanted service; in protocol terms it is a schedule |
| Reconciler.PerformerReconciler.ReconcilePod | hourglass-operator/internal/controller/performerController.go:98-132 | A missing pod is created, one that failed, hangs or has another image is deleted, a fit one kept, and nothing else touched: one step nearer to the wanted pod |
| Reconciler.PerformerReconciler.UpdateStatus | hourglass-operator/internal/controller/performerController.go:329-394 | At most three attempts, retrying on conflicts only; every field of the status written is that of the cluster as the last attempt reads it |
| Reconciler.ReadyIsTruthfulIff | hourglass-operator/internal/controller/performerController.go:348-372 | Right after a status update, in any run, the flag is right iff a pod was found or the last update that found one did not see it ready |
| Reconciler.ReadyFlag | hourglass-operator/internal/controller/performerController.go:348-372 | In every run the flag is what the last status update that found a pod saw |
| Reconciler.StaleReadyHappens | hourglass-operator/internal/controller/performerController.go:348-352 | From every cluster without a pod a run leads to a set flag without a pod |
| Reconciler.HarmlessIff | hourglass-operator/internal/controller/performerController.go:134-157 | A step is harmless to a good pod iff it does not delete it, report it failed or keep it pending too long; the passes of the controller always are |
| Reconciler.StepRank | hourglass-operator/internal/controller/performerController.go:108-131 | No harmless step moves away from the wanted pod, and pod passes and removals move on |
| Reconciler.PodConverges | hourglass-operator/internal/controller/performerController.go:98-157 | Every harmless schedule with the passes its starting state still needs ends with the wanted pod |
| Reconciler.Converges | hourglass-operator/internal/controller/performerController.go:64-74 | Two pod passes around a removal and one service pass lead every state to the wanted pod and service |
| Reconciler.TwoReconcilesConverge | hourglass-operator/internal/controller/performerController.go:37-96 | Two whole reconciles around the removal of a terminating pod lead every state to the wanted pod and service, whatever harmless things happen around |
| Reconciler.ConvergedIsStable | hourglass-operator/internal/controller/performerController.go:98-157 | Once there, no reconcile changes the service, nor the pod beyond what the environment does meanwhile |
| Reconciler.ContainerlessPodIsKept | hourglass-operator/internal/controller/performerController.go:148-156 | A pod without containers is never replaced, so the condition on containers is needed |
| OperatorWeights.FirstSetIsFirst | ponos/pkg/peering/peering.go:30-54 | The lookup finds the first set with the id, and one iff there is one |
| OperatorWeights.BuildOperatorWeights | ponos/pkg/operatorManager/operatorManager.go:411-417 | The map holds for each operator of the table the weights of its last row |
| OperatorWeights.WeightMapRows | ponos/pkg/operatorManager/operatorManager.go:411-417 | Its keys are the operators of the table, and a row not repeated later determines its entry |
| OperatorWeights.FilterOperatorsForSet | ponos/pkg/operatorManager/operatorManager.go:420-433 | The loop keeps exactly the peers that some key matches up to letter case and that have the operator set, in their order |
| OperatorWeights.FilteredIsKept | ponos/pkg/util/utils.go:61-69 | The kept peers are exactly the given ones that meet the criterion |
| OperatorWeights.FilteredInOrder | ponos/pkg/util/utils.go:61-69 | The k-th kept peer is the one at the k-th index that meets the criterion |
| OperatorWeights.NewTaskSession | ponos/pkg/taskSession/taskSession.go:38-84 | A session opens iff every peer has the operator set, there is a peer, and the aggregator accepts the task; each refusal is that of the first check that fails, each operator has its address, index and weights |
| OperatorWeights.FilteredPeersMakeASession | ponos/pkg/taskSession/taskSession.go:48-82 | On filtered peers a session opens iff some peer was kept and the aggregator accepts the task; operators keep the order of the peers |
| OperatorWeights.KeptPeerWeights | ponos/pkg/operatorManager/operatorManager.go:425-432 | A kept peer gets the weights of its row iff the spelling agrees, and otherwise none |
| OperatorWeights.TotalsAgree | ponos/pkg/taskSession/taskSession.go:56-64 | At each index the session has at most the weight of its rows in the table, and all of it iff each operator carries the weight of its row |
| OperatorWeights.SessionConservesWeight | ponos/pkg/operatorManager/operatorManager.go:90-109 | For operators distinct up to letter case, session and table agree at every index iff each operator whose row has weight is spelled like its row; the session never has more |

## Left out

- Docker, Kubernetes, gRPC, Ethereum RPC and the stores: their answers are inputs of the methods or labels of the schedule.
- Cryptography: keccak is an arbitrary function to 32 bytes and signatures are byte sequences; nothing is claimed about collisions.
- Signature aggregation, chain pollers, AVS execution managers and performers appear only through the answers of their calls.
- Floating point and wall clock: the backoff multiplier is a rational number with truncation after each product, times are integers, and 64-bit overflow of durations is not modelled.
- Strings are byte strings, and case folding is the ASCII part of strings.EqualFold and strings.ToLower.
- RestartRace.RestartBound: covers one registered monitor; replacing or stopping the monitor while attempts are in flight is not modelled.
- RestartAttempt.AttemptsAgreeIff: compares results, delays, event types and restart calls, not message texts nor the stop timeout handed to Docker, which differs between the two files.
- Closing of event channels, goroutine shutdown timing, and reading from the event channel.
- AvsRegistry.StoredIsLive: "cancelled" means by the registration's own cancel function; the shutdown of the whole aggregator through its root context is not modelled.
- TaskDedup.Executor.HandleReceivedTask: signing is one step that works or fails; the digests it signs are not modelled.
- Rehydration.Executor.Initialize: creation, initialization and deployment of a configured performer are one outcome, and saving its state is left out.
- Reconciler.Converges: the environment acts between the passes of a reconcile and between the attempts of a status update, not between the read and the write of one pass; the API server allows one pod of the given name.
- TaskDedup.SequentialCallsSucceedOnce: the store remembers what was marked, as the Badger store does; the in-memory store (ponos/pkg/executor/storage/memory/memory.go:119-129) always answers that a task is not processed, so with it every call that gets through runs.
- The gRPC endpoint in the status, which repeats service name and namespace.
- Pod contents other than the image, hardware requirements, labels and owner references.
- Tokens.ChallengeTokenManager.GenerateChallengeToken: the fresh token is an input; how it is drawn is not modelled.
- ListPerformers, RemovePerformer, DeployArtifact, the decoration of table roots and the ABI helpers for 16-bit numbers would add only easy members.
- hgctl-go, configuration, telemetry, mocks and generated code.
