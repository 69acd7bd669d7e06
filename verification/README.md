# Verified models of the memory daemon's cores

Dafny models of the self-contained cores of the daemon, its embedding worker, its codecs and its audit and
benchmark tools, with proofs of what they keep over whole runs. The modules follow the source files:

| module | what it models |
|---|---|
| `Basics`, `Wrappers` | identifiers, `Option`, `Result` and a few sequence notions shared by the rest |
| `Relations`, `SupersessionGraph` | typed edges, edge admission and the depth-first cycle check |
| `Inference`, `WorkerProtocol`, `WorkerSubmissions`, `WorkerCounters`, `WorkerCancellation`, `EmbeddingWorker` | batching of one request; the worker, its submitters and its shutdown as interleaved atomic steps; what each submission comes to, what the statistics count and what cancelling does, over whole runs; the same operations in imperative form over a bounded queue |
| `RegistryState`, `FrontendRegistry`, `RegistryRuns`, `RegistryHistory` | channel bindings and virtual sessions as values; the registry object; runs of its operations on a non-decreasing clock; what a run leaves on record |
| `Radix`, `Ulid`, `ProjectId`, `Envelope` | positional numerals; the ULID text form (ULID specification, sections "Encoding", "Overflow Errors when Parsing Base32 Strings" and "Sorting") and project ids; wire frames and the chunked response stream |
| `RustLexer`, `TestModules`, `SkipperExact`, `TestIds` | the skipper that removes test modules from Rust source, the grammar it is right on, exactly what it does to any text, and the test-id scanner |
| `Ndcg`, `Evaluation` | scoring of a ranked list; corpus validation and aggregation over a split |
| `Pagination`, `WorkloadRng`, `Quota`, `CanonicalExport` | the pagination walk, the workload generator, quota accounting, the canonical form of an export |

Where the source changes state, a method or a class does the same here, and its contract equates the new state
with a specification function; the theorems are about those functions. `WorkerProtocol`,
`WorkerCancellation`, `RegistryRuns` and their companions then quantify over every run. `dafny verify dfyconfig.toml` checks everything.

Assumptions about the surroundings are parameters or preconditions: fresh UUIDs (`mint`, `minted`), a clock that
leaves room for the idle timeout in 64 bits (`ClockFits`), the liveness of memories (`live`), the adapter
(`embed`), the discount of a ranked position (positive and strictly decreasing), Unicode lower-casing (`lower`),
JSON text and the hash (`Printer`).

## Where the code does not do what it, or a reader, might promise

Each is stated with the exact condition under which the promise holds, and the lemmas that prove it.

- Supersession edges are not normalised before the cycle check. A to B `Supersedes` and A to B `SupersededBy` are
  both accepted, which is a cycle when both are read as (newer, older). `NormalisedCycleIsAdmitted`,
  `NormalisedAcyclicIff`.
- The worker's drain is commented as resolving every waiting submitter. A submitter that read `closed` before the
  shutdown and pushes after the drain is told Ok and never answered. A request is answered if and only if its push
  preceded the exit. `LatePushIsNeverAnswered`, `ExactlyOnce`.
- `cancel_all` is documented as cancelling queued and in-flight requests. A call during a service is lost: the
  request is answered with its results. A stale request that the drain reaches first is told Closed. And the
  generation is 64 bits wide, so a multiple of 2^64 calls goes unnoticed. Below that, a request is answered
  Cancelled at its comparison if and only if some call came after its snapshot and before that comparison.
  `CancelDuringServiceIsLost`, `DrainIgnoresCancels`, `CancelledAtIff`, `CancelTakesEffectIff`; `EveryReplyExplained`
  and `OneFate` say why each request got the reply it got.
- A request can be told Cancelled in a run without any `cancel_all`. Of a request it serves, the worker says so if
  and only if every batch succeeded and the results are not as many as the inputs. `ShortResultsReadAsCancelled`,
  `ServedCancelledIff`.
- A batch size of zero is accepted, and the first request in service then ends the worker by a panic. The panic drops
  that request's reply channel, which crates/embeddings/src/service.rs:90 reads as Cancelled. Those are the only three
  reasons for which a caller is told Cancelled. `CrashIffZeroBatch`, `ToldCancelledIff`.
- The export digest is documented as independent of record ordering. Sessions and projects are not sorted, and
  records that share a key keep their given order: independence of the order of the sorted collections holds if and
  only if keys identify the records in each. Any two exports have one digest if and only if they hold, for every key,
  the same records in the same order. `SessionOrderMatters`, `OrderIndependentIff`, `SameDigestIff`.
- A block comment that opens with slash-star-slash counts as closed at once, because its end is searched from its
  start. `SlashStarSlashDefeatsSkipper`, `BlockCommentMeasuredIff`.
- Recall and nDCG can exceed 1 on a ranking with duplicates: under any one discount they stay within 1 for all label
  sets if and only if the first k have none. For a sole relevant document listed twice recall is 2, while nDCG exceeds
  1 only if its two positions weigh more than the first. `BoundsIffDistinct`, `RepeatedExceeds`, `ListedTwice`.
- ULID times are masked to 48 bits, so order is by time modulo 2^48. `EarlierSortsFirst`.
- A truncated pool is documented as forcing continuation; with a total of zero it does not. `paginate_vec` accepts a
  page limit of zero, and following such pages never ends exactly when the first one points on; the two tools that
  call it refuse that limit first (crates/daemon/src/tools/recall.rs:132, crates/daemon/src/tools/semantic_search.rs:32).
  `TruncatedPoolForcesMore`, `EndlessIff`.
- Seed zero shares its stream with the constant it stands for. `SeedsSharingAState`.
- A refused enqueue leaves a zero entry behind exactly when the per-client limit is zero. `QuotaTracker.TryEnqueue`.
- A sweep reports and ends the same sessions in every order of the channels. Which bindings it clears depends on that
  order when two channels that expire are bound to one session, which no run of operations reaches but a file could
  hold: exactly one of them is cleared. `SweepStep`, `VisitsCommuteIff`.
- A response may be sent in chunks of any size within the cap; empty chunks after its last byte are left unread.
  `RestIffLastNotEmpty`.

## Model

| member | source | states |
|---|---|---|
| SupersessionGraph.FormsSupersessionCycle | crates/domain/src/graph.rs:50-78 | true if and only if a path of existing supersession edges runs from the new target to the new source; terminates although a node may sit on the stack several times |
| SupersessionGraph.BuildAdjacency | crates/domain/src/graph.rs:54-60 | the adjacency lists hold exactly the raw source-target pairs of both supersession kinds |
| SupersessionGraph.ValidateNewEdge | crates/domain/src/graph.rs:15-48 | computes the verdict whose four errors VerdictExact characterises |
| SupersessionGraph.VerdictExact | crates/domain/src/graph.rs:15-48 | each error if and only if its own reason holds and no earlier one: a supersession edge to itself; an endpoint that is not live; the same endpoints and kind stored, or reversed endpoints of supports, contradicts or related-to; a path of stored supersession edges from target back to source |
| SupersessionGraph.AcceptedIffStaysWellFormed | crates/domain/src/graph.rs:15-48 | on a well-formed store an edge is accepted if and only if both endpoints are live and the store stays acyclic and duplicate-free with it |
| SupersessionGraph.EveryRunWellFormed | crates/domain/src/graph.rs:15-48 | from the empty store, every run of attempted additions and removals leaves the raw supersession graph acyclic, with no duplicate and no reversed symmetric duplicate |
| SupersessionGraph.RemovalKeepsWellFormed | crates/domain/src/graph.rs:15-48 | removing any edge keeps a store well formed |
| SupersessionGraph.AcyclicAfterInsert | crates/domain/src/graph.rs:50-78 | inserting an edge keeps a graph acyclic if and only if its target does not reach its source: why the check is the right one |
| SupersessionGraph.PathThroughNewEdge | crates/domain/src/graph.rs:50-78 | a path that may use one extra edge either avoids it or reaches its source and leaves from its target |
| SupersessionGraph.ClosedSetTrapsPath | crates/domain/src/graph.rs:62-77 | a visited set closed under the edges holds everything reachable: the search has no false negatives |
| SupersessionGraph.NormalisedCycleIsAdmitted | crates/domain/src/graph.rs:15-48 | counterexample: Supersedes and SupersededBy over the same ordered pair are both accepted, so the graph read in (newer, older) direction gets a cycle |
| SupersessionGraph.NormalisedAcyclicIff | crates/domain/src/graph.rs:50-78 | an edge keeps the normalised graph acyclic if and only if the older memory does not already supersede the newer one |
| SupersessionGraph.MergeSucceedsIff | crates/domain/src/relation.rs:68-85 | recording all consolidation edges of a fresh result one by one succeeds if and only if result and sources are live, distinct and new; the store then grows by exactly those edges in order |
| Relations.ReverseKeepsMeaning | crates/domain/src/relation.rs:107-116 | viewing an edge from its other end is an involution that never changes the fact recorded |
| WorkerProtocol.EveryRunConserves | crates/embeddings/src/worker.rs:280-349 | in every reachable state of every interleaving: accepted requests are, in order, those replied to, then the one in process, then those queued; the queue is within capacity; the in-flight counter is exact up to pushes not yet counted |
| WorkerProtocol.ExactlyOnce | crates/embeddings/src/worker.rs:280-349 | no request is answered twice or without having been accepted; after the worker exits a request has one reply if and only if its push preceded the exit |
| WorkerProtocol.InFlightExact | crates/embeddings/src/worker.rs:185-207 | with no submitter between push and count, in-flight is queued plus in process |
| WorkerProtocol.StepKeepsInv | crates/embeddings/src/worker.rs:185-349 | every atomic step of every thread keeps the conservation invariant |
| WorkerProtocol.LatePushIsNeverAnswered | crates/embeddings/src/worker.rs:185-207 | counterexample: a caller that read closed as false and pushes after the worker has exited is told Ok and never answered, whatever happens later |
| WorkerProtocol.StopIsFinal | crates/embeddings/src/worker.rs:339-349 | once the worker thread has ended, by exit or panic, nothing is ever answered again |
| WorkerProtocol.WholeSubmissionsAllResolved | crates/embeddings/src/worker.rs:339-348 | if submissions are not interleaved, in-flight is exact at all times and after the exit every accepted request has exactly one reply and none is in flight |
| WorkerProtocol.WholeSubmissionsNeverHalfway | crates/embeddings/src/worker.rs:185-207 | in runs of whole submissions every submitter is accepted or refused, and the exit has seen every accepted request |
| WorkerCancellation.CancelledIffCancelAllBetween | crates/embeddings/src/worker.rs:293-303 | at its comparison a request is cancelled, without an adapter call, if and only if the number of cancel_all calls since its one snapshot is not a multiple of 2^64; otherwise it is admitted |
| WorkerCancellation.CancelledAtIff | crates/embeddings/src/worker.rs:293-303 | at a comparison of any run the reply Cancelled is recorded for the request if and only if the cancel_all calls since its snapshot are not a multiple of 2^64 |
| WorkerCancellation.CancelTakesEffectIff | crates/embeddings/src/worker.rs:209-303 | below 2^64 calls, over any run: some comparison records the reply Cancelled for a request if and only if some cancel_all call comes after its snapshot and before its comparison |
| WorkerCancellation.TakesEffectIffStale | crates/embeddings/src/worker.rs:209-303 | for any number of calls: some comparison records the reply Cancelled for a request if and only if the request is compared and the calls between its snapshot and its comparison are not a multiple of 2^64 |
| WorkerCancellation.ServiceIgnoresCancels | crates/embeddings/src/worker.rs:305-336 | nothing that happens during a service changes it: the reply is the batch outcome as of the admission, whatever was cancelled |
| WorkerCancellation.CancelDuringServiceIsLost | crates/embeddings/src/worker.rs:209-212 | counterexample: a cancel_all while the request is in flight, which is answered with its results |
| WorkerCancellation.DrainIgnoresCancels | crates/embeddings/src/worker.rs:339-348 | counterexample: a queued request made stale by cancel_all is told Closed by the drain |
| WorkerCancellation.ShortResultsReadAsCancelled | crates/embeddings/src/worker.rs:326-330 | counterexample: a request is told Cancelled in a run without any cancel_all |
| WorkerCancellation.ToldCancelledIff | crates/embeddings/src/service.rs:80-92 | over every run, a caller is told Cancelled for exactly three reasons: its comparison recorded that reply; every batch of its service succeeded but the results were not as many as the inputs; or the worker panicked on its request, which drops the reply channel |
| Inference.ServedCancelledIff | crates/embeddings/src/worker.rs:305-330 | the reply the worker sends for a request it serves is Cancelled if and only if every batch succeeded and the results are not as many as the inputs |
| WorkerCancellation.EveryReplyExplained | crates/embeddings/src/worker.rs:280-349 | every reply of every run is explained by its run: found stale at its comparison, the batch outcome of a request that passed it, or Closed by the drain |
| WorkerCancellation.OneFate | crates/embeddings/src/worker.rs:280-349 | the explanation is unique: one snapshot, at most one comparison and one answering step per request |
| WorkerCancellation.EveryRunRecordsSnapshots | crates/embeddings/src/worker.rs:191-198 | over every run, a request in the queue or with the worker carries the number of cancel_all calls before the step in which its own submitter read the generation |
| WorkerCancellation.OneSnapshot | crates/embeddings/src/worker.rs:191 | a request reads the generation once |
| WorkerProtocol.ClosedWorkerApproachesExit | crates/embeddings/src/worker.rs:288-291 | once closed is set no step of any thread raises the bound on the work left, each step of the worker that changes anything lowers it, and until the worker has stopped its next step does: even if the shutdown message was refused |
| WorkerProtocol.BoundedWorkAfterClose | crates/embeddings/src/worker.rs:288-291 | over every continuation of a run, in any interleaving, the worker takes at most as many effective steps after closed is set as the bound says at that moment |
| WorkerProtocol.ClosedWorkerAnswersAll | crates/embeddings/src/worker.rs:288-348 | left to itself after closing, the worker stops with every accepted request answered if and only if it exits, which it does for every positive batch size |
| WorkerProtocol.CrashIffZeroBatch | crates/embeddings/src/worker.rs:308 | the worker can panic if and only if the batch size is zero; the worker sends no reply for the request it panics on, nor for any later one |
| WorkerSubmissions.SubmissionsEnd | crates/embeddings/src/worker.rs:185-207 | over every run: refused as Closed if and only if closed was read after a close or the queue was found full after one; Busy if and only if it was found full before any close; accepted if and only if it was found with room |
| WorkerSubmissions.EveryRunCarriesInputs | crates/embeddings/src/worker.rs:195-199 | over every run, requests in the queue and with the worker hold the inputs they were submitted with |
| WorkerSubmissions.RepliesAnswerInputs | crates/embeddings/src/worker.rs:305-335 | over every run with a pointwise adapter, however requests interleave and are batched, every reply with results is the adapter mapped in order over the inputs of that request |
| WorkerSubmissions.OneSend | crates/embeddings/src/worker.rs:195-199 | a request is put in the queue at most once |
| WorkerSubmissions.ShutdownInTurn | crates/embeddings/src/worker.rs:229-236 | over every run: until the shutdown message is taken, the requests answered, in process and ahead of it are, in order, those accepted when it was sent: it overtakes none and none overtakes it |
| WorkerCounters.BatchCountersExact | crates/embeddings/src/worker.rs:305-322 | over every run: processed batches are the batches the adapter answered in all services, processed items the inputs in them; one adapter call for each, and one more for each service it cut short |
| WorkerCounters.CancelledCounterExact | crates/embeddings/src/worker.rs:293-335 | over every run: cancelled requests are the comparisons that recorded Cancelled plus the services of callers that had dropped their receiver |
| WorkerCounters.PointwiseService | crates/embeddings/src/worker.rs:305-335 | with a pointwise adapter a service of n inputs adds ceil(n / max) batches and n items, sends the mapped results, and counts a caller that has gone as cancelled |
| WorkerCounters.AnsweredExact | crates/embeddings/src/worker.rs:308-322 | the answered batches of a request are those before the first the adapter refuses |
| EmbeddingWorker.BoundedQueue.constructor | crates/embeddings/src/worker.rs:85-94 | empty, with capacity at least one |
| EmbeddingWorker.BoundedQueue.TrySend | crates/embeddings/src/worker.rs:98-106 | a full queue gives the item back unchanged, otherwise it is appended |
| EmbeddingWorker.BoundedQueue.PopFront | crates/embeddings/src/worker.rs:110-116 | first in, first out; nothing on an empty queue |
| EmbeddingWorker.Worker.constructor | crates/embeddings/src/worker.rs:245-278 | the initial protocol state, for any configuration |
| EmbeddingWorker.Worker.Submit | crates/embeddings/src/worker.rs:185-207 | performs the four protocol steps of a submission; Ok if and only if not closed and room left; Closed if and only if closed |
| EmbeddingWorker.Worker.CancelAll | crates/embeddings/src/worker.rs:209-212 | performs the cancel step: queued requests are not touched |
| EmbeddingWorker.Worker.Shutdown | crates/embeddings/src/worker.rs:229-236 | performs closing and the send; a full queue drops the message |
| EmbeddingWorker.Worker.HandleFront | crates/embeddings/src/worker.rs:293-303 | performs the pop and the comparison: stale requests are answered at once |
| EmbeddingWorker.Worker.Publish | crates/embeddings/src/worker.rs:326-335 | the served request gets its outcome and the counters move by what its batches did |
| EmbeddingWorker.Worker.ServeRequest | crates/embeddings/src/worker.rs:305-335 | performs the serve step |
| EmbeddingWorker.Worker.LoopPass | crates/embeddings/src/worker.rs:288-337 | one pass of the loop is a test, a pop, a comparison and a serve step |
| EmbeddingWorker.Worker.DrainAll | crates/embeddings/src/worker.rs:339-348 | the drain loop takes the state to where the worker steps end: exited with an empty queue |
| Inference.ServeBatches | crates/embeddings/src/worker.rs:305-322 | the batching loop produces the results, failure and counters of the batch-by-batch specification |
| Inference.BatchedRefinesUnbatched | crates/embeddings/src/worker.rs:305-330 | for a pointwise adapter and any positive batch size the reply is the adapter mapped over all inputs in order, in ceil(n / max) calls, with n items counted |
| Inference.BatchesPartition | crates/embeddings/src/worker.rs:308 | the batches are the inputs in order, all full but perhaps the last, ceil(n / max) of them |
| Radix.CeilDiv | crates/embeddings/src/worker.rs:308 | the number of chunks of at most m in n items: the least count whose multiple of m covers n |
| Inference.FailureCountsEarlierBatches | crates/embeddings/src/worker.rs:305-330 | if batch k is the first to fail its error is the reply, it was the last call, and the counters cover exactly the k batches before it |
| RegistryRuns.CallDecision | crates/daemon/src/registry.rs:199-298 | over any run of ensure, sweep, bind, lease and track calls on all channels, a channel keeps its previous handle if and only if the call comes within the idle timeout of its previous call and within the lifetime of its session |
| RegistryRuns.PartitionFromOwnTimes | crates/daemon/src/registry.rs:199-298 | which calls of a channel share a session is decided by that channel's own call times |
| RegistryRuns.NonInterference | crates/daemon/src/registry.rs:261-298 | two runs in which a channel calls at the same times partition its calls alike, whatever the other channels do |
| RegistryRuns.ChannelsNeverShare | crates/daemon/src/registry.rs:199-256 | between resets no handle is ever given to two channels |
| RegistryRuns.EveryRunKeepsInv | crates/daemon/src/registry.rs:95-314 | over every run from empty, resets included, bound handles and live sessions stay in bijection |
| RegistryRuns.RunsFollowCallTimes | crates/daemon/src/registry.rs:199-298 | simulation: the stored session of a channel agrees with its own call history after every operation |
| RegistryRuns.SweepTracks | crates/daemon/src/registry.rs:261-298 | a global sweep ends a channel's session exactly when its own times say so |
| RegistryRuns.OwnEnsure | crates/daemon/src/registry.rs:199-256 | the channel's own call keeps its session exactly when its own times say so |
| RegistryState.SweepStep | crates/daemon/src/registry.rs:261-298 | visiting channels one by one, in any order and from any state: exactly the sessions that had expired before the sweep end, and of the channels bound to each exactly one is cleared |
| RegistryState.SweepOutcome | crates/daemon/src/registry.rs:261-298 | unless two channels that expire share a session, what any order of the visits leaves is each channel decided on the state before the sweep |
| RegistryState.SweepWrites | crates/daemon/src/registry.rs:284-294 | from any state, in any order: each expired session is recorded as abandoned, with that outcome and the time of the sweep, and is otherwise as it was; no other session changes; a channel changes only if it had expired, by losing its virtual session and virtual lease |
| RegistryState.ExpiredIff | crates/daemon/src/registry.rs:265-279 | a binding has expired if and only if its session is stored, virtual and active and the lease is missing or has run out or half an hour has passed since the session started |
| RegistryHistory.RoutesAreHistory | crates/daemon/src/registry.rs:95-157 | over every run: the registered channels are those a call has named, and each is routed to the handle of its last bind since the last reset, with the lease given since and the flag of its last bind |
| RegistryHistory.RecordsAreHistory | crates/daemon/src/registry.rs:218-240 | over every legal run: a stored virtual session belongs to the channel and time of the call that opened it, lists the ids reported as created and as read for it, each once, in order of first report, and is active or abandoned at the time of one of the run's sweeps |
| RegistryHistory.AppendNewFirsts | crates/daemon/src/registry.rs:355-376 | tracking reports one after another leaves first appearances in order |
| RegistryState.VisitsCommuteIff | crates/daemon/src/registry.rs:264-296 | two visits commute if and only if they are not such a pair, which no run reaches but a loaded file could hold |
| RegistryState.UnvisitedChannel | crates/daemon/src/registry.rs:265-279 | a channel not yet visited is as it was; its turn finds it expired if and only if it was before the sweep and no earlier turn ended its session |
| RegistryState.HandlesGrow | crates/daemon/src/registry.rs:283-295 | each visit adds the session of its channel to those expired if the channel expires, and no other |
| RegistryState.SweepKeepsInv | crates/daemon/src/registry.rs:261-298 | sweeping keeps the bijection |
| RegistryState.EnsureKeepsInv | crates/daemon/src/registry.rs:199-256 | after the call the channel's live session is the handle returned |
| RegistryState.AppendNewDeduplicates | crates/daemon/src/registry.rs:355-376 | what was tracked stays in place and each new id is added once |
| RegistryState.PersistThenLoad | crates/daemon/src/registry.rs:382-501 | loading a persisted snapshot, in any map order, restores bindings and sessions with an empty legacy payload |
| RegistryState.LegacySessionsSplit | crates/daemon/src/registry.rs:465-471 | of a pre-migration file exactly the virtual sessions go to the table and exactly the traced ones to the payload, none lost |
| RegistryState.LoadChannelsExact | crates/daemon/src/registry.rs:453-456 | a snapshot without contradictory entries loads to exactly its entries |
| RegistryState.LoadSessionsExact | crates/daemon/src/registry.rs:457-471 | the same for sessions |
| FrontendRegistry.FrontendRegistry.constructor | crates/daemon/src/registry.rs:85-91 | the empty registry satisfies the invariant |
| FrontendRegistry.FrontendRegistry.BindSession | crates/daemon/src/registry.rs:95-122 | the new state is the bound one and the invariant is kept |
| FrontendRegistry.FrontendRegistry.SetChannelLease | crates/daemon/src/registry.rs:309-314 | only an existing binding's traced lease changes |
| FrontendRegistry.FrontendRegistry.VirtualSession | crates/daemon/src/registry.rs:178-191 | the bound session if and only if it is stored, virtual and active; under the invariant, simply the one bound |
| FrontendRegistry.FrontendRegistry.SweepChannel | crates/daemon/src/registry.rs:265-296 | one turn of the loop, from any state |
| FrontendRegistry.FrontendRegistry.SweepVirtualSessions | crates/daemon/src/registry.rs:261-298 | from any state, in any order: returns exactly the handles expired before the sweep, each once, records their sessions as abandoned now, with that outcome, and leaves every other session alone, and clears exactly one channel of each; a single final state unless two expiring channels share a session; keeps the invariant |
| FrontendRegistry.FrontendRegistry.EnsureVirtualSession | crates/daemon/src/registry.rs:199-256 | from any state the handle returned is bound to the channel, stored, virtual and active, with a lease of the idle timeout from now, and state and handle are the specified call on an outcome of the sweep; unless two expiring channels share a session, those the run theorems are about; keeps the invariant |
| FrontendRegistry.FrontendRegistry.TrackVirtualCreated | crates/daemon/src/registry.rs:355-363 | created ids are appended once each; unknown handles are ignored |
| FrontendRegistry.FrontendRegistry.TrackVirtualRead | crates/daemon/src/registry.rs:368-376 | read ids are appended once each; unknown handles are ignored |
| FrontendRegistry.FrontendRegistry.ResetExecutionContexts | crates/daemon/src/registry.rs:160-173 | all routes and sessions are gone; the count is the number of channels that had a traced route |
| FrontendRegistry.FrontendRegistry.ClearAllRoutes | crates/daemon/src/registry.rs:161-170 | every binding is cleared and dropped routes are counted, in any map order |
| FrontendRegistry.FrontendRegistry.Persist | crates/daemon/src/registry.rs:382-404 | the snapshot holds every binding and session once, in any order, and nothing legacy |
| FrontendRegistry.Load | crates/daemon/src/registry.rs:440-501 | current entries first, then the virtual ones of a pre-migration list; the rest is the payload |
| FrontendRegistry.ReadSessions | crates/daemon/src/registry.rs:457-471 | the virtual table and the traced list of a file |
| FrontendRegistry.ReadChannels | crates/daemon/src/registry.rs:453-456 | later entries win |
| FrontendRegistry.Restart | crates/daemon/src/registry.rs:382-501 | persisting and loading gives back the same state with its invariant |
| Ulid.DecodeEncode | crates/domain/src/project_id.rs:73-97 | every 16-byte value is read back from its text, which is always accepted |
| Ulid.EncodeDecode | crates/domain/src/project_id.rs:73-97 | accepted text is the text of what it decodes to: one spelling per value |
| Ulid.DecodeUlid | crates/domain/src/project_id.rs:85-97 | success exactly on 26 Crockford letters whose first is 0 to 7, with the value they denote |
| Ulid.AccumulateLetters | crates/domain/src/project_id.rs:89-92 | the shifting accumulator holds the denoted value modulo 2^128 |
| Ulid.AcceptedFits | crates/domain/src/project_id.rs:89-95 | on accepted text no shift loses a bit |
| Ulid.EncodeUlid | crates/domain/src/project_id.rs:73-81 | the peeling loop writes the base-32 digits of the value |
| Ulid.TablesInverse | crates/domain/src/project_id.rs:11-49 | the value table is the inverse of the alphabet |
| Ulid.TextOrder | crates/domain/src/project_id.rs:73-81 | texts compare as the 128-bit values and as the bytes |
| Ulid.UlidParts | crates/domain/src/project_id.rs:100-105 | the ten random bytes are kept as given and the first six hold the time modulo 2^48, so ids are equal if and only if both agree |
| Ulid.EarlierSortsFirst | crates/domain/src/project_id.rs:100-105 | one time sorts before another whatever the randomness if and only if it is earlier modulo 2^48 |
| ProjectId.ParseFormat | crates/domain/src/project_id.rs:108-134 | parsing a formatted id gives the sanitised name and the id |
| ProjectId.FormatParse | crates/domain/src/project_id.rs:108-134 | an accepted string is reproduced by formatting its parse |
| ProjectId.SanitizeFixedPoints | crates/domain/src/project_id.rs:53-70 | sanitised names, and only they, are fixed points |
| ProjectId.SanitizeExact | crates/domain/src/project_id.rs:53-70 | character by character: each character of the lower-casing is kept in its place if it is a lower-case letter, digit, underscore or hyphen, else replaced by an underscore; what is beyond 32 is dropped; app if nothing is left |
| ProjectId.SanitizeOneToOne | crates/domain/src/project_id.rs:53-70 | when every character lowers to one: position i holds the lower-casing of character i or an underscore |
| ProjectId.SanitizeName | crates/domain/src/project_id.rs:53-70 | the result is always 1 to 32 characters of the allowed set |
| ProjectId.ParseIff | crates/domain/src/project_id.rs:117-134 | accepted are exactly the prefix, a name of 1 to 32 allowed characters, an underscore and the text of an id, and what is returned is that name and id |
| ProjectId.RSplitJoined | crates/domain/src/project_id.rs:119 | splitting at the last separator undoes joining with a separator-free tail |
| ProjectId.RSplitSound | crates/domain/src/project_id.rs:119 | a split always rejoins to the text, and fails only without a separator |
| Envelope.FrameRoundTrip | crates/daemon/src/envelope.rs:361-395 | decoding an encoded frame followed by anything gives the payload and leaves exactly the rest |
| Envelope.FrameCanonical | crates/daemon/src/envelope.rs:373-395 | a decode succeeds only on the one encoding of what it returns |
| Envelope.DecodeIncremental | crates/daemon/src/envelope.rs:373-395 | success and oversize are stable under more bytes; an incomplete frame completes exactly when the bytes it names have arrived, and with fewer it still names the same number |
| Envelope.DecodeAllFrames | crates/daemon/src/envelope.rs:361-395 | repeated decoding of concatenated frames gives the original sequence and leaves the tail |
| Envelope.EncodeFrame | crates/daemon/src/envelope.rs:361-369 | the frame, or the error beyond the cap; the cast to u32 loses nothing |
| Envelope.ByteReader.NextFrame | crates/daemon/src/envelope.rs:373-395 | as the decoding function; errors leave the buffer untouched |
| Envelope.SplitPayload | crates/daemon/src/envelope.rs:478-490 | chunks rejoin to the payload, are full except perhaps the last, and none is empty |
| Envelope.WriteResponsePayload | crates/daemon/src/envelope.rs:495-509 | writes the length header and the frames of the payload cut into full chunks |
| Envelope.ResponseRoundTrip | crates/daemon/src/envelope.rs:495-540 | reading what was written for any payload, empty and multi-chunk included, gives it back and leaves exactly what followed |
| Envelope.SplitIsChunking | crates/daemon/src/envelope.rs:478-490 | cutting into full chunks loses nothing and leaves no empty chunk |
| Envelope.ReadResponsePayload | crates/daemon/src/envelope.rs:514-540 | success has exactly the declared length; the stream is left where the specification says, on success and on each failure |
| Envelope.ReadUntil | crates/daemon/src/envelope.rs:521-538 | the loop terminates on every finite stream, zero-length chunks included |
| Envelope.NextChunk | crates/daemon/src/envelope.rs:522-530 | one chunk off the stream, with its three failures and what each consumes |
| Envelope.ReadChunkIff | crates/daemon/src/envelope.rs:522-530 | a chunk is read, and nothing beyond it, if and only if the stream starts with its frame; a length over eight mebibytes is refused and any other stream has ended too early |
| Envelope.ReadAnyChunking | crates/daemon/src/envelope.rs:514-540 | for any chunks within the cap, empty ones anywhere included, the payload comes back; what remains is the chunks after its last byte and what followed |
| Envelope.RestIffLastNotEmpty | crates/daemon/src/envelope.rs:522-539 | exactly what followed remains if and only if the last chunk is not empty |
| Envelope.ReadChunksOfFrames | crates/daemon/src/envelope.rs:521-538 | the loop reassembles any chunks within the cap and stops after the last byte |
| Envelope.ReadSound | crates/daemon/src/envelope.rs:514-540 | any success is some chunking of a payload of the declared length |
| Envelope.ReadChunksSound | crates/daemon/src/envelope.rs:521-538 | the same for the loop |
| TestModules.StripLeavesProduction | xtask/src/verbs.rs:831-848 | stripping a file of production code, test modules and other uses of the attribute leaves exactly the production code with those uses |
| TestModules.StripRemovesModule | xtask/src/verbs.rs:831-848 | an attribute and the test module after it vanish, what precedes stays, stripping goes on after it |
| TestModules.OtherAttributesStay | xtask/src/verbs.rs:839-843 | an attribute followed, after whitespace and comments, by anything but the head of a module with a body stays, and stripping goes on after it |
| TestModules.HeadIff | xtask/src/verbs.rs:873-900 | the scanner recognises a head exactly where the text has one: mod, whitespace, an identifier of letters, digits and underscores, whitespace, a brace, with the character classes spelled out |
| TestModules.ModuleMeasured | xtask/src/verbs.rs:852-940 | a test module written by the grammar is measured exactly, whatever follows it |
| TestModules.BodyBalances | xtask/src/verbs.rs:901-939 | any nested body leaves the brace matcher at the same depth just after it |
| TestModules.TokensBalance | xtask/src/verbs.rs:905-938 | the same for every string, byte string, raw string, character literal, comment and plain character |
| TestModules.MarkerFoundAfter | xtask/src/verbs.rs:834 | the attribute is found where it stands: it cannot begin inside marker-free text |
| TestModules.BlockCommentMeasuredIff | xtask/src/verbs.rs:926-930 | a block comment is measured as a whole, whatever follows it, if and only if its text neither starts with a slash nor contains star-slash |
| TestModules.SlashStarSlashDefeatsSkipper | xtask/src/verbs.rs:926-930 | a concrete test module whose comment opens with slash-star-slash is not recognised |
| TestModules.ExampleModule | xtask/src/verbs.rs:852-940 | a module whose body is a string of one closing brace is in the grammar, whatever follows |
| TestModules.ExampleOther | xtask/src/verbs.rs:839-843 | an attribute on an import is another use |
| TestModules.ExampleStripped | xtask/src/verbs.rs:831-848 | the attribute, a newline and a module with an underscore in its name vanish |
| SkipperExact.StripTotal | xtask/src/verbs.rs:831-848 | for any text at all: it has a reading as plain stretches, attributes whose module is taken and attributes that take none, and what is left is that reading without the taken modules |
| SkipperExact.StripOneIff | xtask/src/verbs.rs:852-940 | what follows the attribute is removed up to n if and only if it reads, up to there, as blanks, mod, a name, a brace, a body of steps and brace groups, and its closing brace |
| SkipperExact.RegionIff | xtask/src/verbs.rs:901-939 | the matching brace is found at e if and only if a body of steps and brace groups leads there |
| SkipperExact.StepIff | xtask/src/verbs.rs:905-938 | the matcher opens and closes at braces only and otherwise steps over exactly a string, byte string, raw string, character literal, comment or other character; where none ends it is stuck |
| SkipperExact.BlanksIff | xtask/src/verbs.rs:855-872 | the blanks end at w if and only if whitespace and comments lead there and neither starts there |
| SkipperExact.QuotedIff | xtask/src/verbs.rs:963-1005 | a literal is measured to its closing quote, escapes counted, and only if it has one, a character literal only on its line |
| SkipperExact.RawIff | xtask/src/verbs.rs:963-980 | a raw string is measured to the first quote followed by as many hashes as it opened with |
| SkipperExact.CommentIff | xtask/src/verbs.rs:859-869 | a line comment is measured to its newline or the end, a block comment to the first star-slash from its start |
| RustLexer.StripTestModules | xtask/src/verbs.rs:831-848 | the loop computes the specified stripping |
| RustLexer.StripOneTestMod | xtask/src/verbs.rs:852-940 | the scanner computes the specified region length |
| RustLexer.ScanRegion | xtask/src/verbs.rs:901-939 | the depth-counting loop finds the brace the recursive specification finds |
| RustLexer.ScanMove | xtask/src/verbs.rs:905-938 | one turn of that loop |
| RustLexer.ScanBlank | xtask/src/verbs.rs:855-872 | skips whitespace and comments |
| RustLexer.ScanModuleHead | xtask/src/verbs.rs:873-900 | recognises the keyword, the name and the opening brace |
| RustLexer.ScanRawStringStart | xtask/src/verbs.rs:943-958 | r, hashes and a quote |
| RustLexer.ScanString | xtask/src/verbs.rs:963-990 | the end of a cooked or raw string |
| RustLexer.ScanQuoted | xtask/src/verbs.rs:993-1005 | the end of a quoted literal with escapes |
| TestIds.FindTestIds | xtask/src/verbs.rs:1559-1589 | jumping past each match, the scan returns all ids of the text, each once, by first appearance |
| TestIds.FindIdEnd | xtask/src/verbs.rs:1564-1574 | the three inner scans find the end of an id if there is one |
| TestIds.IdEndExact | xtask/src/verbs.rs:1564-1576 | recognition is exactly the shape T-, capitals, hyphen, digits, with no letter, digit or underscore after it, in character ranges |
| TestIds.IdsDoNotOverlap | xtask/src/verbs.rs:1581-1582 | no id starts inside another, so jumping loses nothing |
| TestIds.NoIdInside | xtask/src/verbs.rs:1581-1582 | the ids from any position inside a match are those from its end |
| TestIds.AllIdsExact | xtask/src/verbs.rs:1559-1589 | the ids listed are exactly those that stand somewhere in the text |
| TestIds.DedupExact | xtask/src/verbs.rs:1577-1580 | deduplication keeps the members, without repeats, in order of first appearance |
| Ndcg.ScoresBounded | src/bench/quality.rs:179-233 | without duplicates in the first k, recall and nDCG lie between 0 and 1 |
| Ndcg.NdcgOptimum | src/bench/quality.rs:197-212 | nDCG is 1 if and only if the first min(relevant, k) positions are all relevant |
| Ndcg.MovingUpNeverLowers | src/bench/quality.rs:197-212 | moving a relevant document up, from inside or outside the cut-off, never lowers nDCG |
| Ndcg.MoveUpRaisesDcg | src/bench/quality.rs:197-207 | the same for DCG under any non-increasing weight |
| Ndcg.BoundsIffDistinct | src/bench/quality.rs:179-212 | for any one discount, recall and nDCG stay within 1 for all label sets if and only if the first k have no duplicates |
| Ndcg.RepeatedExceeds | src/bench/quality.rs:179-212 | with a repeated document, the labels that call every listed document relevant score above 1 under every discount |
| Ndcg.ListedTwice | src/bench/quality.rs:179-212 | a sole relevant document listed twice gives recall 2, and nDCG above 1 if and only if its two positions weigh more than the first |
| Ndcg.HitsCount | src/bench/quality.rs:183-186 | hits of a duplicate-free list are the relevant documents among it |
| Ndcg.DcgBound | src/bench/quality.rs:197-212 | h hits weigh at most as much as the first h positions |
| Ndcg.DcgTight | src/bench/quality.rs:197-212 | and as much only if they are the first h positions |
| Ndcg.IdealMonotone | src/bench/quality.rs:208-211 | the ideal grows strictly with the number of hits |
| Ndcg.ReciprocalRankExact | src/bench/quality.rs:192-196 | the reciprocal of the first relevant position |
| Ndcg.ReciprocalRankBounds | src/bench/quality.rs:192-196 | between 0 and 1, and zero exactly without a relevant position |
| Ndcg.RecallExact | src/bench/quality.rs:179-191 | recall is the number of shown positions that hold a relevant document over the number of relevant documents, and 1 if there are none |
| Ndcg.FirstRelevantExact | src/bench/quality.rs:192-196 | the reciprocal rank is that of the first shown position with a relevant document, and zero exactly if none is shown |
| Ndcg.SafetyExact | src/bench/quality.rs:213-232 | the false positive, the obsolete hit, the coverage of every required document and the count of forbidden ones, each in terms of what the first positions show |
| Evaluation.ValidateCorpus | src/bench/quality.rs:103-164 | the messages in their order, repetitions included, with shared names ascending; none if and only if the corpus is sound |
| Evaluation.MessagesExact | src/bench/quality.rs:103-164 | a message is given if and only if what it says of the corpus is so |
| Evaluation.MessagesRanked | src/bench/quality.rs:103-164 | messages come kind after kind: version, documents, citations, a missing case, cases, topics, projects |
| Evaluation.SplitMessagesInOrder | src/bench/quality.rs:153-162 | one message per shared name, in the order of the names |
| Evaluation.DocumentRepeats | src/bench/quality.rs:112-116 | a repeated document is reported once for each time after its first |
| Evaluation.CitationRepeats | src/bench/quality.rs:119-129 | an unknown id is reported once for each time a case cites it |
| Evaluation.AscendingExact | src/bench/quality.rs:153-162 | the shared names are listed once each, smaller ones first |
| Evaluation.NoViolationIffSound | src/bench/quality.rs:103-164 | no message means exactly a sound corpus: ids unique and known, budgets positive, no topic or project in both splits |
| Evaluation.CollectSplits | src/bench/quality.rs:132-152 | the two maps record exactly which splits each topic and project occurs in |
| Evaluation.Evaluate | src/bench/quality.rs:268-320 | the accumulation loop yields the report of the split's own cases |
| Evaluation.AveragesExact | src/bench/quality.rs:285-311 | averages lie between 0 and 1 and are 1 if and only if the split has cases and each scores 1 |
| Evaluation.ZeroTolerance | src/bench/quality.rs:285-319 | leakage total, obsolete rate and false-positive rate are zero if and only if no single case of the split fails them |
| Evaluation.RatesExact | src/bench/quality.rs:285-319 | sizes and rates are exact: of the split's own cases without answer, with obsolete ids and of conflict kind, the share answered, shown obsolete advice, and shown everything required |
| Evaluation.ConflictCoverageExact | src/bench/quality.rs:298-316 | conflict coverage is 1 if and only if the split has conflict cases and each shows every required id, and 0 if and only if none does |
| Evaluation.OneCaseMore | src/bench/quality.rs:268-319 | a further case of the split enters each average with its own score and the leakage total with its own leaks; one of the other split changes nothing; without cases everything is zero |
| Pagination.WalkDelivers | crates/compat/src/lemma/pagination.rs:41-91 | over an exact total that is not truncated, following next_offset delivers the first floor(1000/limit)*limit items; it ends without an error, everything delivered, if and only if the windows of a walk, ceil(total/limit) of them and at least one, fit within 1000 |
| Pagination.PagesConsecutive | crates/compat/src/lemma/pagination.rs:73-91 | the i-th page is the window of limit ranks from offset + i*limit |
| Pagination.PageTellsTruth | crates/compat/src/lemma/pagination.rs:60-91 | over an exact total a page says there is more, and where, if and only if some item comes after it |
| Pagination.RefusedIff | crates/compat/src/lemma/pagination.rs:40-56 | a window is refused if and only if it ends beyond 1000 |
| Pagination.WalkFrom | crates/compat/src/lemma/pagination.rs:73-91 | from any offset, what whole windows can reach is delivered in order |
| Pagination.WalkFailsFrom | crates/compat/src/lemma/pagination.rs:40-56 | and the walk fails exactly when that is not everything left |
| Pagination.RoomFrom | crates/compat/src/lemma/pagination.rs:40-56 | whole windows from zero reach the largest multiple of the limit within the maximum |
| Pagination.EndlessIff | crates/compat/src/lemma/pagination.rs:41-91 | following next_offset never ends if and only if the limit is zero and the first page points on; otherwise a page that points on points beyond itself |
| WorkloadRng.StreamsNeverMeet | src/bench/mod.rs:40-64 | two generators agree on their n-th output, for any one n, if and only if they started in the same state |
| WorkloadRng.StatesNeverMerge | src/bench/mod.rs:48-55 | states after n steps are equal if and only if the initial ones were |
| WorkloadRng.NeverZero | src/bench/mod.rs:40-55 | the state is never zero on any run, from any seed |
| WorkloadRng.XorShiftsInjective | src/bench/mod.rs:50-52 | each xor-shift of a 64-bit word is injective |
| WorkloadRng.NextStateInjective | src/bench/mod.rs:48-53 | so is the whole step |
| WorkloadRng.MultiplierInjective | src/bench/mod.rs:54 | multiplication by the odd constant is injective modulo 2^64 |
| WorkloadRng.SeedsSharingAState | src/bench/mod.rs:42-46 | different seeds start in different states except zero and the constant it stands for |
| WorkloadRng.StepShifts | src/bench/mod.rs:48-53 | the step is exclusive-or with the quotient by 2^12, the product by 2^25 modulo 2^64 and the quotient by 2^27, on the numbers the words write |
| WorkloadRng.StepLinear | src/bench/mod.rs:48-53 | and is linear over exclusive-or |
| WorkloadRng.KindShares | src/bench/mod.rs:121-139 | of a thousand draws the lowest puts_per_1000 give puts, the next half of the rest gets, the others searches; keys and sizes come from the second draw and the configuration |
| WorkloadRng.WordNumberBijection | src/bench/mod.rs:36-40 | 64-bit words and numbers below 2^64 correspond |
| WorkloadRng.Rng.constructor | src/bench/mod.rs:42-46 | a generator that has drawn nothing |
| WorkloadRng.Rng.NextU64 | src/bench/mod.rs:48-55 | the n-th call returns the n-th output of the seed's stream |
| WorkloadRng.Rng.Below | src/bench/mod.rs:60-63 | the next output reduced modulo the bound |
| WorkloadRng.OpGenerator.constructor | src/bench/mod.rs:110-119 | a stream that has emitted nothing |
| WorkloadRng.OpGenerator.NextOp | src/bench/mod.rs:121-139 | the n-th op is a function of the configuration alone, and takes two draws |
| Quota.QuotaTracker.RegisterClient | crates/daemon/src/limits.rs:76-92 | a held key always gets in, a new key if a slot is free; counts stay the multiplicities of live connections |
| Quota.QuotaTracker.UnregisterClient | crates/daemon/src/limits.rs:97-106 | one connection leaves, so a slot frees exactly with the last holder of its key; no zero count stays behind |
| Quota.SlotsBounded | crates/daemon/src/limits.rs:76-92 | over any run the held keys never outnumber the limit |
| Quota.RefusedExactly | crates/daemon/src/limits.rs:76-92 | after any run a connection is refused, and nothing changes, if and only if its key has none and other keys hold every slot; else its key has one more |
| Quota.QuotaTracker.ClientCount | crates/daemon/src/limits.rs:153-159 | the sum of the counts is the number of live connections |
| Quota.QuotaTracker.TryEnqueue | crates/daemon/src/limits.rs:109-117 | bounded per frontend, others untouched; afterwards the frontend has an entry, and it is zero if and only if the limit is zero |
| Quota.QuotaTracker.Dequeue | crates/daemon/src/limits.rs:120-128 | one less, never below zero, no zero entry kept, others untouched |
| Quota.QuotaTracker.TryStartStorage | crates/daemon/src/limits.rs:131-138 | storage slots never exceed the limit |
| Quota.QuotaTracker.FinishStorage | crates/daemon/src/limits.rs:141-144 | never below zero |
| Quota.QuotaTracker.constructor | crates/daemon/src/limits.rs:63-70 | nothing held, queued or in flight |
| CanonicalExport.OrderIndependentIff | crates/domain/src/export.rs:55-62 | with a collision-free printer, the digest of an export ignores the order of its sorted collections if and only if keys identify the records in each |
| CanonicalExport.SameDigestIff | crates/domain/src/export.rs:55-62 | with a collision-free printer, any two exports have one digest if and only if they hold, for every key of every sorted collection, the same records in the same order, and agree on the rest |
| CanonicalExport.SameFormIff | crates/domain/src/export.rs:30-38 | any two exports normalise alike under the same condition |
| CanonicalExport.EqualSortsIff | crates/domain/src/export.rs:31-37 | two collections sort alike if and only if they hold, for every key, the same records in the same order |
| CanonicalExport.DigestIff | crates/domain/src/export.rs:55-62 | if the keys of one export identify its records, another that holds the same records, with sessions and projects in the same order, has its digest, and with a collision-free printer only such a one |
| CanonicalExport.CanonicalFormIff | crates/domain/src/export.rs:30-38 | if the keys of one export identify its records, another normalises like it if and only if it permutes the sorted collections and agrees on the rest |
| CanonicalExport.CanonicalIff | crates/domain/src/export.rs:30-38 | sorting brings all arrangements of a collection to one form if and only if its keys identify the records |
| CanonicalExport.NormalizeIdempotent | crates/domain/src/export.rs:30-38 | normalising twice changes nothing |
| CanonicalExport.SessionOrderMatters | crates/domain/src/export.rs:55-62 | counterexample: exchanging two sessions changes the digest |
| CanonicalExport.SortSpec | crates/domain/src/export.rs:31-37 | sorting by key gives a sorted permutation in which equal keys keep their order |
| CanonicalExport.NormalizeExact | crates/domain/src/export.rs:30-38 | six collections end in ascending order of ids and the guides in lexicographic order of names, each stably and with the same records; sessions, projects and unknown fields are untouched |
| Basics.NameLeIff | crates/domain/src/export.rs:34 | the order of names is lexicographic |
| CanonicalExport.SortForgetsOrder | crates/domain/src/export.rs:31-37 | with identifying keys, sorted results are equal if and only if the inputs are permutations |
| CanonicalExport.ExportBuffer.Normalize | crates/domain/src/export.rs:30-38 | sorts seven collections in place, leaves sessions, projects and unknown fields |
| CanonicalExport.ExportBuffer.Digest | crates/domain/src/export.rs:58-62 | hashes a normalised copy; the export keeps its order |

## Left out

- The canonical store, dispatcher, restore and import coordinators, sockets, model loading and the HTTP visualizer: foreign or storage code outside these cores.
- Persisting and loading: the JSON text, the file, its rename and synchronisation, and a missing file (an empty registry); a file is its snapshot value.
- The registry's live-connection counter, `channel_count`, `is_explicit` and the session fields it only initialises: single-branch members.
- Overflow of `now + 120000` in the registry: excluded by `ClockFits`.
- Waiting in `pop_timeout`: a pop that times out and a pop that succeeds are separate worker steps; condition variables are not modelled.
- Worker steps that are one step here and several instructions in the code: a cancelled request's counters and reply; a served request's inference, reply and counters; a refused push and its second look at `closed`; a drained message's reply and counter.
- The memory ordering of the worker's atomics: steps are sequentially consistent.
- Wrap-around of the worker's statistics counters and of a transiently negative in-flight counter: they are unbounded integers.
- Interleaving in the imperative worker: its methods run whole submissions and whole loop passes; interleavings are covered by the runs of `WorkerProtocol`.
- Non-ASCII text in the two scanners, lifetimes and nested block comments in the skipper: the grammar of `TestModules` excludes them. Slices are offsets into one text.
- SanitizeName: Unicode lower-casing is any function that leaves lower-case letters, digits, underscores and hyphens alone, applied character by character.
- Asynchronous reads and writes: a stream is the byte sequence it delivers, and reading past its end fails having consumed it.
- The wording of corpus validation messages: a message is a value that names what is wrong.
- Floating-point rounding in scores and averages: reals.
- The library sort: `SortByKey` is the outcome of a stable sort, not its algorithm. SHA-256 and JSON are functions, injective where a theorem says so.
- The order in which hash maps are read: an arbitrary choice at each step, so results hold for every order.
- Histograms, the Poisson schedule, probe vectors, response-size checks, `total_queued` and report rendering: rounding or single-branch members.
