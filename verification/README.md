# Klef: verified model of the causal DAG and its guards

Klef is a DAG-based Byzantine fault tolerant replica written in Go. This project models the parts
of it whose correctness is hardest to see from the code and proves what they promise.

* **The causal DAG and its orphan buffer.** `DAG.AddVertex` takes vertices in any order, parks
  those whose parents are absent in an `Orphanage` (three redundant maps, eviction at a capacity)
  and commits everything an arrival unblocks with a worklist. `CausalState.dfy` says in a few
  functions on values what one call means, with no dependency index at all; the classes
  `OrphanBuffer.Orphanage` and `Dag.DAG` are the source's imperative code and are proved to
  compute exactly that. `Convergence.dfy`, `Agreement.dfy`, `Eviction.dfy`, `Ancestry.dfy` and
  `Concurrency.dfy` prove, over all runs and all thread schedules: every replica ends with the
  least causally closed set of what it was given; when exactly eviction gets in the way, and that
  redelivery repairs it at any capacity; commit order is topological; the tips cover the DAG;
  concurrent calls are linearizable. `Fetching.dfy` is the handler that feeds fetched vertices in.
* **The request table.** `PriorityQueues.dfy` joins the repository's `Swap`, `Push` and `Pop` to
  the sift-up and sift-down of Go's `container/heap`; `PendingRequests.dfy` proves that the lazy
  cleanup is an exact filter; `PendingRuns.dfy` proves, over runs and in 64-bit arithmetic
  (`Integers.dfy`), what a pending answer and a retry number mean and when single flight holds.
* **The hashed byte stream.** `Encoding.dfy` builds the stream with the source's loops;
  `Codec.dfy` proves exactly what it determines, and which vertices collide. `Vertices.dfy` and
  `Hashes.dfy` hold the canonical order and the canonical parent list.
* **Penalties.** `Slashing.dfy` is the ledger with its three entry points; `LedgerRuns.dfy` proves
  what every run keeps; `Demerits.dfy` gives a closed formula for penalties caused by delivery, and
  says exactly when the order of deliveries matters.
* **Quorums and proposals.** `Quorums.dfy` proves intersection and its exact limits;
  `Proposing.dfy` proves what a proposal looks like and who accepts it.

SHA-256 enters as a parameter: any function from byte strings to 32-byte hashes. Results about
acyclicity, safety and the linearizability of the DAG hold for every such function. Convergence
asks that a hash name one list of parents and one round (`Agreement.Consistent`), penalties also
that it name one author. `CollisionFreedom.dfy` derives the first from collision freedom on the
streams that occur, for all certificates and all authors, and the second for authors within 32
bits, and restates the main results with these hypotheses. DAGs are compared on hash, parents and
round. Clock readings and random draws are arguments.

## Where the code and its documentation differ

* `core/orphanage.go:28-36` promises convergence once all data is "eventually received". An orphan
  pushed out of a full buffer is gone until someone sends it again. A run converges exactly when
  every such eviction inside the closure is followed by another delivery (`Eviction.ConvergesIff`);
  a delivery sequence converges at every capacity exactly when it contains the closure
  parents-first (`Eviction.ConvergesAtEveryCapacityIff`); and every order of a complete set
  converges exactly when the buffer has a place for each vertex with parents
  (`Eviction.EveryOrderConvergesIff`, with the losing order in `Eviction.EvictionCanLose`).
* `consensus/quorumpolicy.go:14-19` promises that quorums intersect across membership views.
  Certificates are accepted by counting signers from either view, so they always intersect exactly
  when two quorums do not fit side by side into the union of the views
  (`Quorums.CertificatesMeetIff`, `Quorums.TransitionSafeIff`). Nested views qualify;
  `Quorums.TransitionUnsafe` is a transition that does not.
* The default ratio 0.67 gives the textbook 2f + 1 only up to f = 32 (`Quorums.TextbookSize`).
* A nil certificate is counted but not written, so the bytes behind it can be read as a certificate:
  vertices with different certificates, timestamps and payloads share a stream
  (`Codec.NilCertificateHidesPayload`), and every list that mixes nil and present entries collides
  with another (`Codec.MixedListsCollide`). Without nil certificates the stream determines the
  fields exactly up to the widths they are written in (`Codec.EqualStreamsIff`).
* An author is an `int` but is hashed as 32 bits, so a vertex and its copy under an author shifted by
  2^32 share their hash under every hash function (`Codec.AuthorsCollide`). The DAG is not affected,
  but the ledger charges only the author of the copy that comes first
  (`CollisionFreedom.PenaltyDependsOnOrder`). Exactly when the order of deliveries matters for an
  author is `Demerits.OrderIrrelevantIff`.
* Backoff and jitter are computed in 64 bits. Single flight holds in all runs exactly below two bounds
  on the configuration (`PendingRuns.SingleFlightIff`), and fails right above each of them
  (`PendingRuns.BackoffOverflows`, `PendingRuns.JitterOverflows`).
* A cleanup that finds a hash expired forgets how often it was tried (`PendingRuns.SweepResets`).
  Backoff follows the number of requests since the last resolution exactly when no such cleanup
  came in between (`PendingRuns.EscalatesIff`).
* A fetched vertex that is committed when the response reaches it, before the response or by an
  earlier vertex of it, keeps its request pending until it expires (`Fetching.StaysPendingIff`,
  `Fetching.ReleasedStaysPending`, `Fetching.CommittedStaysPending`).
* `HandleEquivocation` records evidence without checking it (`LedgerRuns.EquivocationUnchecked`), so a
  ledger verifies itself exactly when the reports acted on were genuine
  (`LedgerRuns.LedgerVerifiesItself`).

## Model

| member | source | states |
|---|---|---|
| Dag.DAG.AddVertex | core/dag.go:69-137 | one call takes the abstract node (DAG, orphans, commit log, ledger) to the state the index-free definition prescribes and keeps every invariant; for a round gap that fits 64 bits it requests a sync if and only if the vertex is admissible, new, has a parent not committed and a round above the node's by more than the threshold; the request names the author and exactly the parents not committed, in ascending order |
| Dag.SyncMeans | core/dag.go:117-124 | when a sync request is due and what it holds, for every committed set, vertex, round and threshold |
| Dag.DAG.Validate | core/dag.go:78-96 | accepts exactly the vertices that carry the hash of their content and strictly increasing parents; charges exactly the hash-valid malformed ones, naming the first fault |
| Dag.ReportNamesFirstFault | pkg/types/vertex.go:175-186 | the demerit is the configured amount against the author, and its reason is the message for the first adjacent pair of parents that is equal or descending |
| Dag.DAG.InsertLocked | core/dag.go:99-136 | the locked section alone, from any valid state and with nothing assumed from the earlier lock-free check, has the prescribed effect |
| Integers.Wrap64 | core/dag.go:118 | what a 64-bit `int` keeps of a difference: in range always, exact when it fits |
| Integers.WrapsByMultiples | core/dag.go:118 | only multiples of 2^64 are lost |
| Dag.DAG.StoreOrphan | core/dag.go:113-115 | parking keeps the whole node valid |
| Dag.DAG.GetMissingHashesLocked | core/dag.go:186-194 | returns exactly the hashes not committed, still strictly increasing if they were |
| Dag.DAG.ProcessInsertionLocked | core/dag.go:142-182 | the worklist loop over the counted index terminates with the cascade of the index-free definition, commit order included, and with every round in canonical order |
| Dag.DAG.CommitVertex | core/dag.go:154-167 | one iteration commits the vertex, and what the index releases is exactly the list of orphans it completes, in canonical order |
| Dag.DAG.SortReady | core/dag.go:161-166 | the second sort of the released children changes nothing |
| Dag.SortRounds | core/dag.go:171-181 | sorting only the affected rounds, in whatever order the set yields them, makes the whole round index a function of the committed set |
| Dag.DAG.NormalizeIndex | core/dag.go:171-181 | index normalisation restores the invariant and touches nothing else |
| Dag.DAG.GetVerticesByRound | core/dag.go:218-230 | returns exactly the committed vertices of the round, in strictly ascending order of their hashes, whatever the order of arrival |
| Dag.DAG.GetTips | core/dag.go:244-269 | returns exactly the committed vertices that no committed vertex names as parent |
| Fetching.Replica.HandleFetchResponse | replica/router.go:75-103 | feeding a response leaves the DAG of one run over all deliveries, takes exactly the hashes handled out of the request table and the watchers, and hands the vertices handled to the fetcher as far as its channel has room |
| Fetching.Replica.HandleVertex | replica/router.go:83-101 | one iteration: nothing at all for a committed vertex, otherwise removal, insertion and a non-blocking send |
| Fetching.StaysPendingIff | replica/router.go:85-90 | without eviction, a hash the response brings stays pending if and only if it lies in the causal closure of what was delivered before it first comes |
| Fetching.ReleasedStaysPending | replica/router.go:85-90 | a waiting child and a response with parent and child: the child's request stays pending although it was answered |
| Fetching.CommittedStaysPending | replica/router.go:85-90 | a hash committed before the response stays pending wherever the response brings it |
| Dag.DAG.constructor | core/dag.go:54-65 | starts valid and empty, with the configured capacity and threshold |
| OrphanBuffer.Orphanage.constructor | core/orphanage.go:61-68 | the empty index agrees with the empty DAG |
| OrphanBuffer.Orphanage.AddOrphan | core/orphanage.go:72-97 | keeps the three maps in agreement and leaves exactly the residents and the newcomer without the one victim, if the buffer is full |
| OrphanBuffer.Orphanage.Register | core/orphanage.go:91-96 | registration under every absent parent, once each, keeps the agreement |
| OrphanBuffer.Orphanage.FindVictim | core/orphanage.go:104-123 | scanning the counts in any order finds the maximum of residents and candidate under (missing count, hash) |
| OrphanBuffer.Orphanage.RemoveOrphan | core/orphanage.go:171-193 | purges one vertex and all its entries; the agreement is kept |
| OrphanBuffer.Without | core/orphanage.go:179-183 | stopping at the first match removes the hash entirely, because a list holds it once |
| OrphanBuffer.Orphanage.LowerCount | core/orphanage.go:148-155 | lowers one count, and releases at zero |
| OrphanBuffer.Orphanage.LowerCounts | core/orphanage.go:141-156 | one pass releases exactly the children that the arrival completes and lowers exactly the others |
| OrphanBuffer.Orphanage.OnParentArrival | core/orphanage.go:127-165 | releases exactly the orphans whose parents are now all present, in canonical order, and re-establishes the agreement for the larger DAG |
| OrphanBuffer.IndexIsDetermined | core/orphanage.go:54-56 | counts are determined, and waiting lists determined up to the order a release removes, by the orphans and the committed hashes |
| OrphanBuffer.ArrivalLowersCount | core/orphanage.go:148-154 | an arrival lowers the number of absent parents of exactly the vertices that name it |
| CausalState.VictimExists | core/orphanage.go:99-123 | there is always a victim |
| CausalState.VictimUnique | core/orphanage.go:99-123 | and only one, so map iteration order cannot matter |
| CausalState.VictimIsHeaviest | core/orphanage.go:99-123 | an orphan is the victim if and only if no other has more absent parents, and none with as many has a larger hash |
| CausalState.CommitReleases | core/dag.go:146-167 | a commit moves as many vertices to the worklist as it takes from the buffer, so orphans plus worklist drop by one per iteration |
| CausalState.CascadeKeepsInv | core/dag.go:142-170 | the cascade saturates: no orphan is left with all parents committed, and the commit log stays topological |
| CausalState.CascadeIsLeast | core/dag.go:142-170 | the cascade commits nothing beyond the least set closed under release |
| CausalState.CascadeConserves | core/dag.go:142-170 | hashes only move between worklist, buffer and DAG: none is created, none is lost |
| CausalState.CascadeExtends | core/dag.go:142-170 | nothing committed is taken back or changed, and the trigger is committed |
| CausalState.WorkIsCommittedInOrder | core/dag.go:146-167 | first in, first out: new vertices on the worklist are committed in its order, before anything their commits release |
| Convergence.RunKeepsInv | core/dag.go:69-182 | saturation, keying and topological order hold in every reachable state, at every capacity |
| Convergence.RunExtends | core/dag.go:69-182 | along every run the DAG and the commit log only grow |
| Convergence.RunDrawsFrom | core/dag.go:78-96 | everything held was delivered and passed validation |
| Convergence.HeldIsSound | core/dag.go:78-96 | in every reachable state each committed or waiting vertex was delivered, is filed under its own hash, carries the digest of its content and has strictly ascending parents |
| Convergence.ClosureIsLeastClosed | core/orphanage.go:34-41 | the reference set: closed under "all parents in", and inside every closed set |
| Convergence.ClosureIsMonotone | core/orphanage.go:34-41 | more vertices, larger closure |
| Convergence.NeverOutsideClosure | core/dag.go:107-135 | safety, for every capacity and every hash function: the DAG stays inside the causal closure of the deliveries |
| Convergence.BufferBounded | core/orphanage.go:81-89 | the buffer never exceeds its capacity in any run, and stays empty for a capacity below one |
| Convergence.CommittedOnDelivery | core/dag.go:107-135 | a vertex delivered once its parents are committed is in every later DAG |
| Convergence.PassesCommitLevels | core/orphanage.go:28-36 | n passes over the same vertices, each in its own order, commit everything whose ancestry is at most n deep |
| Convergence.RedeliveryConverges | core/orphanage.go:28-36 | as many full redeliveries as the ancestry is deep suffice for convergence, in any orders, at any capacity, and whatever inadmissible vertices come with them |
| Agreement.NeverCommittedAndWaiting | core/orphanage.go:54-56 | in every reachable state, with or without eviction, no hash is both committed and an orphan |
| Agreement.CapacitySuffices | core/orphanage.go:81-89 | a buffer with a place for every admitted vertex that has parents never evicts |
| Agreement.DeliveryLosesIff | core/orphanage.go:81-97 | a delivery loses a vertex if and only if it is a new incomplete vertex meeting a full buffer, and then it loses just the heaviest |
| Eviction.HeldIffNotLost | core/orphanage.go:81-97 | at every moment a node holds a hash, committed or waiting, if and only if it was sent and not evicted after it was last sent |
| Eviction.ConvergesIff | core/orphanage.go:28-36 | a run ends with the causal closure committed if and only if every eviction of a vertex of the closure is followed by another delivery of it |
| Eviction.ConvergesAtEveryCapacityIff | core/orphanage.go:28-36 | a delivery sequence converges at every capacity if and only if it converges with no buffer, and if and only if it contains the closure parents-first as a subsequence |
| Eviction.EvictionCanLose | core/orphanage.go:83-88 | at any capacity, delivering more vertices with parents than there are places, and then only roots, loses one of them |
| Eviction.EveryOrderConvergesIff | core/orphanage.go:34-41 | every order of delivering a causally complete set converges if and only if the buffer has a place for each of its vertices that has parents |
| Agreement.ConvergesToClosure | core/scenario_test.go:476-524 | without eviction any order and any repetition of deliveries ends with exactly the closure committed and exactly the rest waiting |
| Agreement.ReplicasAgree | core/scenario_test.go:289-396 | two replicas given vertices of the same hashes, parents and rounds in their own orders, copies and capacities, without eviction, hold the same DAG and the same orphans in these terms |
| Agreement.RoundIndexesAgree | core/dag.go:171-181 | equal DAGs have identical round indexes |
| Agreement.MoreDeliveriesLargerDag | core/orphanage.go:34-41 | a replica that was given more commits more |
| Ancestry.CommitOrderIsTopological | core/dag.go:17-20 | in every run each vertex is committed once and strictly after all its parents, whatever the hash function |
| Ancestry.CyclesNeverCommitted | core/scenario_test.go:399-474 | no member of any parent cycle is ever committed |
| Ancestry.LoopsNeverCommitted | core/scenario_test.go:399-474 | in particular no self-reference and no mutual reference |
| Ancestry.TipsCover | core/dag.go:239-269 | every committed vertex is a tip or an ancestor of a tip, and a nonempty DAG has a tip |
| Ancestry.TipsHaveNoDescendants | core/dag.go:239-269 | a chain of descent that starts at a tip ends there |
| Concurrency.EveryScheduleIsLinear | core/dag.go:70-136 | for any number of threads and any interleaving of optimistic check, validation, locked section and the sync request after it, DAG, orphanage and decided requests are at every moment those of the calls made one after another, and every decided request has been made once or is still owed |
| Concurrency.EveryScheduleJudgesAlike | core/dag.go:70-136 | the same including penalties, when a hash names one list of parents |
| Concurrency.EveryScheduleSyncs | core/dag.go:117-124 | when all calls have returned, the sync requests made are those of the sequential order, each as often |
| Concurrency.EveryScheduleConverges | core/scenario_test.go:476-524 | when all calls have returned the DAG is the closure, whatever the schedule, if the buffer has a place for every vertex with parents |
| Concurrency.EverySchedulePunishesAlike | core/dag.go:87-96 | and the penalties follow the formula, whatever the schedule, unless blame can be diverted |
| Hashes.CompareIsNumeric | pkg/types/hash.go:46-48 | the byte-wise comparison is the order of the denoted numbers, and zero only for equal hashes |
| Hashes.CompareIsLexicographic | pkg/types/hash.go:41-48 | the comparison is negative if and only if the first byte that differs is smaller, and zero only for equal sequences |
| Hashes.HexDigits | pkg/types/hash.go:24-26 | the text of a hash has two digits a byte, from which every byte is read back |
| Hashes.LessAt | pkg/types/hash.go:63 | the slice order is that numeric order |
| Hashes.Swap | pkg/types/hash.go:64 | exchanges two slots in place |
| Hashes.SortHashes | pkg/types/hash.go:50-52 | sorting in place through `Less` and `Swap` has the one possible outcome |
| Sorting.UniqueSorted | pkg/types/hash.go:50-52 | two sorted arrangements of the same elements are equal when the key is injective |
| Vertices.CheckMalformed | pkg/types/vertex.go:170-188 | reports no fault exactly for strictly increasing parents, otherwise the first offending pair and its kind |
| Vertices.DeduplicateAndSort | pkg/types/vertex.go:143-163 | yields the one strictly increasing list of the given set |
| Vertices.Normalize | pkg/types/vertex.go:128-138 | replaces only the parents, by their canonical list, and reports exactly whether there were duplicates |
| Vertices.CanonicalParents | pkg/types/vertex.go:122-188 | strictly increasing, adjacent-pair increasing and unchanged by normalisation are the same; normalising is idempotent and keeps the set |
| Encoding.CalculateHash | pkg/types/vertex.go:62-120 | the buffer the loops fill is the specified stream, for any hash function |
| Encoding.EncodeCertificate | pkg/types/vertex.go:84-105 | the bytes of a certificate do not depend on the iteration order of its signature map: they are those of the ascending list of signers (`Encoding.SignersAscend`) |
| Encoding.CollectSorted | pkg/types/vertex.go:93-97 | collecting map keys in any order and sorting gives the keys, each once, in ascending integer order |
| Encoding.SignersAscend | pkg/types/vertex.go:92-105 | for every ascending list of exactly the signers, a certificate ends with its length and then each signer with its signature, in that order |
| Encoding.SampleStream | pkg/types/vertex.go:62-116 | the bytes of one vertex with a two-signature certificate and a negative timestamp, written out: field order, widths and byte order |
| Encoding.EncodeIgnoresSeal | pkg/types/vertex.go:60-119 | hash and signature do not influence the stream |
| Codec.FitsIsRange | pkg/types/vertex.go:66-67 | the widths written are the signed 8, 32 and 64-bit ranges |
| Codec.QCRoundTrip | pkg/types/vertex.go:84-105 | a certificate within all widths is read back, signature map included, with the rest untouched |
| Codec.FieldsRoundTrip | pkg/types/vertex.go:62-116 | without nil certificates the stream is read back for all integers, each reduced to its width |
| Codec.VertexRoundTrip | pkg/types/vertex.go:62-116 | decode(encode(v) + rest) = (v, rest) on the hashed fields |
| Codec.EqualStreamsIff | pkg/types/vertex.go:62-119 | without nil certificates, streams are equal if and only if all hashed fields agree, every integer modulo its width |
| Codec.DecodesExactlyWhenEncodable | pkg/types/vertex.go:62-116 | of the decoder: it recovers a vertex from its stream if and only if every field fits its width and no certificate is nil |
| Codec.EncodeIsInjective | pkg/types/vertex.go:60-119 | the stream determines all hashed fields of vertices within all widths |
| Codec.AuthorsCollide | pkg/types/vertex.go:66 | a vertex and its copy under an author shifted by a multiple of 2^32 have one stream and one hash, for every hash function |
| Codec.MixedListsCollide | pkg/types/vertex.go:78-82 | every list that mixes nil and present certificates has the stream of a different arrangement of the same entries |
| Codec.NilCertificateHidesPayload | pkg/types/vertex.go:78-116 | vertices that differ in certificates, timestamp and payload can have the same stream, and so the same hash for every hash function |
| CollisionFreedom.StreamFixesShape | pkg/types/vertex.go:65-75 | equal streams have equal parents and rounds, and authors equal modulo 2^32, whatever the certificates |
| CollisionFreedom.CollisionFreeIsConsistent | pkg/types/vertex.go:60-120 | for any set of hash-valid vertices with fewer than 2^31 parents, collision freedom gives one list of parents and one round per hash |
| CollisionFreedom.CollisionFreeAttributes | pkg/types/vertex.go:60-120 | with authors within 32 bits it gives one author per hash as well |
| CollisionFreedom.CollisionFreeReplicasAgree | core/scenario_test.go:289-396 | replicas agree on DAG and orphans under collision freedom alone |
| CollisionFreedom.CollisionFreeSchedule | core/dag.go:70-136 | every schedule is sequential on the whole node under collision freedom alone |
| CollisionFreedom.CollisionFreePenaltiesAgree | core/dag.go:87-96 | replicas punish alike under collision freedom and authors within 32 bits |
| CollisionFreedom.CollisionFreeSchedulePunishes | core/dag.go:87-96 | and so does every schedule |
| CollisionFreedom.PenaltyDependsOnOrder | core/slasher.go:153-163 | without the bound on authors, for every hash function: a malformed vertex costs its author the penalty or nothing, depending on whether a copy under a shifted author comes first |
| PriorityQueues.PriorityQueue.Swap | internal/ds/priority_queue.go:22-26 | exchanges two slots and every item still knows its own |
| PriorityQueues.PriorityQueue.Push | internal/ds/priority_queue.go:29-34 | appends an item that knows its slot |
| PriorityQueues.PriorityQueue.Pop | internal/ds/priority_queue.go:37-45 | removes the last item and invalidates its index |
| PriorityQueues.PriorityQueue.Up | internal/ds/priority_queue.go:14-26 | sift-up over `Less` and `Swap` repairs the heap and keeps the multiset of items |
| PriorityQueues.PriorityQueue.Down | internal/ds/priority_queue.go:14-26 | sift-down likewise, leaving the slots beyond its range alone |
| PriorityQueues.PriorityQueue.HeapPush | internal/ds/priority_queue.go:14-34 | heap order, index tracking and the multiset of items survive a push |
| PriorityQueues.PriorityQueue.HeapPop | internal/ds/priority_queue.go:14-45 | hands out an item that expires no later than any other, with index -1, and keeps the rest a tracked heap |
| PriorityQueues.TopIsLeast | core/pending_manager.go:224-229 | the top of a heap expires first |
| PendingRequests.PendingManager.Add | core/pending_manager.go:92-139 | true exactly when no unexpired request exists, and then the hash alone gets a new entry from now to the end of its window, the capped backoff plus jitter, both in 64 bits; every entry keeps a heap item |
| PendingRequests.PendingManager.Remove | core/pending_manager.go:162-182 | forgets the hash, signals every channel registered for it and no other, leaves the heap alone |
| PendingRequests.PendingManager.Watch | core/pending_manager.go:143-159 | registers one fresh, unsignalled channel under each hash |
| PendingRequests.WatchedExactly | core/pending_manager.go:151-156 | a watcher is registered for exactly the hashes it asked for and displaces nobody |
| PendingRuns.PendingIffInFlight | core/pending_manager.go:184-190 | in every run a hash is pending if and only if a request for it went out, nothing resolved it since, and its window is not over: cleanups and refused requests never change the answer |
| PendingRequests.PendingManager.Cleanup | core/pending_manager.go:209-234 | the lazy loop that stops at the first live top equals an eager filter of the whole table, and leaves no expired item, live or stale, in the heap |
| PendingRequests.PushKeepsBacked | core/pending_manager.go:126-136 | pushing the new item first for a re-added hash keeps every map entry matched in the heap |
| PendingRequests.PopKeepsBacked | core/pending_manager.go:218-222 | popping an item that matches no entry leaves every entry matched |
| PendingRuns.BackoffsExactIff | core/pending_manager.go:112-115 | the 64-bit backoffs are the intended minima for all sixteen retries if and only if the base timeout is below 2^48 ns |
| PendingRuns.BackoffOverflows | core/pending_manager.go:112-115 | at a base timeout of 2^48 ns the last wait is negative and single flight fails, whatever the positive cap |
| PendingRuns.JitterOverflows | core/pending_manager.go:117-123 | one nanosecond less, without a cap, all backoffs are exact, but the last one with its jitter exceeds 64 bits and single flight fails |
| PendingRuns.WindowBounds | core/pending_manager.go:104-123 | below both 64-bit bounds, the backoff is min(base * 2^r, cap), monotone in r, and jitter adds at most a fifth |
| PendingRuns.WindowsAreJittered | core/pending_manager.go:112-123 | below those bounds, with b = min(base * 2^r, cap), the windows that a uniform source can draw are exactly those in [b, b + b / 5) for b of at least 5, and exactly b otherwise |
| PendingRuns.SingleFlight | core/pending_manager.go:8-10 | two requests for a hash that both go out without a resolution between them are at least the base window apart, across any other requests, resolutions and cleanups |
| PendingRuns.LongWindowsIff | core/pending_manager.go:112-123 | every 64-bit window reaches the base window if and only if base < 2^48 and the longest backoff with a fifth of jitter is at most 2^63 |
| PendingRuns.SingleFlightIff | core/pending_manager.go:92-139 | that holds in all runs if and only if no positive window is asked for or the configuration stays below those two bounds |
| PendingRuns.RetryIsRemembered | core/pending_manager.go:105-111 | in every run the next retry number is the number of requests that went out since the last resolution or the last cleanup that found the hash expired, at most 15 |
| PendingRuns.EscalatesIff | core/pending_manager.go:104-111 | it is the number of requests since the last resolution if and only if no cleanup found the hash expired in between, or the cap is reached all the same |
| PendingRuns.SweepResets | core/pending_manager.go:231-232 | one request and one cleanup at its expiry: the next retry is number 0 where it was 1 |
| Slashing.Slasher.ExecuteSlasher | core/slasher.go:110-134 | penalty, processed hash and evidence are recorded together |
| Slashing.Slasher.HandleEquivocation | core/slasher.go:53-78 | charges once per first proof hash, whatever the second vertex, nil included, and returns the evidence recorded, or nothing |
| Slashing.Slasher.ProcessExternalEvidence | core/slasher.go:81-107 | charges only valid evidence, only the unslashed, only unprocessed proofs |
| Slashing.Slasher.AddDemerit | core/slasher.go:153-163 | charges only the unslashed and only unprocessed proofs |
| Slashing.CheckEvidence | pkg/types/message.go:81-106 | the validity check with its index loop accepts exactly the evidence whose proofs are by the target and either conflict in one round or, for an invalid payload, have parents out of order |
| LedgerRuns.ChargedOnce | core/slasher.go:29-39 | over any reports through all entry points a proof hash is charged at most once, the processed set is the set of charged hashes, and a penalty is the sum of its charges |
| LedgerRuns.ExternalCosts | core/slasher.go:81-107 | after any reports, evidence of a peer adds exactly the equivocation penalty, the first proof hash and one entry with its proofs, kind and description if it is valid, its target is below the threshold and the hash is new; otherwise the ledger is unchanged |
| LedgerRuns.EquivocationCosts | core/slasher.go:53-78 | the same for an equivocation found locally, exactly if the hash of the first vertex is new |
| LedgerRuns.DemeritCosts | core/slasher.go:153-163 | the same for a demerit and its amount, exactly if the author is below the threshold and the hash is new |
| LedgerRuns.SlashedStaysSlashed | core/slasher.go:143-150 | penalties never drop, so the answer "slashed" is final |
| LedgerRuns.LedgerVerifiesItself | pkg/types/message.go:80-106 | every recorded entry passes the validity check of any peer if and only if every report acted on was genuine |
| LedgerRuns.EquivocationUnchecked | core/slasher.go:53-78 | called with a vertex twice, `HandleEquivocation` charges the author and records evidence that is not valid |
| Demerits.DeliveredEvidenceIsValid | core/dag.go:87-95 | every entry that vertex delivery leaves in the ledger is valid evidence |
| Demerits.PenaltyFormula | core/dag.go:87-96 | with vertex delivery as only source and no diversion, penalty = P * min(k, ceil(T / P)), k the number of distinct malformed hash-valid vertices that came under the author's name |
| Demerits.PenaltiesAgree | core/dag.go:87-96 | replicas given malformed vertices of the same hashes and authors, in any orders and among any others, punish an author alike if no blame can be diverted from it |
| Demerits.OrderIrrelevantIff | core/slasher.go:153-163 | every order of delivering a set punishes an author alike if and only if no blame can be diverted: others, within what it takes to slash them, cannot take enough of the hashes that also came under their names |
| Demerits.PairOrderIff | core/slasher.go:153-163 | of two malformed copies of one hash only the first is charged, so their order matters if and only if their authors differ |
| Quorums.ThresholdBounds | consensus/quorumpolicy.go:95-97 | for a ratio in [2/3, 1) a quorum exists and exceeds two thirds |
| Quorums.ThresholdIsLeastAbove | consensus/quorumpolicy.go:95-97 | for every membership and ratio the size is the least integer strictly above their product |
| Quorums.DefaultSizes | config/config.go:93-98 | the default network of four needs three signers, the default committee of four needs all |
| Quorums.QuorumsIntersect | consensus/quorumpolicy.go:76-101 | any two quorums share more than a third of the members, more than f of 3f + 1 |
| Quorums.CertificatesIntersect | consensus/quorumpolicy.go:80-125 | in or out of a transition, the signers of two accepted certificates share more than a third of a membership that is not larger than the size decided for |
| Quorums.TransitionSize | consensus/quorumpolicy.go:103-110 | in a transition the size is the one for the larger membership of the certificate's type |
| Quorums.CertificatesMeetIff | consensus/quorumpolicy.go:80-125 | for every policy, type and set of possible signers, any two accepted certificates share a signer if and only if twice the quorum size exceeds the number of possible signers |
| Quorums.TransitionSafeIff | consensus/quorumpolicy.go:14-19 | in a transition, with signers from either view, that is: twice the threshold of the larger view exceeds the union of the views |
| Quorums.TransitionUnsafe | consensus/quorumpolicy.go:14-19 | a transition from ten members to six others accepts two certificates without a common signer |
| Quorums.NestedViewsSafe | consensus/quorumpolicy.go:76-111 | growing or shrinking a membership keeps intersection of accepted certificates |
| Quorums.TextbookSize | consensus/quorumpolicy.go:58-60 | ratio 0.67 asks for 2f + 1 of 3f + 1 exactly when f <= 32, and never for less |
| Proposing.Proposer.Propose | consensus/proposer.go:68-108 | sends if and only if the pool holds at least the quorum size of votes for the round and the next round is above the last proposed; then exactly one signed, hash-valid proposal with the voted hashes as parents, and marks its round; as many distinct voters as the policy asks for suffice for a proposal whose certificate is accepted |
| Proposing.Proposer.Seal | consensus/proposer.go:98-100 | the hash still fits after hash and signature are filled in |
| Proposing.ExtractHashesFromVotes | consensus/proposer.go:111-127 | the voted hashes, once each, in canonical order whatever the map order |
| Proposing.AssembleQC | consensus/proposer.go:144-171 | one signature per sender, the last one, and the hash of the last vote |
| Proposing.CertificateIsQuorumIff | consensus/quorumpolicy.go:117-125 | the certificate is a quorum if and only if enough distinct senders voted |
| Proposing.CertificateMeans | consensus/proposer.go:144-171 | the certificate names the given type, round and proposer, the hash of the last vote with content, and for each voter, and nobody else, the signature of its last vote |
| Proposing.EnoughVoters | replica/consensus.go:36-42 | as many distinct voters as the policy asks for pass the count and make an accepted certificate, whatever other votes there are |
| Proposing.ProperVotesGiveQuorum | replica/consensus.go:29-45 | votes that pass the count, with content and distinct senders, give a certificate the policy accepts |
| Proposing.ProposalIsAccepted | consensus/proposer.go:85-100 | every replica admits a proposal, keeps it if it has room, and charges nobody; its parents are the voted set |
| Proposing.NoSelfEquivocation | replica/state.go:67-83 | no two broadcasts of one proposer are valid evidence of equivocation |

## Left out

- SHA-256 and Ed25519: the hash function and the signer are parameters; `Verifier.VerifyVertex` is a stub in the source.
- Network, gob codec, transports, `main`, lifecycle loops, logging and configuration loading: plumbing without a property of this kind.
- `VertexFetcher` timers and goroutines: a sync request is the value returned by `AddVertex`, and an event of the concurrent model.
- Message admission by the router: not part of this model, and no claim is made about which vertices reach the DAG.
- `Finalizer`, `Mempool`, `VotePool` insertion, sharding, execution: design notes or simple storage.
- Agreement from a certificate: `assembleQC` mixes votes for different hashes, so a certificate does not certify one vertex.
- Equality of penalty tables between nodes that exchange evidence: a malformed vertex costs one amount locally and another when reported.
- Setters, peer sampling, interval clamps and `UpdatePeerRound`: each is settled by one branch.
- Pointers to vertices: vertices are values, so mutation of a vertex after delivery is not captured, and `Normalize` returns the vertex it changes in place.
- Go's sort algorithms: an insertion sort stands for them; `Sorting.UniqueSorted` shows that the algorithm cannot matter.
- The `HeapItem` interface: the queue is specialised to `PendingItem`.
- Machine integers elsewhere: 64-bit wrap-around is modelled for the round gap, the backoff and its jitter; penalty sums, round numbers and points in time are unbounded.
- Floating point: quorum ratios are exact reals, so rounding of `n * ratio` is not captured.
- Reader-writer locks: each critical section is one atomic step of `Concurrency.Step`.
- Fetching.Replica.HandleFetchResponse: the fetcher that drains the channel meanwhile is not modelled, and one response is handled at a time.
- Dag.DAG.GetTips: returns a set, because the order of the source's result is that of a map iteration.
- OrphanBuffer.Orphanage.AddOrphan: requires the list of missing parents to be free of repetition and equal to the absent parents, which its one caller guarantees.
- PendingRequests.PendingManager.Remove: a channel is a flag with room for one signal; blocking and closing are not modelled.
- Proposing.Proposer.Propose: modelled for one call at a time; check and mark are separate critical sections in the source. The vote pool, the round and the clock are arguments.
- Slashing.Slasher.HandleEquivocation: returns the evidence as a value, not a pointer into the ledger.
