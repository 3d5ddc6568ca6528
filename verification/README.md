# Mining worker core, verified

A Dafny model of the parts of the miner whose correctness is not obvious from reading one function, and
proofs about them. The original is written in C++ and JavaScript; paths below are relative to its root.

- **Cycle search and proof check** (`Sequences`, `BipartiteGraph`, `ParentForest`, `CycleRun`, `C29Cycle`,
  `C30Host`, `CappedRun`, `EndpointWalk`, `ProofVerify`). Two programs keep an incremental spanning forest as
  parent links, re-root a tree by turning a path round, and find cycles by joining two root paths: one over a
  dense array with interned endpoints, one over two hash maps. Both are methods with the loops of the original
  and both are proved to compute the same run on graph nodes, for every input and whatever the path cap. That
  run is proved, while no path reaches the cap, to keep an acyclic forest whose trees are the connected
  components, and to emit exactly one simple cycle for exactly the edges that close one of the target length.
  For any cap, the links stay a forest exactly when every edge is taken up clear of the path that is turned.
  The proof check accepts exactly the strictly ascending, in-range nonces whose edges form one simple cycle, and
  its unbounded walk ends. The whole search finds a proof exactly when the graph search finds a readable cycle.
- **Build cache** (`BuildState`). prepare and finish over an abstract build directory, and histories of edits,
  builds, killed compiles and retries: whatever survives is what a clean build would make. One hole is proved:
  a dependency outside the project that a build discovers, and that is deleted before finish, is recorded as
  absent, and a stale object survives. Over whole histories without edits that are put back before a finish, the
  cache is stale exactly while an object names a dependency that is not there. And the cache is used: after an
  accepted build, prepare drops exactly the objects of which a dependency has changed.
- **Async worker** (`AsyncWorker`). The JavaScript thread and the compute thread as interleaved steps, with
  the flags, the queue, the thread-safe function and the callback state; what is posted is sent, and what is sent is
  received in order.
- **cn/gpu barrier phases** (`LaneSchedule`, `CnGpuRecurrence`, `RecurrenceFolds`). Lanes that run straight programs between two
  barriers: race freedom makes every schedule equal to a snapshot. The four intervals of the recurrence are such
  programs, and any number of rounds under any schedules equals a reference that reduces twice; which folds every
  output once.
- **Words** (`Words`, `WordArithmetic`, `Blake2bPair`). Remainder by multiply and shift, products from partial
  products, and BLAKE2b's G (section 3.1 of RFC 7693) on 32-bit halves.
- **Nonce space** (`NonceSpace`, `NonceText`, `PearlSeeds`, `NonceBytes`). Batches that neither wrap, leave the
  pool's prefix nor repeat over the run of all threads; the text check of a nonce against the check of its
  protected bits; PearlHash seed partitions over slots and threads; nonces as bytes and as submitted text.
- **Pools** (`PoolSelection`, `PoolService`, `PoolControls`, `ControlValues`). Which pool is active and which comes
  next, what is dispatched, which results are forwarded, how queued controls and algorithm switches leave a pool's
  record, and which numbers the stored targets and difficulties stand for.
- **Device lists** (`DeviceTuning`). Printing and parsing of device entries.

## Conventions

Code that changes things step by step is a method or a class, specified by a function of the old state; the
theorems are about that function. Machine integers are numbers with explicit wrap-around (`Words`); bitwise
operations are defined on their bits. The edge hash, the float unit, the compiler, text codecs and randomness are
parameters about which nothing is assumed beyond what a contract says. `Basics` holds what several modules share.

What is false of the code is proved false with an input, and the exact condition is proved beside it:

- With a path at the cap the parent links can become cyclic (`CappedRun.CapBreaksForest`), for every cap. They
  stay a forest throughout a run exactly when, at each edge that is taken up, the full root path of the end that
  stays in place avoids the turned path, cut or not (`CappedRun.GrowForestIff`, `CappedRun.RunForestIff`); the
  forest gains exactly that edge when the turned path was not cut (`CappedRun.GrowGainsIff`).
- finish is exact up to vanished headers, for edits that are not put back (`BuildState.FinishCleanIff`,
  `BuildState.VanishedHeaderStaysCached`), and so is every later prepare and finish
  (`BuildState.StaleIffDependencyGone`).
- Testing the first and the last lane of a batch is enough exactly for the masks in which no clear bit is above a
  set one (`NonceSpace.EndsAreEnoughIff`); the default mask of four-byte nonces is not one of them
  (`NonceSpace.LowMaskMissesLanes`), and there lanes 256 apart help (`NonceSpace.LowByteSurvives`).
- In the layout that puts protected bits back with an or, a thread's start can lose the pool's prefix, since its
  offset is tested without a mask and later tests compare with that start (`NonceSpace.ScatteredStartLosesPrefix`);
  it keeps the prefix, through its whole run, exactly when the offset did not carry into it
  (`NonceSpace.ScatteredStartKeepsPrefix`, `NonceSpace.WholeRunKeepsPrefix`).
- A drawn PearlHash seed starts every thread; a resumed one only if it leaves room for the last thread
  (`PearlSeeds.AllStartIffLastFits`, `PearlSeeds.ResumedSeedMayNotFit`).
- The queue of controls does not always stand for its history. It does exactly when both or neither can be
  replayed without error and the few fields that a control may leave alone come out the same
  (`PoolControls.QueueStandsIff`); for targets and difficulties, when no control was malformed or one still in
  the queue is (`PoolControls.QueueStandsForHistory`); with extranonces, when also the size comes out the same
  (`PoolControls.ExtranonceStandsIff`), or for XELIS the nonce and the key (`PoolControls.XelisStandsIff`). The
  failing families are a malformed control that was replaced, an empty Raven target whose source was replaced, an
  extranonce without a size and a XELIS extranonce without a key (`PoolControls.ReplacedErrorIsForgotten`,
  `PoolControls.EmptyTargetNeedsHistory`, `PoolControls.ExtranonceNeedsHistory`,
  `PoolControls.XelisKeyNeedsHistory`).
- An empty Raven target does not leave the target before it as it is: it is padded again, which changes exactly
  the values sent with two 0x in front (`PoolControls.PaddingAgain`, `PoolControls.EmptyTargetPadsAgain`).
- A stale result can be forwarded when a pool sends a token with its job: exactly when the token of the pool's
  job came with it and has been given to a dispatch (`PoolSelection.StaleIffImpersonated`). Among the results that
  workers send, none is stale in a run exactly when no job is stored in the background with the token and id of an
  earlier dispatch to its pool (`PoolSelection.RunCleanIff`, `PoolSelection.SuppliedTokenIsStale`).
- A printed device list is read back exactly when no CPU entry mixes an intensity with other fields and every
  other tuning is valid as a whole (`DeviceTuning.ListRoundTrip`); one that mixes them is printed and refused
  (`DeviceTuning.MixedEntryIsRefused`).

## Model

| member | source | states |
|---|---|---|
| BipartiteGraph.GreedySpans | sycl/c29/cycle.h:145-154 | keeping only the edges that join two components connects exactly what all edges connect |
| ParentForest.ConnectedIffSameRoot | sycl/c29/cycle.h:31-41 | in an acyclic parent forest two nodes are connected by link edges iff they climb to the same root |
| ParentForest.ReversedEdges | sycl/c29/cycle.h:43-48 | turning a path round keeps the undirected edges, except the link above a path that was cut |
| ParentForest.ReversedForest | sycl/c29/cycle.h:43-48 | turning a path round, cut or not, keeps every node's climb finite and makes the start a root |
| ParentForest.ReversedRoot | sycl/c29/cycle.h:43-48 | afterwards a node climbs to the path's start iff its root path touched the path, and as before otherwise |
| ParentForest.LinkForest | sycl/c29/cycle.h:148-154 | hanging a root under a node of another tree keeps a forest and adds exactly that edge |
| ParentForest.LinkForestIff | sycl/c29/cycle.h:148-154 | a root can hang under a node iff that node is in another tree |
| ParentForest.BridgeIsPath | sycl/c29/cycle.h:96-119 | up one root path to the join and down the other is a simple path between the two starts |
| ParentForest.BridgeIsOnlyPath | sycl/c29/cycle.h:96-119 | no other simple path of the forest joins the two starts |
| CycleRun.TurnRoundReverses | sycl/c29/cycle.h:43-48 | the link-by-link rewriting, last link first, is the reversal of the path, cut or not |
| CycleRun.CyclesAreClosedWalks | sycl/c29/cycle.h:121-144 | capped or not, every emitted sequence has the target length and is a closed walk of correctly oriented input edges |
| CycleRun.LinksAreGreedyForest | sycl/c29/cycle.h:86-155 | while no path reaches the cap the links are an acyclic forest with exactly the greedy forest's edges |
| CycleRun.FewEdgesUncapped | sycl/c29/cycle.h:35 | with fewer edges than the cap no path reaches it |
| CycleRun.ClosingComplete | sycl/c29/cycle.h:121-123 | the list of closing indices contains exactly the edges that close a cycle of the target length |
| CycleRun.EmitIff | sycl/c29/cycle.h:89-146 | one round emits iff the forest joins the edge's ends by a path of target - 1 edges, and emits a simple cycle |
| CycleRun.CyclesAreExactlyTheClosing | sycl/c29/cycle.h:86-156 | on uncapped paths the run emits one simple cycle through each closing edge, in order, and nothing else |
| CycleRun.GreedyPathUnique | sycl/c29/cycle.h:86-155 | simple paths in the greedy forest are unique, so "a path of target - 1 edges" is "the path" |
| CappedRun.CapBreaksForest | sycl/c29/cycle.h:35-48 | for every cap from 3 there is an input on which the parent links end up cyclic |
| CappedRun.GrowForestIff | sycl/c29/cycle.h:31-48 | whatever the cap, one edge keeps the forest iff it changes nothing or the end in place climbs clear of the turned path; the links gain that edge and lose the one above a cut |
| CappedRun.GrowGainsIff | sycl/c29/cycle.h:148-154 | the forest gains exactly the edge iff the turned path was not cut |
| CappedRun.RunForestIff | sycl/c29/cycle.h:86-155 | the links are a forest throughout a run iff every edge of it is safe |
| C29Cycle.CreatePath | sycl/c29/cycle.h:31-41 | the array walk is the capped path of the stored links |
| C29Cycle.ReversePath | sycl/c29/cycle.h:43-48 | the in-place loop stores the links turned round along the path |
| C29Cycle.SuffixJoin | sycl/c29/cycle.h:96-106 | the suffix loop returns the start of the longest common suffix |
| C29Cycle.SuffixIsMeet | sycl/c29/cycle.h:96-106 | on root paths the start of the common suffix is the first place where the paths meet |
| C29Cycle.FirstMatch | sycl/c29/cycle.h:107-118 | the nested loops return the first match of opposite parity, or none exists |
| C29Cycle.FirstMatchIsMeet | sycl/c29/cycle.h:107-118 | the parity test loses no match, and the first match is the meeting place |
| C29Cycle.JoinPaths | sycl/c29/cycle.h:94-119 | whichever loop runs, the join is the meeting place of the two paths, or they do not meet |
| C29Cycle.AppendPath | sycl/c29/cycle.h:127-140 | the emitted edges are those along the path, each with its first-side endpoint first |
| C29Cycle.CollectCycle | sycl/c29/cycle.h:124-143 | the emitted sequence is the closing edge, then both path parts |
| C29Cycle.ProcessEdge | sycl/c29/cycle.h:86-155 | one round on the array stores the next links of the run and emits what the run emits |
| C29Cycle.Intern | sycl/c29/cycle.h:64-73 | a node keeps one number and distinct nodes have distinct numbers |
| C29Cycle.InternAll | sycl/c29/cycle.h:60-77 | the dense edges stand for the input edges and every number maps back to its endpoint |
| C29Cycle.FindCycles | sycl/c29/cycle.h:50-157 | the dense search computes the run on nodes, cap included; uncapped, exactly one simple cycle for each closing edge |
| C30Host.Graphs.CreatePath | sycl/c30/c30_host.cpp:50-65 | the alternating walk over two maps is the capped path of the links they store |
| C30Host.Graphs.ReversePath | sycl/c30/c30_host.cpp:67-76 | erasing and inserting link by link stores the links turned round |
| C30Host.FindJoin | sycl/c30/c30_host.cpp:96-106 | stepping by two loses no match; the result is the meeting place or there is none |
| C30Host.CollectCycle | sycl/c30/c30_host.cpp:110-119 | the cycle is the closing edge and both path parts, oriented |
| C30Host.ProcessEdge | sycl/c30/c30_host.cpp:87-128 | one round stores the next links of the run, or returns what the run emits |
| C30Host.FindCycleGraph | sycl/c30/c30_host.cpp:78-130 | the map search returns the first sequence that the dense search lists; uncapped, exactly when some edge closes a cycle |
| C30Host.FirstCycleMeaning | sycl/c30/c30_host.cpp:78-130 | the first emitted cycle exists iff an edge closes one, and then is that edge's cycle |
| C30Host.FindUnused | sycl/c30/c30_host.cpp:265-272 | the first unused nonce with the cycle edge |
| C30Host.MapBack | sycl/c30/c30_host.cpp:262-274 | every edge of a cycle of distinct input edges is mapped to an unused input nonce with that edge |
| C30Host.CycleMembersDistinct | sycl/c30/c30_host.cpp:263-274 | a simple cycle of three or more edges repeats none, so mapping back cannot run out |
| C30Host.SortedCandidate | sycl/c30/c30_host.cpp:275-276 | sorting the nonces of a simple cycle gives strictly ascending nonces with the same edges |
| C30Host.ProofOfCycle | sycl/c30/c30_host.cpp:262-277 | the final check accepts a mapped-back simple cycle iff its nonces are in range |
| C30Host.FindCycle | sycl/c30/c30_host.cpp:250-277 | any proof is valid and made of input nonces; for in-range input on uncapped paths there is a proof iff the graph search finds a cycle |
| EndpointWalk.NoRepeat | sycl/c30/c30_host.cpp:214-229 | the next-endpoint map is injective: a walk can only repeat its start |
| EndpointWalk.OpenWalkDistinct | sycl/c30/c30_host.cpp:214-229 | a walk that has not come back has visited distinct endpoints, so the loop ends |
| EndpointWalk.FullWalkIsCycle | sycl/c30/c30_host.cpp:214-230 | a closed walk over all edges means they form one simple cycle |
| EndpointWalk.CycleHasMates | sycl/c30/c30_host.cpp:217-226 | in a simple cycle every endpoint has exactly one other at its node |
| EndpointWalk.ClosedWalkIsFull | sycl/c30/c30_host.cpp:229-230 | on a simple cycle the walk returns only after all edges |
| ProofVerify.CycleXorsVanish | sycl/c30/c30_host.cpp:208-212 | the exclusive-or pre-check never rejects a simple cycle |
| ProofVerify.FindMate | sycl/c30/c30_host.cpp:217-226 | the scan finds the only other endpoint at the node, or there is none or more than one |
| ProofVerify.LoadEndpoints | sycl/c30/c30_host.cpp:198-210 | accepts iff strictly ascending and in range, and then holds all endpoints and both exclusive-ors |
| ProofVerify.WalkRound | sycl/c30/c30_host.cpp:214-230 | the unbounded walk ends and accepts iff the edges form one simple cycle |
| ProofVerify.Verify | sycl/c30/c30_host.cpp:197-231 | accepts iff strictly ascending, in range and one simple cycle through all edges |
| BuildState.PreparedIsClean | scripts/linux-build-state.js:343-393 | every object that survives prepare is what a clean compile of the current inputs makes |
| BuildState.SurvivingLinkIsFinished | scripts/linux-build-state.js:364-387 | a surviving linked output is that of the last finished build and no object changed since |
| BuildState.PreparedKeepsIff | scripts/linux-build-state.js:372-394 | when prepare goes on from a prior state it keeps an object iff its record is the same, the tracked files are the same set and none of its own dependencies has changed |
| BuildState.PreparedStartsFromNothingIff | scripts/linux-build-state.js:355-396 | otherwise it removes everything; the makefile goes iff the set of tracked files changed |
| BuildState.RebuildIsIncremental | scripts/linux-build-state.js:372-423 | after an accepted finish the next prepare drops exactly the objects of which a dependency has another content now, and the links iff it dropped one |
| BuildState.NothingChangedKeepsAll | scripts/linux-build-state.js:372-423 | without an edit it drops nothing |
| BuildState.FinishIsSound | scripts/linux-build-state.js:394-423 | when finish accepts, every object is a clean compile of the current inputs, or else, if that is let pass, names a dependency that is gone |
| BuildState.FinishCleanIff | scripts/linux-build-state.js:402-416 | when no edit was put back, an accepted finish leaves only clean objects iff no newly discovered outside dependency vanished |
| BuildState.StepKeepsInv | scripts/linux-build-state.js:343-423 | each edit, compile, kill, prepare and finish that missed nothing keeps every object explained by what the session could read |
| BuildState.CleaningKeepsInv | scripts/linux-build-state.js:355-371 | a prepare that starts from nothing restores everything, whatever went before |
| BuildState.CacheAgreesWithCleanBuild | scripts/linux-build-state.js:343-423 | over every history, after each prepare and each accepted finish the cache agrees with a clean build, unless an earlier finish missed something and no prepare has started from nothing since |
| BuildState.StaleIffDependencyGone | scripts/linux-build-state.js:343-423 | over every history without edits put back before a finish, after each prepare and finish the cache agrees with a clean build iff every dependency that an object names is there |
| BuildState.UndisturbedIsAccepted | scripts/linux-build-state.js:399-421 | in every history, a build during which nothing was edited is accepted iff it was prepared and has linked its output |
| BuildState.AcceptedIsAsStarted | scripts/linux-build-state.js:399-421 | what is accepted has a linked output, from the inputs of its start, outside dependencies included unless gone |
| BuildState.VanishedHeaderStaysCached | scripts/linux-build-state.js:410-415 | with a faithful compiler, a history in which a deleted new outside header leaves a stale object that survives the next prepare |
| BuildState.BuildDirectory.CurrentExternal | scripts/linux-build-state.js:243-255 | the loop collects the current content of every outside dependency |
| BuildState.BuildDirectory.DropInvalid | scripts/linux-build-state.js:376-386 | the loop keeps exactly the objects that the prior state vouches for |
| BuildState.BuildDirectory.MustClean | scripts/linux-build-state.js:343-360 | decides a clean build as the conditions say |
| BuildState.BuildDirectory.Prune | scripts/linux-build-state.js:363-390 | what stays of objects, links and generated files |
| BuildState.BuildDirectory.Prepare | scripts/linux-build-state.js:343-393 | the whole new directory, checkpoint included |
| BuildState.BuildDirectory.Finish | scripts/linux-build-state.js:394-422 | accepts or refuses, and the whole new directory |
| BuildState.ChangedNames | scripts/linux-build-state.js:367-374 | exactly the names whose recorded content is not the current one |
| AsyncWorker.DoKeepsInv | native/async-worker.h:210-348 | every step of either thread keeps the protocol's invariant |
| AsyncWorker.CloseIsLast | native/async-worker.h:290-299 | at most one close is queued and nothing after it |
| AsyncWorker.OneTerminalEventLast | native/async-worker.h:246-262 | a terminal event is the last event, and a finished thread's last event is terminal |
| AsyncWorker.FinishedHasTold | native/async-worker.h:246-262 | a finished thread has queued an event |
| AsyncWorker.FunctionUsedWhileLive | native/async-worker.h:210-236 | the thread-safe function is never used or released after its release, and a finished thread released it |
| AsyncWorker.CallbacksOwnedOnce | native/async-worker.h:210-218 | the callback state has one owner until it is freed, and is freed once |
| AsyncWorker.JoinHasReason | native/async-worker.h:290-299 | a join waits only with a close queued or Execute already left |
| AsyncWorker.NoThreadAfterJoin | native/async-worker.h:327-333 | after the join the compute thread never runs again |
| AsyncWorker.JsSends | native/async-worker.h:288-297 | the end of a post writes its message, stop its close, and no other step of the JavaScript thread anything |
| AsyncWorker.OtherShows | native/async-worker.h:226-262 | the compute thread writes nothing, and queues progress when Execute reports and the terminal event when it was left |
| AsyncWorker.NothingLost | native/async-worker.h:44-60 | over every run, what Execute has drained and then what is queued is what was sent, in order |
| AsyncWorker.PostSendsIff | native/async-worker.h:335-348 | over every run, a post that is over has sent its message, once and alone, iff it found m_accepting set at its second look |
| AsyncWorker.AcceptedPostIsSent | native/async-worker.h:335-348 | a post on a worker that accepts is sent within seven steps, the creation of function and thread included |
| AsyncWorker.AcceptsUntilClosed | native/async-worker.h:335-348 | while Execute runs and no close was sent, m_accepting is set |
| AsyncWorker.JoinReturns | native/async-worker.h:290-299 | from every reachable wait a run that drains the close ends the join |
| AsyncWorker.WaitingRunGoesOn | native/async-worker.h:290-299 | no run that reached the join is stuck there |
| LaneSchedule.AnyScheduleIsLockstep | sycl/cn_gpu/cn_gpu.cpp:209-240 | race-free lanes leave the snapshot result at the barrier under every schedule, and loaded snapshot values |
| LaneSchedule.BarrierIffComplete | sycl/cn_gpu/cn_gpu.cpp:209-240 | all lanes reach the barrier iff each was picked as often as it has instructions |
| CnGpuRecurrence.ComputeRaceFree | sycl/cn_gpu/cn_gpu.cpp:215-218 | in the first interval no lane touches a cell that another lane writes |
| CnGpuRecurrence.ComputeInterval | sycl/cn_gpu/cn_gpu.cpp:215-218 | the first interval leaves each lane's output group in vo and vf |
| CnGpuRecurrence.Stage1RaceFree | sycl/cn_gpu/cn_gpu.cpp:222-228 | reusing the seed buffer and writing the scratchpad back is race free |
| CnGpuRecurrence.Stage1Interval | sycl/cn_gpu/cn_gpu.cpp:222-228 | the second interval leaves both first-stage reductions in the seed buffer and the exclusive-or in the scratchpad |
| CnGpuRecurrence.StagedReads | sycl/cn_gpu/reductions.h:18-36 | staged loads equal loads from the buffers with their first sixteen cells replaced |
| CnGpuRecurrence.Stage2RaceFree | sycl/cn_gpu/reductions.h:18-36 | overwriting the first cells of vo and vf in the second stage is race free |
| CnGpuRecurrence.Stage2Interval | sycl/cn_gpu/cn_gpu.cpp:231-234 | the third interval leaves the second-stage results, reduced over the replaced buffers |
| CnGpuRecurrence.SeedRaceFree | sycl/cn_gpu/cn_gpu.cpp:209-240 | carrying state over and loading the next seed is race free |
| CnGpuRecurrence.SeedInterval | sycl/cn_gpu/cn_gpu.cpp:209-240 | the fourth interval stores the scratchpad words that the new state selects |
| CnGpuRecurrence.AnyRound | sycl/cn_gpu/cn_gpu.cpp:209-240 | one round under any complete schedules runs through and leaves memory and registers as the reference round |
| CnGpuRecurrence.AnyRun | sycl/cn_gpu/cn_gpu.cpp:209-240 | any number of rounds, each under any schedules, equals the reference |
| RecurrenceFolds.ColumnsShareOut | sycl/cn_gpu/reductions.h:8-17 | every cell of a buffer is in the column of exactly one lane, the one at its place in its block of sixteen |
| RecurrenceFolds.PackedSelectsAlike | sycl/cn_gpu/recurrence.inc:184-252 | the packed constants and the table select the same groups |
| RecurrenceFolds.SelectsAllGroups | sycl/cn_gpu/recurrence.inc:246-251 | each lane reads all four groups, its own first |
| RecurrenceFolds.InputsAreGroups | sycl/cn_gpu/cn_gpu.cpp:215-217 | the inputs of a lane are its four groups of four words in its order |
| RecurrenceFolds.OutputsAreComputed | sycl/cn_gpu/cn_gpu.cpp:215-217 | each output is its lane's, from its inputs and the carried floats |
| RecurrenceFolds.StateFolds | sycl/cn_gpu/cn_gpu.cpp:223-239 | the next state word folds all sixty-four integer and float outputs of the round, every one once |
| RecurrenceFolds.FloatsFold | sycl/cn_gpu/cn_gpu.cpp:231-238 | each float handed on folds its sixteen float outputs in the pairwise order |
| RecurrenceFolds.RoundPad | sycl/cn_gpu/cn_gpu.cpp:224 | a round writes its sixteen joined words back where the state pointed, and nothing else |
| RecurrenceFolds.JoinedWord | sycl/cn_gpu/cn_gpu.cpp:223-224 | a scratchpad word is joined with the four outputs of its column |
| RecurrenceFolds.NextHandsOn | sycl/cn_gpu/cn_gpu.cpp:209-240 | state and floats come from the first group, and the next scratchpad words from where that state points |
| WordArithmetic.MulWide | sycl/lib-internal.h:348-358 | partial products in 32 bits give the exact 64-bit product |
| WordArithmetic.MulHigh | sycl/lib-internal.h:360-372 | partial products and carries give the exact upper half |
| WordArithmetic.AndFindsPowers | sycl/lib-internal.h:454 | the bit test finds exactly the powers of two |
| WordArithmetic.RoundUpIsExact | sycl/lib-internal.h:458-469 | a reciprocal rounded up gives the exact quotient when its error stays small |
| WordArithmetic.RoundDownIsExact | sycl/lib-internal.h:458-469 | a reciprocal rounded down and the increment give the exact quotient when its error is not zero |
| WordArithmetic.ReciprocalFits | sycl/lib-internal.h:458-469 | the reciprocal, rounded up or not, fits 32 bits, and the remainder is not zero |
| WordArithmetic.QuotientSurvives | sycl/lib-internal.h:481-486 | the product stays below 2^64 and no cast truncates, so the remainder is exact |
| WordArithmetic.MakeFastModData | sycl/lib-internal.h:448-471 | refuses zero only; for every other divisor the descriptor gives the exact remainder of every 32-bit word |
| WordArithmetic.RoundUpSize | sycl/lib-internal.h:473-479 | the least multiple that is large enough, refused exactly where the source refuses |
| Blake2bPair.AddThree | sycl/blake2b_pair.hpp:41-45 | the two comparisons find the carry 0, 1 or 2 of three addends, and the halves are the 64-bit sum |
| Blake2bPair.Rotate24 | sycl/blake2b_pair.hpp:55-60 | the shifted halves are the word rotated by 24 |
| Blake2bPair.Rotate16 | sycl/blake2b_pair.hpp:67-72 | the shifted halves are the word rotated by 16 |
| Blake2bPair.Rotate63 | sycl/blake2b_pair.hpp:77-82 | the shifted halves are the word rotated by 63 |
| Blake2bPair.MixFirst | sycl/blake2b_pair.hpp:41-60 | the first addition, exclusive or and rotation by 32, then by 24, on 64-bit words |
| Blake2bPair.MixSecond | sycl/blake2b_pair.hpp:62-83 | the second half, with the rotations by 16 and 63 |
| Blake2bPair.Mix | sycl/blake2b_pair.hpp:14-84 | updating the halves in place is G of section 3.1 of RFC 7693 on the 64-bit words |
| Blake2bPair.GIsInvertible | sycl/blake2b_pair.hpp:14-84 | G can be undone for all message words |
| NonceSpace.NonceWithOffset | native/job-boundary.h:134-151 | gives base + index * stride exactly when it fits the type and keeps the protected bits |
| NonceSpace.NextNonceBatch | native/job-boundary.h:175-186 | succeeds iff this batch, the next start and the next batch fit and keep the prefix |
| NonceSpace.Core.NextNonceAfterBatch | native/core.h:188-203 | the next start, or the exhausted flag and the last lane; without a target it wraps |
| NonceSpace.Core.Mine | native/core/execution.inc:589-603 | the batches of a run advance evenly, all fit and keep the prefix, and the run stops only where the next would not |
| NonceSpace.EveryLaneKeepsPrefix | native/job-boundary.h:175-186 | for prefix masks every lane of a fitting batch is in the type and keeps the prefix |
| NonceSpace.EndsAreEnoughIff | native/job-boundary.h:175-186 | testing the first and the last lane is enough iff the mask has no clear bit above a set one |
| NonceSpace.LowMaskMissesLanes | miner/jobs.js:640-652 | the default low-byte mask has such a gap: a batch fits whose second lane leaves it |
| NonceSpace.LowByteSurvives | native/job/execution.inc:154-156 | lanes that are a multiple of 256 apart keep the reserved low byte |
| NonceSpace.NoNonceTwice | native/job/execution.inc:735-843 | over the whole run no two lanes of any batches of any threads are the same nonce, in both layouts |
| NonceSpace.EveryNonceIsHashed | native/job/execution.inc:735-843 | and none is left out: every nonce from the start on is some lane of some batch of some thread |
| NonceSpace.RunsNeverMeet | native/job/execution.inc:735-843 | the batches that two threads' runs return have no nonce in common |
| NonceSpace.ScatteredStartKeepsPrefix | native/job/execution.inc:795-811 | or-ing the prefix back keeps it iff the thread's offset did not carry into it |
| NonceSpace.ScatteredStartLosesPrefix | native/job/execution.inc:795-811 | a thread offset that is accepted without a mask and carries into the prefix: the start has another prefix |
| NonceSpace.WholeRunKeepsPrefix | native/job/execution.inc:795-811 | every lane of every batch of a thread's run keeps the pool's prefix iff its offset did not carry into it |
| NonceText.SameValueIffSameText | miner/submission.js:19-27 | texts of one length stand for the same number iff they differ in case only |
| NonceText.MaskTextIsPrefixMask | miner/jobs.js:619-637 | the mask built from a prefix is the number with exactly the prefix's bits set |
| NonceText.PrefixIffProtectedBits | miner/submission.js:19-27 | text of the job's size begins with the prefix iff it keeps the bits the mask protects, whatever nonce the job started from |
| NonceText.TextOfBytes | miner/submission.js:29-36 | the text of bytes, highest first, stands for the number they make |
| NonceText.NonzeroNonce | miner/submission.js:19-27 | asking for a digit other than zero is asking for a number other than zero |
| PearlSeeds.SeedStart | native/job-boundary.h:156-164 | accepts iff the thread exists and its start fits 32 bits |
| PearlSeeds.SeedNext | native/job-boundary.h:166-173 | the successor, refused exactly where it would wrap |
| PearlSeeds.WalkSeeds | native/core/execution.inc:548-561 | a thread's run visits equal steps and ends only where the next would wrap |
| PearlSeeds.RandomSeed | miner/jobs.js:194-205 | draws a seed of the slot that leaves room for the last thread, and throws iff there is none |
| PearlSeeds.EverySeedCanBeDrawn | miner/jobs.js:194-205 | every such seed is drawn for some random word |
| PearlSeeds.StridesArePowers | miner/jobs.js:184-192 | the accepted strides are exactly the powers of two |
| PearlSeeds.ReusableSeed | miner/jobs.js:216-233 | resumes the job's own seed if it is in the slot, else the last dispatched one for the same input, stride and slot, else none |
| PearlSeeds.FinalSeed | miner/jobs.js:236-259 | the dispatched seed is congruent to the slot; refused exactly for a bad stride or slot, or with nothing to resume and no room |
| PearlSeeds.AllStartIffLastFits | native/job-boundary.h:156-164 | all threads accept a seed iff the last thread's start fits |
| PearlSeeds.DrawnSeedStartsEveryThread | miner/jobs.js:194-205 | a drawn seed is accepted by every thread |
| PearlSeeds.ResumedSeedMayNotFit | miner/jobs.js:249-250 | a resumed seed that the second thread refuses |
| PearlSeeds.SlotsNeverMeet | miner/jobs.js:236-259 | miners in different slots never search the same seed |
| PearlSeeds.ThreadsNeverMeet | native/core/execution.inc:548-561 | threads of one miner never search the same seed, and none repeats |
| PearlSeeds.EverySeedIsSearched | native/core/execution.inc:548-561 | the threads leave no seed of the slot out |
| NonceBytes.StoreNonce | native/job-boundary.h:204-219 | the loop replaces exactly the nonce's bytes, in the given byte order |
| NonceBytes.LoadNonce | native/job-boundary.h:188-202 | the loops read the number that the bytes stand for |
| NonceBytes.StoreLoadRoundTrip | native/job-boundary.h:188-219 | a stored nonce is read back in either byte order |
| NonceBytes.ReverseHexIsHexReversed | miner/submission.js:29-36 | reversing two-digit groups is reversing the bytes |
| NonceBytes.ZelhashNonce2 | miner/submission.js:71-86 | refused exactly for a long prefix, a bad blob or a bad nonce; else the rest of the 32 bytes |
| NonceBytes.BlobIsHeader | pool/jobs.js:439-441 | the job's blob is the text of the header bytes that the native side starts from |
| NonceBytes.SubmittedNonceIsHashedNonce | miner/submission.js:71-86 | prefix and submitted part are the nonce field after the counter was stored, for every prefix and counter |
| PoolSelection.FirstBackup | pool/jobs.js:767-780 | the first pool that has a job, is not active and is not for donation, or none exists |
| PoolSelection.SwitchNeverActivatesDonation | pool/jobs.js:794-822 | leaving the active pool never makes the donation pool active |
| PoolSelection.TurnsReachEveryPool | pool/jobs.js:783-790 | going on from pool to pool reaches every pool that is not for donation within one round |
| PoolSelection.StepKeepsInv | pool.js:570-659 | every job, error, connection, timer and worker message keeps the invariant, tokens supplied by pools included |
| PoolSelection.ActiveIsValid | pool/connection.js:375-388 | over every run the active pool exists and a pool with a job has a live socket |
| PoolSelection.DispatchesAreAllowed | pool.js:591-659 | over every run what is dispatched came from the pool it is labelled with, and donation work only in the window and for listed algorithms |
| PoolSelection.StaleIffImpersonated | miner/messages.js:131-147 | over every run a result for an earlier dispatch can be forwarded iff the token of the pool's job came with it and is that dispatch's |
| PoolSelection.NoStaleSubmission | miner/messages.js:131-147 | for a job without a token of its own, a forwarded result answers the latest dispatch to its pool, of the job object the pool still holds |
| PoolSelection.RunCleanIff | miner/messages.js:131-147 | no result that a worker sends is stale at any point of a run iff no job is stored in the background with the token and id of an earlier dispatch to its pool |
| PoolSelection.ReportsAreChecked | miner/messages.js:338-343 | in such a run the nonce size is known whenever a worker reports a nonce, so the nonce is checked |
| PoolSelection.SuppliedTokenIsStale | pool/jobs.js:656-668 | a run from the start, with two pools, at whose end a stale result would be forwarded |
| PoolSelection.StoredNonceOnlyIncreases | miner/messages.js:320-347 | while a pool keeps a job the nonce stored for it never goes down |
| PoolSelection.StoredNonceKeepsPrefix | miner/messages.js:340-346 | over every run a nonce stored from a worker, for a job of known size, begins with the job's prefix and keeps the protected bits |
| PoolSelection.Miner.DispatchJob | miner/jobs.js:705-744 | a fresh token, and the dispatch labelled with the active pool |
| PoolSelection.Miner.ReactivateAlivePool | pool/jobs.js:757-780 | the primary, else the first backup, is activated and its job dispatched |
| PoolSelection.Miner.NextNonDonatePool | pool/jobs.js:783-790 | the loop finds the next pool in the circle |
| PoolSelection.Miner.Switch | pool/jobs.js:794-822 | the whole new state of switching, with the soft close, the pause and the reconnect that it asks for |
| PoolSelection.Miner.TurnToPool | pool/jobs.js:811-822 | no pool has a job: the next one in turn is activated and connected, and donation mining is paused |
| PoolSelection.Miner.Fail | pool/connection.js:231-237 | a failure of a socket that is no longer current changes nothing; else the pool is cleared and left |
| PoolSelection.Miner.DonationJobSupported | pool.js:639-659 | donation work outside the window or off the list leaves or disconnects the pool |
| PoolSelection.Miner.ActivatePoolForJob | pool.js:570-583 | only the first job of the primary or the donation pool activates it |
| PoolSelection.Miner.HandlePoolJob | pool.js:591-631 | the whole new state after a job |
| PoolSelection.Miner.ConnectPool | pool/connection.js:376-388 | connects unless connected or outside the donation window |
| PoolSelection.Miner.MatchingPoolJob | miner/messages.js:131-135 | finds the job iff both token and id match |
| PoolSelection.Miner.HandleLastNonce | miner/messages.js:320-347 | keeps the highest nonce of the right size and prefix for a background pool's current job |
| PoolService.SwitchTurnsOn | pool/jobs.js:811-822 | with no pool to go to, the first pool after the one that is left that is not for donation becomes active and its connection is asked for |
| PoolService.SwitchServes | pool/jobs.js:749-780 | else the primary, or the first backup, becomes active and its job is dispatched with a fresh token |
| PoolService.SwitchAsksToClose | pool.js:368-383 | the connection of the pool that is left is closed in a while |
| PoolService.FailuresReachEveryPool | pool/jobs.js:783-822 | while no pool has a job, failures of the active pool make every pool that is not for donation active within one round |
| PoolService.JobIsServed | pool.js:591-631 | a usable job of a pool that is active, or becomes so with it, is dispatched and its results are forwarded |
| PoolService.JobIsKept | pool.js:591-631 | any other usable job is kept and nothing else changes |
| PoolService.PrefixIsAccepted | miner/jobs.js:619-637 | a job with an even hexadecimal prefix, for Beam also with 0x, is not refused for it |
| PoolService.ResumedNonceIsChecked | miner/jobs.js:619-637 | a nonce that comes with such a job is accepted iff it has the size and the prefix, and for Beam is not zero |
| PoolService.ReportIsStored | miner/messages.js:320-366 | a worker's nonce of the right size and prefix is stored iff it is newer |
| PoolService.PrintedNonceIsNonce | miner/messages.js:350-352 | what a worker prints of any 64-bit counter is a nonce and stands for the counter |
| PoolService.ConnectOpens | pool/connection.js:369-388 | a pool is connected afresh unless it is the donation pool outside its window |
| PoolService.DonationWindowOpens | pool.js:639-659 | a window lets exactly listed work in, as long as it lasts |
| PoolService.DonationWindowCloses | pool/jobs.js:794-822 | at its end the miner does not stay on the donation pool |
| PoolService.SoftCloseIff | pool.js:374-382 | a soft close happens iff the pool has not become active again |
| PoolService.ErrorDropsPool | pool/connection.js:231-237 | an error on the current connection ends it with its job, one on an earlier connection does nothing |
| PoolService.UnusableJobDropsPool | pool.js:612-616 | a job that cannot be used ends its connection |
| PoolService.RejectedJobIsError | pool.js:622-624 | a job that the workers cannot take is an error on its connection |
| PoolService.UnwantedDonationIsRefused | pool.js:639-659 | donation work outside window or list is not taken: the donation pool is left, or disconnected |
| PoolControls.QueueIsSmall | pool.js:1040-1045 | over any history the queue has one control of a kind for an algorithm, all advertised, and bounded length |
| PoolControls.QueueKeepsLatest | pool.js:1040-1045 | the latest matching control of each kind survives in the queue |
| PoolControls.ValidOverwrites | pool/jobs.js:831-890 | a valid control sets fields that depend on its kind and the protocol, a few of them only perhaps, to values that do not depend on the fields |
| PoolControls.PaddingAgain | pool/jobs.js:623-631 | padding a readable Raven target again changes exactly the values with a second 0x, and only once |
| PoolControls.EmptyTargetPadsAgain | pool/jobs.js:623-631 | the value 0x0xff is accepted, and an empty target after it changes what is stored |
| PoolControls.ReplayMeans | pool.js:497-515 | replaying succeeds iff every control is valid, or an empty Raven target with something to take over; each field is then what the last control to set it says, padded again by empty targets |
| PoolControls.QueueStandsIff | pool.js:1035-1058 | for any controls, the queue and the history end alike iff both or neither can be replayed and the fields that may be left alone agree |
| PoolControls.QueueStandsForHistory | pool.js:1035-1058 | for targets and difficulties, the queue stands for its history iff no control was malformed or one still queued is |
| PoolControls.WithoutEmptiesIff | pool.js:1035-1058 | without empty Raven targets: iff a queued control is malformed, or none at all is and the extranonces give the same |
| PoolControls.ExtranonceStandsIff | pool.js:479-487 | outside XELIS, whatever the connection has already: iff a queued control is malformed, or none at all is and the size comes out the same |
| PoolControls.XelisStandsIff | pool/jobs.js:316-326 | for XELIS: iff a queued control is malformed, or none at all is and nonce and key come out the same |
| PoolControls.ReplacedErrorIsForgotten | pool.js:1040-1045 | every history of a malformed target and a good one, of which the queue keeps only the good one |
| PoolControls.EmptyTargetNeedsHistory | pool/jobs.js:625-631 | a history with an empty Raven target that the queue does not stand for |
| PoolControls.ExtranonceNeedsHistory | pool.js:479-487 | every history of two extranonces, the second without a size, that the queue does not stand for |
| PoolControls.XelisKeyNeedsHistory | pool/jobs.js:316-326 | every history of two XELIS extranonces, the second without a key, that the queue does not stand for |
| PoolControls.ClearedCoversControls | pool.js:127-151 | the list of deleted fields has every field that a control sets, accepted or not |
| PoolControls.Pool.PrepareFamily | pool.js:468-475 | accepts iff advertised, and deletes the listed fields when the algorithm changes |
| PoolControls.Pool.ApplyControl | pool.js:497-515 | the fields after one control, with what an error has already stored |
| PoolControls.Pool.QueueControl | pool.js:1036-1046 | the queue with the control in place of the one of its kind and algorithm |
| PoolControls.Pool.ApplyPending | pool.js:1053-1056 | the fields after all matching controls in order |
| PoolControls.Pool.Announce | pool.js:1047-1058 | accepts a job iff its algorithm is the announced, advertised one and the matching controls apply; then the fields are what they leave and the queue is empty |
| ControlValues.MatchingInOrder | pool.js:1053-1056 | the controls that apply are exactly the unmarked ones and those of the algorithm, in order |
| ControlValues.ProtocolsShareOut | pool.js:200-243 | which algorithms speak which protocol |
| ControlValues.FullTargetKeepsValue | pool/jobs.js:839-852 | a stored ZelHash or Iron Fish target has 64 digits and is the number that was sent |
| ControlValues.RavenTargetMovesUp | pool/jobs.js:623-631 | a stored Raven target has 64 digits that begin with those sent: the number moved up to the top |
| ControlValues.OtherTargetsAsSent | pool/jobs.js:839-857 | other targets are stored as the digits sent |
| ControlValues.UnreadableTargetIsRefused | pool/jobs.js:831-842 | a target that cannot be read is refused under every protocol |
| ControlValues.DifficultyIsStored | pool/jobs.js:859-890 | every field that a protocol keeps a difficulty in holds the converted difficulty, or the target made from it |
| ControlValues.XelisDifficultyIsStored | pool/jobs.js:859-869 | XELIS keeps its large difficulty and nothing else |
| ControlValues.ExtranonceIsStored | pool.js:497-515 | an extranonce is stored as its prefix, also where Iron Fish and Beam look for it |
| ControlValues.RefusedExtranonceIsStored | pool.js:504-513 | one that is refused for its length or size has been stored by then |
| ControlValues.OtherErrorsLeaveNothing | pool.js:497-515 | nothing else that is refused has been |
| DeviceTuning.SplitUndoesJoin | gpu-tuning.js:344-347 | splitting undoes joining for parts without the separator |
| DeviceTuning.DecimalRoundTrip | gpu-tuning.js:101-120 | a printed number is read back |
| DeviceTuning.ReadParts | gpu-tuning.js:282-291 | the loop collects the name=value parts or refuses a malformed or second one |
| DeviceTuning.BlanksDoNotMatter | gpu-tuning.js:282-291 | blanks around a name and its value do not matter |
| DeviceTuning.ValidateFields | gpu-tuning.js:197-272 | the loop normalizes every field, in any order, or refuses |
| DeviceTuning.InnerIsRead | gpu-tuning.js:278-293 | what is printed between the brackets is accepted iff the tuning is valid |
| DeviceTuning.EntryRoundTrip | gpu-tuning.js:302-378 | a printed entry is read back iff it is good, and refused otherwise |
| DeviceTuning.BareNumberIsRead | gpu-tuning.js:319-329 | a bare number goes to the main field of the device, if it is good for it, and is refused otherwise |
| DeviceTuning.MainFieldIsFirst | gpu-tuning.js:322 | the main field of an algorithm is the first, in printing order, of the fields it has |
| DeviceTuning.ListRoundTrip | gpu-tuning.js:344-382 | a printed list is read back iff all entries are good, and refused otherwise |
| DeviceTuning.MixedEntryIsRefused | gpu-tuning.js:302-338 | a CPU entry with an intensity and another field is printed, and refused for every algorithm |
| DeviceTuning.PrintingIsInjective | gpu-tuning.js:363-382 | different lists of good entries print differently |
| DeviceTuning.ParsedIsPrintable | gpu-tuning.js:302-338 | whatever was parsed has a valid device, process count and values |
| DeviceTuning.ParsedRoundTrip | gpu-tuning.js:344-382 | printing what was parsed and parsing it again gives the same entries iff they are good |

## Left out

- GPU kernels, device memory, compiler caches and loaders: foreign calls and hardware.
- Hash functions and the edge hash: the edge of a nonce is a parameter; G is modelled, the compression around it
  is not.
- Sockets, timers, files and logging: events and maps. Timer events may happen at any time, which allows more
  runs than the original.
- c29 and c30 storage limits: vectors and hash maps do not run out of memory; proof size and path cap are
  parameters.
- std::sort in the Cortex search: modelled by an insertion sort function; only order and members matter.
- BuildState: file contents stand for their hashes, so equal hashes mean equal contents; a file status change
  after the start of a build is a set given to finish; configuration and generated-graph details are one
  settings value; pruning of orphaned intermediates is not modelled.
- BuildState.CacheAgreesWithCleanBuild: assumes a deterministic compiler with complete dependency lists. After a
  finish during which an edit was put back or a newly discovered outside dependency was deleted it says nothing
  until a prepare starts from nothing.
- BuildState.StaleIffDependencyGone: the same compiler, and after a finish during which an edit was put back it says
  nothing until a prepare starts from nothing.
- AsyncWorker: the body of Execute, conversions of values for callbacks, and failing allocations.
- CnGpuRecurrence.AnyRun: the arithmetic of one lane's 4-vector step is a parameter; a run starts at the first
  barrier of its first round. Native-width and workgroup barrier choices are the same barrier here.
- WordArithmetic: the branches that use the platform's own multiplication.
- Blake2bPair.Mix: the branch written in GPU assembly.
- NonceSpace: mining at 64 bits of the graph solvers, which advance by one batch and test overflow afterwards,
  and the RandomX threads.
- PearlSeeds: parsing of the seed, slot and stride texts.
- PoolSelection: set_job's field decoding beyond the nonce and its prefix (a job is valid or not), a Beam prefix
  that comes with the login instead of the job, the process of exiting, share counters,
  handshakes and keepalives. An error in set_job while switching pools is a dispatch that does not happen; what
  the process does with that error is not modelled.
- PoolControls: connections without algorithm switching, where a control is applied at once, and what job
  decoding itself writes to a pool's record.
- DeviceTuning: Unicode white space around entries, numbers too large for exact conversion (refused in both), and
  the other readers of tuning values.
- Beam, Iron Fish, Kaspa, Nexa, XELIS and Verthash job decoding, difficulty conversions, command line, help and
  deployment: many easy branches.
