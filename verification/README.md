# Verified models of sixteen systems components

This project models sixteen of the self-contained components of a C++ repository of systems
designs and proves what they are for. Each component is one module:

| module | component |
|---|---|
| `RaftElection` | leader election with per-node mutexes and heartbeats |
| `LockFreeStack` | the compare-and-swap stack |
| `BuildSystem` | Kahn's algorithm run by a pool of workers |
| `ReadWriteLock` | the readers/writers lock that prefers writers |
| `RingBuffer` | the lock-free queue for one producer and one consumer |
| `MultiTierCache` | an LRU cache spread over several tiers |
| `LfuCache` | the LFU cache with frequency buckets |
| `SkipList` | the skip list with duplicates |
| `MaximumXor` | the bitwise trie for the maximum XOR |
| `LsmStore` | memtable, sorted tables and log replay |
| `WriteAheadLog` | the numbered text log with its parser and printer |
| `Allocator` | first fit with coalescing |
| `Deduplication` | the deduplicating chunk store |
| `SnapshotManager` | copy-on-write snapshots |
| `DeadlockDetection` | the wait-for-graph cycle detector |
| `RateLimiter` | the sliding-window limiter |

`Graphs`, `Sets`, `RefCounts`, `Tokens`, `Bits32`, `CacheCalls` and `Options` hold what they rest
on: paths and cycles, finite sets, reference counts over named lists, formatted input (words and
decimal integers separated by white space), the bits of a 32-bit int, what a run of cache calls
says by itself, and answers that may be missing.

## How the components are modelled

- **Objects** are classes with the source's fields. Their methods are proved against functions
  of the state before the call (`View()`), and the laws are proved about those functions.
- **Concurrent components** (election, stack, scheduler, lock, ring buffer) are state machines:
  one step is one atomic access, or one stretch of code between two points where a mutex is
  taken, released or waited on. A run is any sequence of enabled steps, and the main results
  hold of every run. Sleeping threads, notifications, spurious wake-ups and spurious failures of
  a compare-and-swap are explicit.
- **Restarts** of the two stores are events of a run: a crash may come between the append to
  the log and the update in memory, and the store is then built again from the file.
- **Files** are sequences of characters; **time** and **coin flips** are parameters;
  **memory** that is freed (skip list, lock-free stack) is an explicit map from addresses to nodes.
- Integers are unbounded, except where width decides the behaviour: the 32 bits of the trie, the
  range of a number read from the log, and the comparison of a signed limit with a size.

## Where code and design differ

- Raft: the protocol has one vote per term. The code clears the vote when a heartbeat of the
  same term arrives, so a node can vote twice in a term; `OneNodeVotesTwiceInOneTerm` is a run in
  which it does. Election safety holds all the same, for other reasons: a candidate keeps its own
  mutex, asks every peer, and terms never fall.
- Maximum XOR: the description speaks of two different elements of any integers. For inputs of
  both signs the walk takes the sign bit and pairs a number with itself, so the answer is 0;
  `MaximumIff` says exactly when the answer is the maximum over two positions. On 0, 1, -1 it is
  too small (`MixedSignsMissMaximum`), on 0, -1 too large (`OppositePairMissesMaximum`).
- Deduplication: overwriting a file does not give back its old references, so the store then
  keeps chunks that no file needs. `RunExactIff` says after which runs the counts are exact, and
  `OverwrittenChunkStays` is a run that ends without files and with a chunk in storage.
- Write-ahead log: an empty value at the end of the log is read back as the value of the PUT
  before it. `RoundTripIff` states exactly which logs survive, and in the run of
  `EmptyValueComesBackWrong` an empty value has turned into another key's value after a restart.
- Build scheduler: cyclic dependencies are to be detected (line 9 of
  multi-stage-pipeline/BuildSystem_Make_Bazel.cpp). If every target depends on something, nothing
  is ever queued, `done` is never set and all workers wait for ever, so the cycle is not reported;
  an empty build waits in the same way. `CycleReportedIff` says exactly when a cycle is reported,
  and the one target of `SelfDependencyHangs` depends on itself.
- Deadlock detection adds empty entries to the map while another loop iterates over it. They
  change no edge and no verdict (`PaddingKeepsPaths`), and the verdict is right whether or not the
  loop comes across them.

## Main results

- `RaftElection.ElectionSafety`: one leader per term, over every interleaving, although votes can
  be withdrawn; `WonIffMajorityVoted`: an election is won exactly by a majority that held the
  candidate's vote when asked; `SameTermElectionsNeverFinish`: two elections of one term block each
  other.
- `LockFreeStack.EveryRunIsLinearizable`, `CallsReturnTheirEvents`: every run is a run of the
  sequential stack, and each call returns what that stack did for it between the call's beginning
  and its return; `FailedSwapMeansProgress`, `AloneReturns`: a swap is lost only to a swap that
  succeeded, and a call left alone returns.
- `BuildSystem.BuiltOnceInOrder`, `BuildCompletes`, `CycleReportedIff`: every target once and after
  its dependencies, every run ends if some target can start, and which cyclic graphs are reported.
- `ReadWriteLock.WriterExcludesEveryone`, `NoReaderOvertakesWriter`, `SleepersAreNeverAlone`:
  exclusion, preference for writers, and no deadlock through a lost wake-up.
- `RingBuffer.PoppedIsPrefixOfPushed`, `NeverTheSameSlot`: pops return what callers pushed, in
  order and without loss, and no slot is used by both sides at once.
- `MultiTierCache.RunNew`, `LfuCache.RunNew`: the tiers are one LRU cache of the summed capacity, the
  buckets one LFU cache; which keys are held and what every get returns is told from the calls.
- `SkipList.Perform`, `HeldCounts`: for all coin flips the list is a bag, with nothing dangling.
- `MaximumXor.MaximumIff`: exactly when the trie's answer is the maximum.
- `LsmStore.CrashesAreInvisible`, `WriteAheadLog.CrashesAreInvisible`, both `RoundTripIff`: with
  words as keys and values, restarts and crashes at any point lose nothing; and exactly which logs
  are read back.
- `Allocator.MallocFindsLowestRun`, `AvailableIsDetermined`: first fit by addresses, and a free list
  that depends on nothing but the blocks in use.
- `Deduplication.RunReadsLastWritten`, `RunExactIff`: what is read after any run, and after which
  runs the counts are exact.
- `SnapshotManager.Manager`: every live snapshot reads as it did when it was taken, after any run.
- `DeadlockDetection.DeadlockDetector.DetectDeadlock`, `NewDependencyDeadlocksIff`: exactly the
  cycles, and exactly the dependencies that create one.
- `RateLimiter.EveryWindowIsBounded`: the limits hold in every interval of window length.

## Model

| member | source | states |
|---|---|---|
| `RaftElection.RaftNode.constructor` | distributed/RaftElection_onHeartbeatAbsence.cpp:38-44 | a new node is a follower in term 0 that has not voted |
| `RaftElection.RaftNode.RequestVote` | distributed/RaftElection_onHeartbeatAbsence.cpp:109-139 | granted if and only if the term is later, or is the present one with the vote free or already given to that candidate; and if and only if the node then stands in that term with its vote given to that candidate; a refusal changes nothing, only a later term deposes |
| `RaftElection.RaftNode.ReceiveHeartbeat` | distributed/RaftElection_onHeartbeatAbsence.cpp:161-174 | a heartbeat of the same or a later term makes the node a follower of that term without a vote; an older one changes nothing |
| `RaftElection.RaftNode.CollectVotes` | distributed/RaftElection_onHeartbeatAbsence.cpp:92-102 | every peer has answered the request exactly once and the count is one plus the number that would grant it |
| `RaftElection.RaftNode.StartElection` | distributed/RaftElection_onHeartbeatAbsence.cpp:77-107 | undisturbed, the node leads the next term exactly on a majority of its own vote and the grants; every peer is left as the vote rule says |
| `RaftElection.MoveIsMonotone` | distributed/RaftElection_onHeartbeatAbsence.cpp:77-174 | no step lowers a term or rewrites the history of elections |
| `RaftElection.MoveKeepsAsked` | distributed/RaftElection_onHeartbeatAbsence.cpp:77-139 | every step keeps: a peer already asked by a candidate is past the candidate's term if it is itself electing |
| `RaftElection.MoveKeepsFinished` | distributed/RaftElection_onHeartbeatAbsence.cpp:77-146 | every step keeps: all nodes are past the term of every finished election, and finished elections have increasing terms |
| `RaftElection.MoveKeepsLeaders` | distributed/RaftElection_onHeartbeatAbsence.cpp:109-174 | every step keeps: a leader has won the election of its current term |
| `RaftElection.MoveKeepsInv` | distributed/RaftElection_onHeartbeatAbsence.cpp:77-174 | the invariant holds after every step of every thread |
| `RaftElection.PathKeepsInv` | distributed/RaftElection_onHeartbeatAbsence.cpp:77-174 | the invariant holds along every interleaving, and history only grows |
| `RaftElection.ElectionsAreOrdered` | distributed/RaftElection_onHeartbeatAbsence.cpp:77-146 | in every run elections finish with strictly increasing terms, and each leader won the election of its term |
| `RaftElection.ElectionSafety` | distributed/RaftElection_onHeartbeatAbsence.cpp:77-174 | two leaders of one term, seen at any two moments of any run, are the same node (Election Safety, section 5.2 of the Raft paper by Ongaro and Ousterhout) |
| `RaftElection.SameTermElectionsAreCrossed` | distributed/RaftElection_onHeartbeatAbsence.cpp:77-107 | two elections under way for one term each still have to ask the other's locked node |
| `RaftElection.MoveKeepsCrossed` | distributed/RaftElection_onHeartbeatAbsence.cpp:77-107 | no step of any thread undoes such a pair |
| `RaftElection.CrossedForever` | distributed/RaftElection_onHeartbeatAbsence.cpp:77-107 | such a pair stays blocked for the rest of the run |
| `RaftElection.SameTermElectionsNeverFinish` | distributed/RaftElection_onHeartbeatAbsence.cpp:77-107 | two elections under way for the same term never finish |
| `RaftElection.OnlyMutexesHoldUp` | distributed/RaftElection_onHeartbeatAbsence.cpp:77-174 | in every run a thread that cannot move waits for the mutex of another node that is electing |
| `RaftElection.AskOne` | distributed/RaftElection_onHeartbeatAbsence.cpp:94-102 | one request of an undisturbed election does to its peer what the vote rule says and to nobody else anything |
| `RaftElection.GrantedIff` | distributed/RaftElection_onHeartbeatAbsence.cpp:109-139 | the vote rule shared by class and machine grants exactly those requests, and exactly if the node then holds that vote |
| `RaftElection.ElectionIsCounted` | distributed/RaftElection_onHeartbeatAbsence.cpp:77-107 | in every interleaving the votes counted so far are those of the nodes that held the candidate's vote right after they were asked |
| `RaftElection.WonIffMajorityVoted` | distributed/RaftElection_onHeartbeatAbsence.cpp:77-139 | in every interleaving an election is won if and only if more than half of the cluster stood in its term with the vote given to the candidate right after being asked, each node having been asked once and in turn |
| `RaftElection.VoteWithdrawnIffEqualTermHeartbeat` | distributed/RaftElection_onHeartbeatAbsence.cpp:161-174 | a vote is taken back within its term if and only if a heartbeat of that very term is delivered |
| `RaftElection.FinishElection` | distributed/RaftElection_onHeartbeatAbsence.cpp:104-107 | the last step of an election settles it by the majority |
| `RaftElection.UndisturbedElection` | distributed/RaftElection_onHeartbeatAbsence.cpp:77-107 | an undisturbed election in the machine ends as the method of the class promises |
| `RaftElection.UndisturbedHeartbeats` | distributed/RaftElection_onHeartbeatAbsence.cpp:148-174 | an undisturbed leader tells every other node its term once and is then idle again |
| `RaftElection.OneNodeVotesTwiceInOneTerm` | distributed/RaftElection_onHeartbeatAbsence.cpp:148-174 | a concrete run of four nodes in which one node votes for two candidates in one term |
| `LockFreeStack.ListIsKept` | CAS/LockFree_Stack.cpp:27-51 | a step that leaves published nodes alone leaves the list alone |
| `LockFreeStack.PushSwapRefines` | CAS/LockFree_Stack.cpp:27-35 | a successful swap of push puts exactly its value on top |
| `LockFreeStack.PopSwapRefines` | CAS/LockFree_Stack.cpp:37-51 | a successful swap of pop takes exactly the top, although it read the next pointer earlier |
| `LockFreeStack.StepRefines` | CAS/LockFree_Stack.cpp:27-51 | every atomic step of every thread is no change, one push, one pop of the top, or the report of an empty stack |
| `LockFreeStack.StepKeepsThreads` | CAS/LockFree_Stack.cpp:27-51 | what a thread remembers of the list stays true while other threads move |
| `LockFreeStack.StepKeepsOwners` | CAS/LockFree_Stack.cpp:27-35 | a node not yet published belongs to one thread only |
| `LockFreeStack.StepKeepsInv` | CAS/LockFree_Stack.cpp:27-51 | every step of every thread keeps the invariant |
| `LockFreeStack.NeverBlocked` | CAS/LockFree_Stack.cpp:27-51 | whatever a thread is about to do can be done: no dereference of a missing node ever stops it |
| `LockFreeStack.ResultIsTop` | CAS/LockFree_Stack.cpp:37-51 | pop returns the value that was on top when its swap succeeded |
| `LockFreeStack.RunRefines` | CAS/LockFree_Stack.cpp:27-51 | the events of every run are a run of the sequential stack |
| `LockFreeStack.SequentialConserves` | CAS/LockFree_Stack.cpp:27-51 | in a sequential run values pushed are values popped and values left |
| `LockFreeStack.EveryRunIsLinearizable` | CAS/LockFree_Stack.cpp:27-51 | from the empty stack, any number of threads and any interleaving: the events are a sequential stack run, and each value was pushed as often as it was popped or is still there |
| `LockFreeStack.ReturnsAreEffects` | CAS/LockFree_Stack.cpp:27-51 | over any run what a thread's calls return is what its steps did to the sequential stack, in order |
| `LockFreeStack.CallsAreAnswered` | CAS/LockFree_Stack.cpp:27-51 | over any run the returns of a thread answer its calls one by one |
| `LockFreeStack.CallsReturnTheirEvents` | CAS/LockFree_Stack.cpp:27-51 | from the empty stack each call has at most one event, returns that event's result, and has it between its beginning and its return |
| `LockFreeStack.FailedSwapMeansProgress` | CAS/LockFree_Stack.cpp:27-51 | a swap that fails, not spuriously, fails because another thread's swap has succeeded since the head was read |
| `LockFreeStack.AloneGetsCloser` | CAS/LockFree_Stack.cpp:27-51 | a thread that moves alone gets closer to its return with every step: a failed swap reads the head again, and a swap that finds the head it expects succeeds |
| `LockFreeStack.AloneReturns` | CAS/LockFree_Stack.cpp:27-51 | a call left alone returns after at most five more steps |
| `BuildSystem.Builder.constructor` | multi-stage-pipeline/BuildSystem_Make_Bazel.cpp:47-59 | a new build has no targets and consistent counts |
| `BuildSystem.Builder.AddDependency` | multi-stage-pipeline/BuildSystem_Make_Bazel.cpp:117-126 | one edge is added and every in-degree still counts the edges into its target |
| `BuildSystem.Builder.SeedQueue` | multi-stage-pipeline/BuildSystem_Make_Bazel.cpp:128-136 | the queue holds every dependency-free target once, and the total is the number of targets |
| `BuildSystem.Builder.TakeTarget` | multi-stage-pipeline/BuildSystem_Make_Bazel.cpp:65-76 | the first queued target is taken off the queue and counted as active, and nothing else changes |
| `BuildSystem.Builder.ReleaseChildren` | multi-stage-pipeline/BuildSystem_Make_Bazel.cpp:93-98 | the loop over the children is the release that the machine uses |
| `BuildSystem.Builder.FinishTarget` | multi-stage-pipeline/BuildSystem_Make_Bazel.cpp:90-111 | released targets queue up behind the others, and the build is done exactly when all targets are processed or nothing is queued or active; the machine's step does the same |
| `BuildSystem.AddCountsOnce` | multi-stage-pipeline/BuildSystem_Make_Bazel.cpp:117-126 | a dependency counts once for its target and for nothing else |
| `BuildSystem.ZeroMeansDependenciesFinished` | multi-stage-pipeline/BuildSystem_Make_Bazel.cpp:93-98 | a target with in-degree zero has only finished dependencies |
| `BuildSystem.WaitingHasUnfinishedDependency` | multi-stage-pipeline/BuildSystem_Make_Bazel.cpp:93-98 | a target with a positive in-degree has an unfinished dependency |
| `BuildSystem.ReleaseEffect` | multi-stage-pipeline/BuildSystem_Make_Bazel.cpp:93-98 | releasing the children lowers each in-degree by the number of edges and queues exactly those that reach zero, once each |
| `BuildSystem.ReleaseAppends` | multi-stage-pipeline/BuildSystem_Make_Bazel.cpp:93-98 | released targets go to the back of the queue |
| `BuildSystem.FinishIndegrees` | multi-stage-pipeline/BuildSystem_Make_Bazel.cpp:90-101 | after a finish in-degrees count the edges from unfinished targets |
| `BuildSystem.FinishReady` | multi-stage-pipeline/BuildSystem_Make_Bazel.cpp:90-101 | after a finish the queue is exactly what can be started and has not been |
| `BuildSystem.StepTakesTarget` | multi-stage-pipeline/BuildSystem_Make_Bazel.cpp:65-76 | taking a target keeps the invariant |
| `BuildSystem.StepWithoutTarget` | multi-stage-pipeline/BuildSystem_Make_Bazel.cpp:65-71 | going to sleep or leaving keeps the invariant |
| `BuildSystem.StepFinishesTarget` | multi-stage-pipeline/BuildSystem_Make_Bazel.cpp:90-111 | finishing a target keeps the invariant, the order of finishing included |
| `BuildSystem.DoKeepsInv` | multi-stage-pipeline/BuildSystem_Make_Bazel.cpp:61-114 | every step of every worker keeps the invariant |
| `BuildSystem.NeverBlocked` | multi-stage-pipeline/BuildSystem_Make_Bazel.cpp:61-114 | every worker that is neither asleep nor gone has a step to take |
| `BuildSystem.RunKeepsInv` | multi-stage-pipeline/BuildSystem_Make_Bazel.cpp:61-149 | the invariant holds along every interleaving |
| `BuildSystem.BuiltOnceInOrder` | multi-stage-pipeline/BuildSystem_Make_Bazel.cpp:61-149 | in every interleaving a target starts and finishes at most once, and starts only after all its dependencies have finished |
| `BuildSystem.StepUsesWork` | multi-stage-pipeline/BuildSystem_Make_Bazel.cpp:61-114 | every step uses up work, except that a spurious wake-up adds one unit |
| `BuildSystem.RunsAreBounded` | multi-stage-pipeline/BuildSystem_Make_Bazel.cpp:61-149 | no run goes on for ever: its length is bounded but for spurious wake-ups |
| `BuildSystem.StuckMeansDone` | multi-stage-pipeline/BuildSystem_Make_Bazel.cpp:61-114 | when no worker can move, the build is done and all workers have left |
| `BuildSystem.AllFinishedIsAcyclic` | multi-stage-pipeline/BuildSystem_Make_Bazel.cpp:61-149 | if every target was built the dependency graph has no cycle |
| `BuildSystem.UnfinishedIsCyclic` | multi-stage-pipeline/BuildSystem_Make_Bazel.cpp:61-149 | if the build is done and a target was not built, the graph has a cycle |
| `BuildSystem.BuildCompletes` | multi-stage-pipeline/BuildSystem_Make_Bazel.cpp:61-149 | with a dependency-free target every run ends with `done` and all workers gone, and all targets processed exactly when the graph is acyclic |
| `BuildSystem.WithoutSourceNeverDone` | multi-stage-pipeline/BuildSystem_Make_Bazel.cpp:65-71 | without a dependency-free target no run ever builds anything, sets `done` or lets a worker leave |
| `BuildSystem.CycleReportedIff` | multi-stage-pipeline/BuildSystem_Make_Bazel.cpp:61-149 | a run that cannot go on has ended the build exactly if some target had no dependencies, and reports a cycle exactly if there is one and some target had no dependencies |
| `BuildSystem.SelfDependencyHangs` | multi-stage-pipeline/BuildSystem_Make_Bazel.cpp:65-71 | a concrete graph, one target that depends on itself, on which every run waits for ever and reports nothing |
| `Graphs.NoSourceHasCycle` | multi-stage-pipeline/BuildSystem_Make_Bazel.cpp:93-109 | targets that all wait for one another contain a cycle |
| `ReadWriteLock.Lock.constructor` | concurrency/ReadersWritersLock_writer_preference.cpp:9-16 | a new lock is free and nobody waits |
| `ReadWriteLock.Lock.TryRead` | concurrency/ReadersWritersLock_writer_preference.cpp:18-27 | a reader is admitted exactly when no writer is active or waiting |
| `ReadWriteLock.Lock.ReleaseRead` | concurrency/ReadersWritersLock_writer_preference.cpp:29-37 | the last reader, and only that one, notifies a writer |
| `ReadWriteLock.Lock.TryWrite` | concurrency/ReadersWritersLock_writer_preference.cpp:45-51 | a writer is admitted exactly when nobody holds the lock |
| `ReadWriteLock.Lock.ReleaseWrite` | concurrency/ReadersWritersLock_writer_preference.cpp:53-63 | a leaving writer notifies a writer if one waits, otherwise all readers |
| `ReadWriteLock.StepKeepsCounted` | concurrency/ReadersWritersLock_writer_preference.cpp:18-63 | every step keeps: the counters are the numbers of reading and waiting threads, and a writer is alone |
| `ReadWriteLock.OnlyTheNotifiedWake` | concurrency/ReadersWritersLock_writer_preference.cpp:29-63 | a step wakes exactly those it notifies: the last reader one sleeping writer, a writer one sleeping writer if any waits and otherwise all sleeping readers, any other step nobody |
| `ReadWriteLock.AdmittedIff` | concurrency/ReadersWritersLock_writer_preference.cpp:18-51 | a thread that checks its condition is admitted exactly when the lock allows it and sleeps otherwise |
| `ReadWriteLock.AlwaysPossible` | concurrency/ReadersWritersLock_writer_preference.cpp:18-51 | a thread outside the lock can always ask for it, and a sleeping one may wake for no reason |
| `ReadWriteLock.StepWakesWriters` | concurrency/ReadersWritersLock_writer_preference.cpp:18-63 | every step keeps: a writer sleeps on a free lock only if another has been signalled |
| `ReadWriteLock.StepWakesReaders` | concurrency/ReadersWritersLock_writer_preference.cpp:18-63 | every step keeps: no reader sleeps unsignalled while readers may enter |
| `ReadWriteLock.RunKeepsInv` | concurrency/ReadersWritersLock_writer_preference.cpp:18-63 | the three of them hold in every state of every run |
| `ReadWriteLock.WriterExcludesEveryone` | concurrency/ReadersWritersLock_writer_preference.cpp:18-63 | in every run, while one thread writes no other reads or writes |
| `ReadWriteLock.NoReaderIsAdmitted` | concurrency/ReadersWritersLock_writer_preference.cpp:18-51 | no step admits a reader while a writer is queued |
| `ReadWriteLock.NoReaderOvertakesWriter` | concurrency/ReadersWritersLock_writer_preference.cpp:18-51 | over any stretch of a run in which a writer stays queued, whoever reads at the end was reading at the start |
| `ReadWriteLock.NoLostWakeUp` | concurrency/ReadersWritersLock_writer_preference.cpp:18-63 | in every run, whoever sleeps on a condition that holds has someone signalled on their behalf |
| `ReadWriteLock.SleepersAreNeverAlone` | concurrency/ReadersWritersLock_writer_preference.cpp:18-63 | in every run, if a thread sleeps then another thread has an enabled step that is no spurious wake-up |
| `RingBuffer.Buffer.constructor` | concurrency/Lockfree_RingBuffer.cpp:23-24 | a new buffer is empty |
| `RingBuffer.Buffer.Push` | concurrency/Lockfree_RingBuffer.cpp:26-43 | an item is appended exactly when fewer than capacity - 1 are held |
| `RingBuffer.Buffer.Pop` | concurrency/Lockfree_RingBuffer.cpp:45-60 | the oldest item is taken, and nothing exactly when the buffer is empty |
| `RingBuffer.SlotAhead` | concurrency/Lockfree_RingBuffer.cpp:26-60 | an index does not repeat until it has gone all the way round |
| `RingBuffer.IndicesTell` | concurrency/Lockfree_RingBuffer.cpp:26-60 | equal indices mean empty, and a tail just behind the head means full, for every capacity |
| `RingBuffer.FillKeepsSlots` | concurrency/Lockfree_RingBuffer.cpp:26-43 | filling the free slot overwrites no item that is held |
| `RingBuffer.ProducerKeepsInv` | concurrency/Lockfree_RingBuffer.cpp:26-43 | every step of the producer keeps the invariant |
| `RingBuffer.ConsumerKeepsInv` | concurrency/Lockfree_RingBuffer.cpp:45-60 | every step of the consumer keeps it |
| `RingBuffer.StepKeepsInv` | concurrency/Lockfree_RingBuffer.cpp:26-60 | every single load, store and slot access keeps the invariant |
| `RingBuffer.NeverBlocked` | concurrency/Lockfree_RingBuffer.cpp:26-60 | the next step of either side can always be taken: every slot accessed is inside the buffer |
| `RingBuffer.RunKeepsInv` | concurrency/Lockfree_RingBuffer.cpp:26-60 | the invariant holds along every interleaving |
| `RingBuffer.PushedIsPassed` | concurrency/Lockfree_RingBuffer.cpp:26-43 | each published push publishes the item of the call that began it |
| `RingBuffer.PoppedIsPrefixOfPushed` | concurrency/Lockfree_RingBuffer.cpp:26-60 | in every interleaving what was pushed is what the callers passed to the published pushes, in order; the pops have returned the first of these, one each; and at most capacity - 1 items are held |
| `RingBuffer.NeverTheSameSlot` | concurrency/Lockfree_RingBuffer.cpp:26-60 | producer and consumer never access the same slot at the same time |
| `RingBuffer.RefusalsAreExact` | concurrency/Lockfree_RingBuffer.cpp:26-60 | a push is refused exactly when the buffer is full as it looks, a pop exactly when it is empty |
| `MultiTierCache.LRUcache.constructor` | caching/LRUcache_multi-tier_RAM-SSD-HDD.cpp:18 | a new tier is empty |
| `MultiTierCache.LRUcache.Full` | caching/LRUcache_multi-tier_RAM-SSD-HDD.cpp:20 | full exactly when the list, not only the index, has reached the capacity; a negative capacity is compared as an unsigned number and not reached below 2^63 entries |
| `MultiTierCache.LRUcache.Get` | caching/LRUcache_multi-tier_RAM-SSD-HDD.cpp:22-29 | a held key moves to the front and its value is returned; a missing key gives -1 |
| `MultiTierCache.LRUcache.Insert` | caching/LRUcache_multi-tier_RAM-SSD-HDD.cpp:31-34 | the entry goes to the front; list and index still agree if and only if the key was not held |
| `MultiTierCache.LRUcache.Erase` | caching/LRUcache_multi-tier_RAM-SSD-HDD.cpp:36-43 | the key's entry goes, all others keep their order |
| `MultiTierCache.LRUcache.EvictLRU` | caching/LRUcache_multi-tier_RAM-SSD-HDD.cpp:45-51 | the last entry goes |
| `MultiTierCache.LRUcache.RemoveAndExtractValue` | caching/LRUcache_multi-tier_RAM-SSD-HDD.cpp:53-63 | the entry goes and its value is returned, or nothing happens |
| `MultiTierCache.CascadeByLevels` | caching/LRUcache_multi-tier_RAM-SSD-HDD.cpp:78-104 | inserting at a tier leaves hotter tiers alone and cascades through the colder ones |
| `MultiTierCache.CascadeIsPushFront` | caching/LRUcache_multi-tier_RAM-SSD-HDD.cpp:78-104 | read from hot to cold, a cascade puts the entry in front and loses the last one exactly when every tier is full |
| `MultiTierCache.CascadeFillsRoom` | caching/LRUcache_multi-tier_RAM-SSD-HDD.cpp:78-104 | only the hottest tier with room grows |
| `MultiTierCache.CascadeKeepsCompact` | caching/LRUcache_multi-tier_RAM-SSD-HDD.cpp:78-104 | a tier still holds something only if every hotter tier is full |
| `MultiTierCache.RefillKeepsCompact` | caching/LRUcache_multi-tier_RAM-SSD-HDD.cpp:112-143 | taking an entry out of the middle and inserting at the top restores every tier's size |
| `MultiTierCache.RemovedContents` | caching/LRUcache_multi-tier_RAM-SSD-HDD.cpp:112-143 | taking a key out of the tier that the map names takes it out of the whole, and the map names it exactly if it is held |
| `MultiTierCache.PutRefinesLru` | caching/LRUcache_multi-tier_RAM-SSD-HDD.cpp:112-124 | a put is one put on a single LRU list of the summed capacity; a key is dropped only if all tiers were full and the key was new |
| `MultiTierCache.GetRefinesLru` | caching/LRUcache_multi-tier_RAM-SSD-HDD.cpp:126-143 | a get of a held key is one get on that single list and drops nothing |
| `MultiTierCache.TieredCache.constructor` | caching/LRUcache_multi-tier_RAM-SSD-HDD.cpp:107-110 | one empty tier per capacity, of exactly that capacity unless it is negative, and a cache that works if every tier can hold an entry |
| `MultiTierCache.TieredCache.InsertAt` | caching/LRUcache_multi-tier_RAM-SSD-HDD.cpp:87-93 | a tier with room takes the entry, and the map names it |
| `MultiTierCache.TieredCache.EvictAt` | caching/LRUcache_multi-tier_RAM-SSD-HDD.cpp:96-97 | the least recent entry leaves the tier and the map |
| `MultiTierCache.TieredCache.ReplaceAt` | caching/LRUcache_multi-tier_RAM-SSD-HDD.cpp:95-100 | a full tier gives up its least recent entry for the new one |
| `MultiTierCache.TieredCache.InsertIntoTier` | caching/LRUcache_multi-tier_RAM-SSD-HDD.cpp:78-104 | the recursion through the tiers is the cascade, and the map keeps naming each key's only tier |
| `MultiTierCache.TieredCache.PushDown` | caching/LRUcache_multi-tier_RAM-SSD-HDD.cpp:95-104 | a full tier passes its least recent entry on, and the rest is the cascade from the next tier |
| `MultiTierCache.TieredCache.EraseKey` | caching/LRUcache_multi-tier_RAM-SSD-HDD.cpp:115-121 | before an insertion the old entry leaves its tier |
| `MultiTierCache.TieredCache.ExtractKey` | caching/LRUcache_multi-tier_RAM-SSD-HDD.cpp:128-137 | the value of a held key, taken out of its tier |
| `MultiTierCache.TieredCache.Put` | caching/LRUcache_multi-tier_RAM-SSD-HDD.cpp:112-124 | the tiers read hot to cold are what one LRU list of the summed capacity would hold after the put |
| `MultiTierCache.TieredCache.Get` | caching/LRUcache_multi-tier_RAM-SSD-HDD.cpp:126-143 | the same for get, with the same result |
| `MultiTierCache.RunAll` | caching/LRUcache_multi-tier_RAM-SSD-HDD.cpp:112-143 | any run of puts and gets gives the results and leaves the contents of the same run on one LRU cache |
| `MultiTierCache.RunFollowsCalls` | caching/LRUcache_multi-tier_RAM-SSD-HDD.cpp:112-143 | on one LRU list the calls alone say which keys are held, in the order of their last calls, with the values last put, and what the gets return; a put into a full cache drops the key called longest ago |
| `MultiTierCache.RunNew` | caching/LRUcache_multi-tier_RAM-SSD-HDD.cpp:107-143 | the same for a new cache of the given capacities: their sum bounds it, and a get returns the value last put under a held key and -1 otherwise |
| `CacheCalls.LruTraceIsUnique` | caching/LRUcache_multi-tier_RAM-SSD-HDD.cpp:112-143 | the calls leave no choice of the keys held by an LRU cache |
| `LfuCache.LFUCache.constructor` | caching/LFUcache.cpp:36 | a new cache stands for the empty table and keeps within its capacity |
| `LfuCache.LFUCache.MoveNode` | caching/LFUcache.cpp:18-33 | the key's node moves to the front of the next bucket, an emptied bucket goes, and the minimum rises when its bucket went |
| `LfuCache.LFUCache.UpdateFreq` | caching/LFUcache.cpp:18-33 | the move is one use of the key in the plain table, and all structure is kept |
| `LfuCache.LFUCache.Get` | caching/LFUcache.cpp:38-46 | the table's answer, counted as one use; -1 for a missing key changes nothing; the capacity still holds |
| `LfuCache.LFUCache.SetValue` | caching/LFUcache.cpp:54 | the value changes in the table and in the bucket, the order of use does not |
| `LfuCache.LFUCache.Overwrite` | caching/LFUcache.cpp:53-58 | a new value for a held key counts as one use |
| `LfuCache.LFUCache.Put` | caching/LFUcache.cpp:48-75 | one put on the plain table: a held key gets the new value and one more use; if a key has to go it is the least by use count, then by last use; a capacity that is not negative is never exceeded |
| `LfuCache.PutBounded` | caching/LFUcache.cpp:48-75 | eviction at equality suffices: a put never exceeds a capacity that was not exceeded |
| `LfuCache.VictimIsForced` | caching/LFUcache.cpp:60-70 | use count and last use leave no choice of the key to evict |
| `LfuCache.RunAll` | caching/LFUcache.cpp:38-75 | any run of puts and gets gives the results and leaves the contents of the same run on the plain table, within the capacity |
| `LfuCache.VictimIsLeastCalled` | caching/LFUcache.cpp:60-70 | the entry to evict is the key with the fewest calls since it was taken in, and of those the one called longest ago |
| `LfuCache.RunFollowsCalls` | caching/LFUcache.cpp:38-75 | from the empty table the calls alone say which keys are held, with the value last put, the number of calls since the key was taken in and the order of last calls, and what the gets return |
| `LfuCache.RunNew` | caching/LFUcache.cpp:36-75 | the same for a new cache through any run of calls: a get returns the value last put under a held key and -1 otherwise |
| `CacheCalls.LfuTraceIsUnique` | caching/LFUcache.cpp:38-75 | the calls leave no choice of the keys held by an LFU cache |
| `LfuCache.LFUCache.Evict` | caching/LFUcache.cpp:60-70 | the entry removed is the least used one |
| `LfuCache.LFUCache.InsertNew` | caching/LFUcache.cpp:72-74 | a new key enters with one use and the minimum is one |
| `LfuCache.VictimIsLeastUsed` | caching/LFUcache.cpp:60-70 | the back of the bucket of the tracked minimum is the table's least entry by use count and last use |
| `LfuCache.MoveOk` | caching/LFUcache.cpp:18-33 | after the move every bucket holds the keys of its frequency in order of last use |
| `LfuCache.MinimumAfterMove` | caching/LFUcache.cpp:18-33 | the tracked minimum is still the least frequency present |
| `LfuCache.PushOk` | caching/LFUcache.cpp:31-32 | an entry used later than all others goes to the front of its bucket |
| `LfuCache.RewriteOk` | caching/LFUcache.cpp:53-58 | changing a value in place disturbs no bucket |
| `SkipList.CutSplits` | storage/skipList.cpp:46-48 | the walk to the right stops between the smaller values and the others |
| `SkipList.EmbedsSplit` | storage/skipList.cpp:38-77 | down links lead smaller values to smaller ones and the others to the others |
| `SkipList.EmbeddedBag` | storage/skipList.cpp:21-102 | a level is contained, as a multiset, in the level below |
| `SkipList.EmbedsInsert` | storage/skipList.cpp:58-69 | a new node that stands on a new node keeps all down links in order |
| `SkipList.EmbedsWithout` | storage/skipList.cpp:84-100 | removing the first node with a value from two levels leaves no link to what was deleted, although the upper node need not stand on the lower one |
| `SkipList.LinkStores` | storage/skipList.cpp:60-63 | linking a node in memory yields the longer level |
| `SkipList.UnlinkStores` | storage/skipList.cpp:88-93 | unlinking and deleting a node yields the shorter level, with nothing dangling |
| `SkipList.LaidInsert` | storage/skipList.cpp:60-63 | an insertion on one level leaves all others in place and loses no node |
| `SkipList.LaidRemove` | storage/skipList.cpp:88-93 | the same for a removal; exactly the unlinked node is freed |
| `SkipList.RaisedShape` | storage/skipList.cpp:58-69 | whichever levels the coin reaches, all levels stay sorted and linked down |
| `SkipList.RaisedTop` | storage/skipList.cpp:71-76 | the extra top level stands on the old one |
| `SkipList.InsertedBags` | storage/skipList.cpp:54-76 | which levels hold the value once more, and whether there is one more level, is decided by the coin |
| `SkipList.LoweredShape` | storage/skipList.cpp:79-102 | after an erase all levels stay sorted and linked down |
| `SkipList.BottomHasAll` | storage/skipList.cpp:21-36 | whatever any level holds, the bottom holds |
| `SkipList.SkipList.constructor` | storage/skipList.cpp:19 | a new list holds nothing |
| `SkipList.SkipList.WalkRight` | storage/skipList.cpp:27-28 | the inner loop ends at the last node below the target |
| `SkipList.SkipList.Search` | storage/skipList.cpp:21-36 | true exactly if the value is held |
| `SkipList.SkipList.InsertPoints` | storage/skipList.cpp:43-52 | one predecessor per level, each the last node below the target |
| `SkipList.SkipList.LinkNew` | storage/skipList.cpp:60-63 | the level gains the new node before all nodes that are not less, and every other level is untouched |
| `SkipList.SkipList.LinkOne` | storage/skipList.cpp:56-69 | one pass of the loop adds one storey to the tower |
| `SkipList.SkipList.LinkUpwards` | storage/skipList.cpp:54-69 | the lowest levels have taken up a tower of new nodes, exactly as high as the coin said |
| `SkipList.SkipList.AddTop` | storage/skipList.cpp:71-76 | an extra level with the new value alone stands on the old top |
| `SkipList.SkipList.Insert` | storage/skipList.cpp:38-77 | for every sequence of coin flips one occurrence is added, each level gains the value exactly if the coin led up to it, a level is added exactly if it led beyond the top, and the structure is kept |
| `SkipList.SkipList.UnlinkNext` | storage/skipList.cpp:88-93 | the level loses its first node with the value, that node is freed, and the link down of its predecessor is unchanged |
| `SkipList.SkipList.EraseOnLevel` | storage/skipList.cpp:84-99 | one level loses its first node with the value, and the walk goes on below it |
| `SkipList.SkipList.Sweep` | storage/skipList.cpp:84-101 | from the top level down every level loses its first node with the value, and the result says whether the bottom had one |
| `SkipList.SkipList.Erase` | storage/skipList.cpp:79-102 | exactly one occurrence goes if there is one, the result says whether, and nothing is left dangling or leaked |
| `SkipList.HeldCounts` | storage/skipList.cpp:21-102 | over any run a value is held as often as it was inserted more often than successfully erased |
| `SkipList.Perform` | storage/skipList.cpp:38-102 | a list that has gone through any run, with any coin flips, holds what that run says |
| `Bits32.XorIsBitwise` | Trie/maximum_XOR_of_2_numbers.cpp:53-71 | the XOR used in the contracts is the 32-bit operator: bit by bit, and an int |
| `Bits32.XorSign` | Trie/maximum_XOR_of_2_numbers.cpp:53-82 | XOR is negative exactly for opposite signs and zero exactly for equal numbers |
| `MaximumXor.TakeOpposite` | Trie/maximum_XOR_of_2_numbers.cpp:63-65 | where the opposite bit exists, taking it keeps the walk ahead of every inserted number |
| `MaximumXor.TakeSame` | Trie/maximum_XOR_of_2_numbers.cpp:66-68 | where it does not, the same bit exists and taking it keeps the walk ahead |
| `MaximumXor.LeadingIsBest` | Trie/maximum_XOR_of_2_numbers.cpp:53-71 | a walk that is ahead after 32 bits has found the largest unsigned XOR |
| `MaximumXor.MaximumXOR.constructor` | Trie/maximum_XOR_of_2_numbers.cpp:38 | a new trie holds no number |
| `MaximumXor.MaximumXOR.ChildOrNew` | Trie/maximum_XOR_of_2_numbers.cpp:44-49 | one step of insertion adds at most the one missing path |
| `MaximumXor.MaximumXOR.InsertPath` | Trie/maximum_XOR_of_2_numbers.cpp:40-51 | the paths added are the prefixes of the number's bits |
| `MaximumXor.MaximumXOR.Insert` | Trie/maximum_XOR_of_2_numbers.cpp:40-51 | the paths of the trie are exactly the prefixes of the inserted numbers |
| `MaximumXor.MaximumXOR.GetMaxXOR` | Trie/maximum_XOR_of_2_numbers.cpp:53-71 | with at least one number inserted the walk never meets a missing child and returns the largest unsigned XOR, read as an int |
| `MaximumXor.MaximumXOR.FindMaximumXOR` | Trie/maximum_XOR_of_2_numbers.cpp:73-82 | on a fresh object the answer is the maximum over two different positions (0 for fewer than two numbers) if and only if all inputs have one sign, or there are three or more and all inputs of the same sign are equal |
| `MaximumXor.OneSignMaximum` | Trie/maximum_XOR_of_2_numbers.cpp:73-82 | for inputs of one sign, non-negative ones in particular, the answer is the maximum |
| `MaximumXor.SelfMaximumIsMaximum` | Trie/maximum_XOR_of_2_numbers.cpp:73-82 | for inputs of one sign it makes no difference that the code also pairs a number with itself |
| `MaximumXor.MixedSignsGiveZero` | Trie/maximum_XOR_of_2_numbers.cpp:73-82 | for inputs of both signs the answer is 0 |
| `MaximumXor.ZeroIsMaximumIff` | Trie/maximum_XOR_of_2_numbers.cpp:73-82 | for inputs of both signs 0 is the maximum exactly if there are three or more and all inputs of the same sign are equal |
| `MaximumXor.MaximumIff` | Trie/maximum_XOR_of_2_numbers.cpp:73-82 | the exact condition on the inputs under which the answer is the maximum over two different positions |
| `MaximumXor.MaximumOfTwoElements` | Trie/maximum_XOR_of_2_numbers.cpp:73-82 | for two or more inputs of one sign the answer is reached at two different positions |
| `MaximumXor.MixedSignsMissMaximum` | Trie/maximum_XOR_of_2_numbers.cpp:73-82 | a concrete input, 0, 1 and -1, whose answer is not the maximum |
| `MaximumXor.OppositePairMissesMaximum` | Trie/maximum_XOR_of_2_numbers.cpp:73-82 | a concrete input, 0 and -1, whose answer exceeds the XOR of its only two elements |
| `LsmStore.RoundTrip` | multi-stage-pipeline/LSM_WritePath_StorageEngine.cpp:162-184 | parsing what was printed gives back the log, for words as keys and values |
| `LsmStore.RoundTripIff` | multi-stage-pipeline/LSM_WritePath_StorageEngine.cpp:162-184 | the log is read back if and only if every key and value is non-empty and free of white space |
| `LsmStore.EntriesOf` | multi-stage-pipeline/LSM_WritePath_StorageEngine.cpp:193-197 | a sorted table holds exactly the memtable's entries, each once, in key order |
| `LsmStore.BuildSSTable` | multi-stage-pipeline/LSM_WritePath_StorageEngine.cpp:193-197 | walking the memtable in key order yields that table |
| `LsmStore.SSTable.SearchKey` | multi-stage-pipeline/LSM_WritePath_StorageEngine.cpp:200-216 | binary search finds the key's value exactly if the table has the key |
| `LsmStore.FlushWorks` | multi-stage-pipeline/LSM_WritePath_StorageEngine.cpp:271-279 | a flush changes nothing that can be read |
| `LsmStore.InsertWorks` | multi-stage-pipeline/LSM_WritePath_StorageEngine.cpp:255-269 | an insertion changes what is read under its key only, flushed or not, and keeps the memtable below the threshold |
| `LsmStore.ReadIsLookup` | multi-stage-pipeline/LSM_WritePath_StorageEngine.cpp:281-297 | memtable first, then tables from the newest, is lookup in all of them merged |
| `LsmStore.ReplayHoldsLatest` | multi-stage-pipeline/LSM_WritePath_StorageEngine.cpp:255-297 | after any insertions the merged content has the latest value of every key |
| `LsmStore.RecoveryRebuilds` | multi-stage-pipeline/LSM_WritePath_StorageEngine.cpp:171-184 | a restart rebuilds exactly the memtable and the sequence of sorted tables |
| `LsmStore.CrashesAreInvisible` | multi-stage-pipeline/LSM_WritePath_StorageEngine.cpp:240-269 | over any run with restarts and crashes between log append and memtable update, log, memtable and tables are those of the uninterrupted run |
| `LsmStore.ReadSeesLatest` | multi-stage-pipeline/LSM_WritePath_StorageEngine.cpp:240-297 | over any such run a read returns the value of the last insertion under the key, and `NOT FOUND!` if there was none |
| `LsmStore.WAL.Recover` | multi-stage-pipeline/LSM_WritePath_StorageEngine.cpp:171-184 | the pairs that the file parses to |
| `LsmStore.KVstore.constructor` | multi-stage-pipeline/LSM_WritePath_StorageEngine.cpp:238-253 | a new store is the recovered one |
| `LsmStore.KVstore.InsertAgain` | multi-stage-pipeline/LSM_WritePath_StorageEngine.cpp:244-250 | replaying the log flushes wherever the first run did |
| `LsmStore.KVstore.Flush` | multi-stage-pipeline/LSM_WritePath_StorageEngine.cpp:271-279 | the memtable becomes the newest sorted table |
| `LsmStore.KVstore.Update` | multi-stage-pipeline/LSM_WritePath_StorageEngine.cpp:262-268 | one insertion into the store: with fewer than three entries it stays in memory, otherwise all of memory becomes one more sorted table; every sorted table is sorted |
| `LsmStore.KVstore.InsertKeyValue` | multi-stage-pipeline/LSM_WritePath_StorageEngine.cpp:255-269 | one served request of the run, log and store |
| `LsmStore.KVstore.ReadKey` | multi-stage-pipeline/LSM_WritePath_StorageEngine.cpp:281-297 | the value of the newest place that has the key |
| `Tokens.ReadsWord` | storage/WALrecovery.cpp:109-112 | a word between white space is read back whole |
| `Tokens.ReadsDecimal` | storage/WALrecovery.cpp:109-112 | a printed number is read back if it fits an int; otherwise the read fails |
| `Tokens.ReadsNegative` | storage/WALrecovery.cpp:109-112 | the same for a negative number |
| `WriteAheadLog.ReadsLine` | storage/WALrecovery.cpp:85-112 | a printed record is read as that record; a DELETE keeps the value variable of before |
| `WriteAheadLog.OtherWordsRemove` | storage/WALrecovery.cpp:109-121 | a line whose operation is any word but PUT is read as a removal |
| `WriteAheadLog.RoundTrip` | storage/WALrecovery.cpp:85-126 | every record's number, type, key and PUT value is read back, for words as keys and PUT values |
| `WriteAheadLog.RoundTripIff` | storage/WALrecovery.cpp:85-126 | exactly which logs are read back: all keys and PUT values are words, or the only PUT is the last record, with an empty value |
| `WriteAheadLog.EmptyPutReadsStale` | storage/WALrecovery.cpp:85-126 | an empty value at the end of a log is read as the value of the PUT before it |
| `WriteAheadLog.EmptyPutReplays` | storage/WALrecovery.cpp:100-126 | a store recovered from such a log serves that value |
| `WriteAheadLog.EmptyValueComesBackWrong` | storage/WALrecovery.cpp:100-162 | a concrete run of two puts and a restart after which the key that was given an empty value holds the value of the other key |
| `WriteAheadLog.SameReplay` | storage/WALrecovery.cpp:173-185 | logs that agree on those parts replay to the same table and the same next number |
| `WriteAheadLog.NextLsn` | storage/WALrecovery.cpp:119-123 | the next number is beyond every number read, and no further than needed |
| `WriteAheadLog.NumberedContinues` | storage/WALrecovery.cpp:123 | after a log numbered 1 to n the next number is n + 1 |
| `WriteAheadLog.RecoveryRebuilds` | storage/WALrecovery.cpp:100-126 | recovery rebuilds file, next number and table of the uninterrupted run |
| `WriteAheadLog.CrashesAreInvisible` | storage/WALrecovery.cpp:146-185 | over any run with crashes, also between append and update, nothing is lost and the log stays numbered 1, 2, 3, ... |
| `WriteAheadLog.GetSeesLatest` | storage/WALrecovery.cpp:137-162 | over any such run get returns the value of the last put under the key, and `NOT_FOUND!` if it was removed since or never put |
| `WriteAheadLog.WAL.Recover` | storage/WALrecovery.cpp:100-126 | the records the file parses to, the last one perhaps incomplete, and a next number beyond all of them |
| `WriteAheadLog.KVstore.constructor` | storage/WALrecovery.cpp:135 | a new store is the recovered one |
| `WriteAheadLog.KVstore.Replayed` | storage/WALrecovery.cpp:173-185 | the loop computes the replay of the records |
| `WriteAheadLog.KVstore.Get` | storage/WALrecovery.cpp:137-144 | the table's value or the answer for a missing key |
| `WriteAheadLog.KVstore.Put` | storage/WALrecovery.cpp:146-154 | one served request of the run: log, number and table |
| `WriteAheadLog.KVstore.Remove` | storage/WALrecovery.cpp:156-162 | the same for a removal, logged even if the key is absent |
| `Allocator.FirstFitIsLowestRun` | algorithms/DynamicMemeoryAllocator.cpp:15-37 | the first block that fits starts the lowest run of that many free addresses |
| `Allocator.NoFitMeansNoRun` | algorithms/DynamicMemeoryAllocator.cpp:15-37 | if no block fits, no such run exists |
| `Allocator.CarveKeepsTiled` | algorithms/DynamicMemeoryAllocator.cpp:24-34 | carving a request out of a block keeps the tiling and leaves no two free blocks touching |
| `Allocator.CarveTakesRun` | algorithms/DynamicMemeoryAllocator.cpp:24-34 | exactly the requested addresses stop being free |
| `Allocator.MergeNextWorks` | algorithms/DynamicMemeoryAllocator.cpp:58-65 | merging with the next block frees or loses no address |
| `Allocator.MergePreviousWorks` | algorithms/DynamicMemeoryAllocator.cpp:67-76 | merging with the previous block restores that no two free blocks touch |
| `Allocator.FreeKeepsTiled` | algorithms/DynamicMemeoryAllocator.cpp:39-77 | a free adds exactly its block's addresses and keeps the tiling; an unknown address changes nothing |
| `Allocator.MallocFindsLowestRun` | algorithms/DynamicMemeoryAllocator.cpp:15-37 | for positive sizes: -1 exactly when no run of that many free addresses exists, otherwise the lowest one |
| `Allocator.MallocKeepsTilingIff` | algorithms/DynamicMemeoryAllocator.cpp:15-37 | a request keeps the tiling if and only if its size is positive or nothing is free |
| `Allocator.AvailableIsDetermined` | algorithms/DynamicMemeoryAllocator.cpp:39-77 | the free list has no memory of the past: the allocated blocks determine it |
| `Allocator.FreeingEverythingRestores` | algorithms/DynamicMemeoryAllocator.cpp:39-77 | with nothing allocated the memory is one free block, whatever the order of frees was |
| `Allocator.RunKeepsTiling` | algorithms/DynamicMemeoryAllocator.cpp:11-77 | over every run of positive requests and arbitrary frees the blocks tile the memory |
| `Allocator.DynamicMemoryAllocator.constructor` | algorithms/DynamicMemeoryAllocator.cpp:11-13 | the whole memory is one free block |
| `Allocator.DynamicMemoryAllocator.CustomMalloc` | algorithms/DynamicMemeoryAllocator.cpp:15-37 | the scan finds the first fit and leaves the memory as the allocation function says |
| `Allocator.DynamicMemoryAllocator.CustomFree` | algorithms/DynamicMemeoryAllocator.cpp:39-77 | the block joins the free ones and is merged on both sides |
| `Allocator.DynamicMemoryAllocator.MergeWithNext` | algorithms/DynamicMemeoryAllocator.cpp:58-65 | the block that follows in the map is taken in exactly if it starts where this one ends |
| `Allocator.DynamicMemoryAllocator.MergeWithPrevious` | algorithms/DynamicMemeoryAllocator.cpp:67-76 | this block is taken in by the one before exactly if that one ends where this one starts |
| `Deduplication.SplitJoins` | storage/DeduplicationEngine_Block_Chunker.cpp:142-149 | the chunks joined are the data |
| `Deduplication.SplitSizes` | storage/DeduplicationEngine_Block_Chunker.cpp:142-149 | no chunk is empty and all but the last are full |
| `Deduplication.SplitCount` | storage/DeduplicationEngine_Block_Chunker.cpp:138-149 | one chunk for every eight characters begun |
| `Deduplication.SplitData` | storage/DeduplicationEngine_Block_Chunker.cpp:142-149 | the loop computes that split |
| `Deduplication.StoreChunkOk` | storage/DeduplicationEngine_Block_Chunker.cpp:171-184 | storing a chunk, new or known, makes its fingerprint lead to it and changes no other chunk |
| `Deduplication.StoreAllOk` | storage/DeduplicationEngine_Block_Chunker.cpp:166-187 | storing a list of chunks makes their fingerprints assemble to their join |
| `Deduplication.StoredOnce` | storage/DeduplicationEngine_Block_Chunker.cpp:171-184 | equal chunks are stored once |
| `Deduplication.ReleaseOk` | storage/DeduplicationEngine_Block_Chunker.cpp:210-219 | giving back a reference deletes a chunk only at the last one, and changes no other |
| `Deduplication.WriteKeeps` | storage/DeduplicationEngine_Block_Chunker.cpp:166-187 | a write makes its file read as the data and every other file as before |
| `Deduplication.DeleteKeeps` | storage/DeduplicationEngine_Block_Chunker.cpp:205-221 | a delete takes no chunk away from another file |
| `Deduplication.ReadKeeps` | storage/DeduplicationEngine_Block_Chunker.cpp:189-203 | reading an unknown name lists it as empty and harms nothing |
| `Deduplication.WriteKeepsExactIff` | storage/DeduplicationEngine_Block_Chunker.cpp:166-187 | counts are exact after a write if and only if they were before and the name had no stored chunks |
| `Deduplication.DeleteKeepsExact` | storage/DeduplicationEngine_Block_Chunker.cpp:205-221 | a delete leaves exact counts exact and makes no others exact |
| `Deduplication.ReadKeepsExact` | storage/DeduplicationEngine_Block_Chunker.cpp:189-203 | so does a read |
| `Deduplication.HoldingIsUsed` | storage/DeduplicationEngine_Block_Chunker.cpp:166-221 | whether a name has stored chunks after a run can be told from the calls |
| `Deduplication.RunExactIff` | storage/DeduplicationEngine_Block_Chunker.cpp:166-221 | after a run of writes, reads and deletes the counts are exact if and only if no write hit a name that held something |
| `Deduplication.RunReadsLastWritten` | storage/DeduplicationEngine_Block_Chunker.cpp:166-221 | after any run, overwrites included, every file reads as what was last written to it |
| `Deduplication.LastChangeDecides` | storage/DeduplicationEngine_Block_Chunker.cpp:166-221 | what a file holds after a run is what the last call that changed it wrote, or nothing |
| `Deduplication.OverwrittenChunkStays` | storage/DeduplicationEngine_Block_Chunker.cpp:166-221 | a concrete run that overwrites and deletes its only file and leaves the old chunk in storage |
| `Deduplication.ExactStoresOnlyReferenced` | storage/DeduplicationEngine_Block_Chunker.cpp:109-125 | with exact counts the store holds exactly the chunks some file refers to |
| `Deduplication.DataReductionEngine.constructor` | storage/DeduplicationEngine_Block_Chunker.cpp:152-160 | a new engine is empty and its counts are exact |
| `Deduplication.DataReductionEngine.StoreOne` | storage/DeduplicationEngine_Block_Chunker.cpp:171-184 | a known fingerprint gains a reference, a new one gets the next address, and only then the address advances |
| `Deduplication.DataReductionEngine.StoreChunks` | storage/DeduplicationEngine_Block_Chunker.cpp:170-184 | one fingerprint per chunk, in order, and the store with one more reference for each |
| `Deduplication.DataReductionEngine.WriteFile` | storage/DeduplicationEngine_Block_Chunker.cpp:166-187 | the file now reads as the data, in one chunk for every eight characters begun, all others as before; the counts are exact if and only if they were and the name had no stored chunks |
| `Deduplication.DataReductionEngine.StoreFile` | storage/DeduplicationEngine_Block_Chunker.cpp:170-187 | the engine after the write, as the write function has it |
| `Deduplication.DataReductionEngine.Collect` | storage/DeduplicationEngine_Block_Chunker.cpp:191-202 | the chunks that the fingerprints lead to, joined in order |
| `Deduplication.DataReductionEngine.ReadFile` | storage/DeduplicationEngine_Block_Chunker.cpp:189-203 | the data last written under the name, over any run of writes and deletes; exactness of the counts is unchanged |
| `Deduplication.DataReductionEngine.ReleaseOne` | storage/DeduplicationEngine_Block_Chunker.cpp:210-219 | the last reference takes the chunk with it |
| `Deduplication.DataReductionEngine.ReleaseChunks` | storage/DeduplicationEngine_Block_Chunker.cpp:210-219 | one reference less for each fingerprint of the file, as often as it occurs |
| `Deduplication.DataReductionEngine.ReleaseFile` | storage/DeduplicationEngine_Block_Chunker.cpp:208-220 | the engine after the delete of a held name, as the delete function has it |
| `Deduplication.DataReductionEngine.DeleteFile` | storage/DeduplicationEngine_Block_Chunker.cpp:205-221 | the file is gone, all others read as before; exactness of the counts is unchanged |
| `SnapshotManager.IncrementCounts` | storage/SnapshotManager.cpp:67-71 | counts follow the references that are added |
| `SnapshotManager.DecrementCounts` | storage/SnapshotManager.cpp:73-84 | counts follow the references that are dropped, and exactly the unreferenced blocks go |
| `SnapshotManager.SnapshotsSurvive` | storage/SnapshotManager.cpp:51-128 | whatever happens to counts, snapshots read the same while their blocks are referenced |
| `SnapshotManager.WriteKeeps` | storage/SnapshotManager.cpp:51-57 | a write appends to the file and touches no snapshot |
| `SnapshotManager.CreateKeeps` | storage/SnapshotManager.cpp:86-96 | a snapshot records the file as it is, and counts stay exact |
| `SnapshotManager.RestoreDrops` | storage/SnapshotManager.cpp:105-107 | halfway through a restore the snapshots' own references keep every shared block |
| `SnapshotManager.RestoreKeeps` | storage/SnapshotManager.cpp:98-114 | a restore brings back the recorded content and leaves every snapshot intact |
| `SnapshotManager.DeleteKeeps` | storage/SnapshotManager.cpp:116-128 | a delete leaves the file and all other snapshots as they were |
| `SnapshotManager.Manager.constructor` | storage/SnapshotManager.cpp:40-49 | a new manager has an empty file and no snapshot, and numbers blocks and versions from 1 |
| `SnapshotManager.Manager.Write` | storage/SnapshotManager.cpp:51-57 | the file grows by the data; exact counts and intact snapshots are kept |
| `SnapshotManager.Manager.IncrementRefCount` | storage/SnapshotManager.cpp:67-71 | every listed block, all of them stored, gains its references |
| `SnapshotManager.Manager.DecrementRefCount` | storage/SnapshotManager.cpp:73-84 | every listed block loses its references and is deleted at zero, never touched after that |
| `SnapshotManager.Manager.TakeSnapshot` | storage/SnapshotManager.cpp:89-95 | the new version refers to the blocks of the file and each of them is counted again |
| `SnapshotManager.Manager.CreateSnapshot` | storage/SnapshotManager.cpp:86-96 | the next version number, recorded as the file reads now |
| `SnapshotManager.Manager.SwitchTo` | storage/SnapshotManager.cpp:106-113 | references move from the file to the snapshot's blocks, all of which are still stored in between |
| `SnapshotManager.Manager.RestoreSnapshot` | storage/SnapshotManager.cpp:98-114 | the file reads as the snapshot did at creation; an unknown version changes nothing |
| `SnapshotManager.Manager.DropSnapshot` | storage/SnapshotManager.cpp:121-127 | the version and its references are gone |
| `SnapshotManager.Manager.DeleteSnapshot` | storage/SnapshotManager.cpp:116-128 | the snapshot is forgotten, the file and all others read as before |
| `SnapshotManager.Manager.ReadSnapshot` | storage/SnapshotManager.cpp:130-142 | a live snapshot reads as it did at creation, after any run |
| `SnapshotManager.Manager.ReadBlocks` | storage/SnapshotManager.cpp:139-140 | the data of the listed blocks in order |
| `DeadlockDetection.CleanEverywhere` | concurrency/DeadlockDetection.cpp:82-94 | once the search has left every node, the graph is acyclic |
| `DeadlockDetection.PaddingKeepsPaths` | concurrency/DeadlockDetection.cpp:60 | the empty entries that the search adds change no path, no cycle and nothing about who waits for whom |
| `DeadlockDetection.DeadlockDetector.constructor` | concurrency/DeadlockDetection.cpp:49-52 | a new detector knows no dependency |
| `DeadlockDetection.DeadlockDetector.AddDependency` | concurrency/DeadlockDetection.cpp:78-80 | one edge is added |
| `DeadlockDetection.DeadlockDetector.Dependencies` | concurrency/DeadlockDetection.cpp:60 | reading the dependencies of an unknown transaction enters it with none and returns none |
| `DeadlockDetection.DeadlockDetector.IsCycle` | concurrency/DeadlockDetection.cpp:54-74 | true only with a cycle of the graph as it was; false leaves no cycle through anything finished, and the stack as it was; every visited transaction has an entry and no edge has changed; the recursion ends because unvisited nodes run out |
| `DeadlockDetection.DeadlockDetector.DetectDeadlock` | concurrency/DeadlockDetection.cpp:82-94 | true if and only if the wait-for graph as it was has a directed cycle, in whatever order entries are visited; only empty entries are added, and after a negative answer every transaction mentioned has one |
| `DeadlockDetection.NewDependencyDeadlocksIff` | concurrency/DeadlockDetection.cpp:78-94 | a new dependency creates a deadlock exactly if the other transaction already waits for the first, directly or through others |
| `RateLimiter.MillisReachWindow` | rate-limiter/RateLimiter_SlidingWindow.cpp:22-33 | comparing whole milliseconds is comparing exact times with the window |
| `RateLimiter.SpacedMeansBounded` | rate-limiter/RateLimiter_SlidingWindow.cpp:39-62 | times whose limit-th predecessors are a window away are bounded in every interval of window length |
| `RateLimiter.TrimmedIsLastWindow` | rate-limiter/RateLimiter_SlidingWindow.cpp:22-33 | after cleanup the queue is exactly the trailing window |
| `RateLimiter.AdmitKeepsSpaced` | rate-limiter/RateLimiter_SlidingWindow.cpp:51-61 | admitting below the limit keeps that spacing |
| `RateLimiter.Limiter.constructor` | rate-limiter/RateLimiter_SlidingWindow.cpp:36-37 | a new limiter has accepted nothing |
| `RateLimiter.Limiter.Cleanup` | rate-limiter/RateLimiter_SlidingWindow.cpp:22-33 | exactly what has left the window is dropped |
| `RateLimiter.Limiter.Trim` | rate-limiter/RateLimiter_SlidingWindow.cpp:43-49 | both queues hold the counts of the trailing window |
| `RateLimiter.Limiter.AllowRequest` | rate-limiter/RateLimiter_SlidingWindow.cpp:39-62 | for limits that are not negative a request is refused if and only if the last second already holds the global limit, or the client's limit for that client; a negative limit refuses nothing below 2^63 accepted requests |
| `RateLimiter.EveryWindowIsBounded` | rate-limiter/RateLimiter_SlidingWindow.cpp:22-62 | every half-open second, wherever it starts, holds at most the limits that the caller gave, if they are not negative |

## Left out

- Console output, sleeping, thread creation and joining, real clocks and file handles.
- Weak memory orders of the lock-free files: steps are interleaved sequentially consistently.
- Progress of Raft: two overlapping elections can block each other for ever, so only safety is claimed; the random timeouts are not needed for it.
- The mutexes of the two stores, the limiter and the caches: each call is one step.
- A torn write of the log: an append is on the file entirely or not at all.
- Overflow of term numbers, LSNs beyond the range of an int, block ids and 64-bit chunk addresses.
- Reuse of a freed address by a later allocation: the skip list's memory hands out new addresses.
- Values equal to the answer for a missing key in the LSM store: such a value has white space and does not survive a restart either.
- RaftElection.RaftNode.StartElection: covers an election that no other thread disturbs; the interleavings are the subject of the machine lemmas.
- RingBuffer.Buffer.Push: the class states the call as a whole; the single loads and stores are steps of the machine.
- DeadlockDetection.DeadlockDetector.IsCycle: the sets passed by reference are returned as new values.
- DeadlockDetection.DeadlockDetector.DetectDeadlock: a rehash of the map by an added entry, which would leave the iterator of the loop invalid, is not modelled.
- MultiTierCache.TieredCache.Put: requires that every tier can hold an entry, because with a capacity of zero the source takes the last entry of an empty list.
- SkipList.SkipList.Insert: the flips of the coin are a parameter, and addresses are numbers in an explicit memory.
- Deduplication.DataReductionEngine.WriteFile: fingerprints are assumed to be free of collisions on the chunks in use, as the design assumes of its hash.
- The B+ tree, the transaction manager with strict two-phase locking, the lock manager, the garbage collector and the token bucket: other files of the repository that are not part of this model.
- Variants of the components above: storage/KVstore.cpp repeats the log and tables of `LsmStore`, caching/MemTable_SSTable_Lookup.cpp its read path, storage/RestoreEngine.cpp the blocks and snapshots of `SnapshotManager`, storage/ChunkStore.cpp the counted chunks of `Deduplication`, CAS/LockFree_SPSC_RingBuffer.cpp the two indices of `RingBuffer` at a fixed size, and the single-tier LRU caches the list and index of one tier of `MultiTierCache`.
- The blocking queues, semaphores, pools, query operators, file-system trees, external sorting and pattern demonstrations of the other directories.
