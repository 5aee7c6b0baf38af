# iroh-nix: a verified model

iroh-nix distributes Nix builds and store paths between peers.  This project models the parts of it where the
logic is intricate and proves, for every input and every run, what those parts are for.

| files | subject |
|---|---|
| Queue, Conservation, QueueShape, Leases, Poll, Cancel, BuildQueue, Handlers, Locks, Machine | the pull-based build queue as a protocol |
| Planner, PlanToLease | dependency planning, and its composition with the queue |
| Wire, Nar, NarTree, NarWriter, Protocol | the NAR format and the Nix wire formats |
| Bits, Base32, Text, NarInfo, HashIndex | hash texts, narinfo, and the three-key index |
| Logs, Gossip | log fan-out and the gossip caches |
| Common | what several parts share |

**The queue is modelled at three grains.**  `Queue` is a step relation in which one step is one critical section: `push`
is two steps, because it releases the id counter before it takes the pending lock, and `complete` is two steps, because
the fetch list is unlocked before the outcome is recorded.  A run is any sequence of enabled steps, so theorems over
runs cover every interleaving of builders, control socket and sweep; clock readings and hash-map orders are part of
the steps.  `BuildQueue` is the class with the source's fields and methods.  Its ghost history ties every method to
the step relation (`Consistent` says the fields are what the history produces, `Valid` also that nobody holds the leased
lock), so each theorem about runs applies to the class.  `OtherActors`, `UntilLeasedIsFree` and `OthersWithoutLeased`
stand for other threads: a caller knows only their contracts, which allow any valid continuation of the run up to the
moment the lock it needs is free.  `Machine` has single lock acquisitions, data accesses and releases as its moves, with
any number of threads; every reachable state and every answer of it is explained by a run of `Queue`.  `Locks` is its
lock traffic without the data.

**Formats** are specified by an encoder function and an independent parser.  The archive grammar is written once over
tokens and once more as the imperative writers that emit bytes under short reads and short writes; both are proved to
produce the same bytes.

**Properties that turned out false of the code** are kept as the code has them, with a witness and the exact condition:

- fresh jobs are not always in id order: overlapping pushes reorder them (`OverlappingPushesReorder`; exactly when,
  `FreshOrderExact`);
- polling can report another job's outcome when a derivation is submitted twice (`SameDrvMisleadsPoll`), and only then
  (`PollsHonestExactly`);
- "cancelled" can be answered for a job that goes on running elsewhere (`CancelCanMissALease`; exactly when,
  `CancelMissesExactly`);
- `check_timeouts` takes leased before pending, so it can deadlock with `pull` and `stats` (`DeadlockFreeExactly`);
- selected workers get stuck on a job that asks for an unannounced feature (`StuckExactly`), without an override exactly
  when some derivation's system is "builtin" (`CoverageWithoutOverride`);
- with several workers a dependency may still be building when a job is leased (`DependencyStillBuilding`), exactly when
  the plan has a dependency at all (`DependenciesReportedExactly`); what always holds is that it was leased before
  (`DependenciesLeasedEarlier`);
- the two base32 decoders differ on non-ASCII text (`DecodersAgreeExactly`), and a first character above '1' loses
  bits (`ReencodeExactly`);
- a broadcast under job id 0 reaches wildcard subscribers twice (`WildcardIsDoubled`, `OfferedOnceExactly`).

**Code and documentation disagree** in these places, and the model follows the code: timed-out jobs go to the front of
the queue (iroh-nix/src/build.rs:356), while docs/BUILD-SYSTEM.md:288 says the back; an id that has already retired is
answered Pending by PollBuild (iroh-nix/src/control.rs:285-290); `check_timeouts` has no caller outside the tests, so
what is proved about sweeps holds if something calls it; `verify_build_result` has none either, so nothing here says
that results are verified.

## Model

| member | source | states |
|---|---|---|
| Planner.TopologicalSort | iroh-nix/src/main.rs:984-1034 | For every graph, cyclic or not, and every hash-map order: the result lists each node at most once, after all its dependencies inside the build set, and lists a node exactly when no dependency chain inside the set leads from it into a cycle; it terminates |
| Planner.BuildEdgeTables | iroh-nix/src/main.rs:990-1007 | The in-degree table counts each node's in-set dependencies, and the dependents table lists, once each, exactly the nodes depending on a given one |
| Planner.CountEdges | iroh-nix/src/main.rs:997-1005 | Entering one node's edges sets its in-degree to the number of its in-set dependencies and extends the dependents table by exactly those edges |
| Planner.InitialQueue | iroh-nix/src/main.rs:1010-1014 | The starting queue enumerates the nodes of in-degree zero, each once |
| Planner.ReleaseDependents | iroh-nix/src/main.rs:1021-1030 | Releasing a listed node lowers exactly its dependents' in-degrees, never below zero, and result plus queue stay an enumeration of the nodes whose dependencies are all listed |
| Planner.ListReady | iroh-nix/src/main.rs:1009-1033 | Kahn's loop ends with a dependency-respecting list that contains every node whose dependencies are all listed |
| Planner.ListedAvoidsCycles | iroh-nix/src/main.rs:1009-1033 | In any duplicate-free dependencies-first list, no listed node leads into a cycle |
| Planner.UnlistedReachesCycle | iroh-nix/src/main.rs:1009-1033 | If every unlisted node has an unlisted dependency, every unlisted node leads into a cycle (pigeonhole on an endless chain) |
| Planner.FinishedMeansListed | iroh-nix/src/main.rs:1009-1033 | A list closed under readiness holds exactly the nodes that lead into no cycle |
| Planner.AcyclicSortIsPermutation | iroh-nix/src/main.rs:984-1034 | The sort is a permutation of the build set if and only if the set is acyclic, which the length alone decides |
| Planner.CreateBuildPlan | iroh-nix/src/main.rs:1051-1071 | The plan consists of the derivations with a missing output that lead into no cycle, in an order that respects dependencies |
| Planner.AnyMissing | iroh-nix/src/main.rs:1053-1060 | True exactly when some output path is not among the existing ones |
| Conservation.RunConserves | iroh-nix/src/build.rs:205-365 | On every run, an issued id is in exactly one of: being pushed, pending, leased, retired; an id not issued is nowhere |
| Conservation.ReturnedAt | iroh-nix/src/build.rs:349-362 | Of several jobs that time out together, the one visited last is first in the queue |
| Conservation.RunTallies | iroh-nix/src/build.rs:205-365 | On every run, pending, leased, retired and half-pushed jobs add up to the number of ids issued |
| Conservation.RetiresAtMostOnce | iroh-nix/src/build.rs:299-339 | On every run, no two retirements have the same job id |
| Conservation.RetiredByHolder | iroh-nix/src/build.rs:299-339 | A retirement takes the lease of that very job away from its holder at that step: a failure is the holder's own report, a completion the one being recorded |
| Conservation.RunKeepsPayloads | iroh-nix/src/build.rs:205-365 | Every pending or leased job carries the payload it was pushed with |
| Conservation.PayloadImmutable | iroh-nix/src/build.rs:205-246 | Once an id has been pushed, its payload is the same at every later point of the run |
| Conservation.RetiredWasPushed | iroh-nix/src/build.rs:299-339 | A retired job is the job that was pushed under its id |
| Conservation.RunKeepsKeys | iroh-nix/src/build.rs:270-276 | Every lease is stored under its own job's id, and a completion under way refers to a lease its reporter holds |
| Conservation.FetchesConserved | iroh-nix/src/build.rs:419-422 | The fetches handed out so far followed by the fetch list are exactly the accepted completions, in order |
| Conservation.AcceptedAreRetired | iroh-nix/src/build.rs:299-321 | The accepted completions are, in order, the results of the successful retirements plus the one still being recorded |
| Conservation.OutcomesAreLatest | iroh-nix/src/build.rs:312-336 | On every run the outcome table maps each derivation hash to its latest retirement, and to nothing if there was none |
| Conservation.OutcomesAreRetired | iroh-nix/src/build.rs:312-336 | The outcome table has exactly one entry per derivation ever retired |
| Conservation.CounterExact | iroh-nix/src/build.rs:212-217 | The unbounded ids of the model equal the wrapping 64-bit counter if and only if fewer than 2^64 - 1 ids have been taken |
| QueueShape.RunKeepsShape | iroh-nix/src/build.rs:254-283 | On every run no never-leased job is ahead of a returned one; leased and retired ids have been leased |
| QueueShape.ShapeSplit | iroh-nix/src/build.rs:349-362 | Pending is a block of previously leased jobs followed by a block of never-leased ones |
| QueueShape.FreshOrderExact | iroh-nix/src/build.rs:212-233 | On every run, the never-leased jobs are in increasing id order throughout if and only if every push overtaken by one with a later id enqueues only after that later id has been leased |
| QueueShape.UninterruptedPushIsAhead | iroh-nix/src/build.rs:212-233 | A push that no other push interrupts enqueues an id above every fresh one that is waiting |
| QueueShape.UninterruptedPushesKeepOrder | iroh-nix/src/build.rs:212-233 | If every push enqueues before the next id is taken, the never-leased jobs are in order throughout the run |
| QueueShape.OverlappingPushesReorder | iroh-nix/src/build.rs:212-233 | Witness: two overlapping pushes leave pending as [2, 1] |
| QueueShape.PendingIsDistinct | iroh-nix/src/build.rs:229-233 | No id is pending twice |
| QueueShape.NeverLeasedIsPending | iroh-nix/src/build.rs:205-365 | An id that was enqueued and never leased is still pending |
| Leases.PunctualBuilderKeepsLease | iroh-nix/src/builder.rs:572-603 | With a clock that never goes back, a builder whose successive pull and heartbeat times are at most 60 s apart holds its lease at every point up to its last heartbeat, unless it is reported or cancelled |
| Leases.PunctualBuilderIsHeard | iroh-nix/src/builder.rs:572-603 | If no sweep later than 60 s after its last sign of life precedes its report, the report takes effect: a failure retires the job, a completion is accepted |
| Leases.HeldThroughout | iroh-nix/src/build.rs:286-296 | The lease stands at every step and its last heartbeat is the builder's latest sign of life |
| Leases.SweepIsInTime | iroh-nix/src/build.rs:342-365 | A sweep between two punctual signs of life finds the lease at most 60 s old |
| Leases.HeldStep | iroh-nix/src/build.rs:254-365 | No single step of anyone else takes a fresh lease away |
| Poll.BuildingMeansLeased | iroh-nix/src/control.rs:241-256 | Building{b} is answered if and only if the job was leased to b at the third read |
| Poll.FinishedMeansRetired | iroh-nix/src/control.rs:258-290 | Completed or Failed reports the outcome with which this very job was retired, unless another job of the same derivation was retired by the fifth read |
| Poll.RetiredDuringPollIsReported | iroh-nix/src/control.rs:224-290 | Conversely a job seen live by one of the first two reads and retired by the third is reported with its own outcome, under the same condition |
| Poll.RetiredBeforePollIsPending | iroh-nix/src/control.rs:285-290 | An id retired before the first read is always answered Pending |
| Poll.PollReturnsReport | iroh-nix/src/control.rs:258-284 | A finished answer comes from a report of this very job by its lease holder, with the same outputs (store path, BLAKE3 hash and size of each, in order) or the same error |
| Poll.CompletedAnswerIs | iroh-nix/src/control.rs:258-284 | A job retired with a result is answered with that result's outputs, field by field, and one retired with an error with that error, once it is answered as finished |
| Poll.WaitingIsPending | iroh-nix/src/control.rs:253-257 | A job not leased at the third read and waiting at the fourth is answered Pending, whatever the outcome table says |
| Poll.SameDrvMisleadsPoll | iroh-nix/src/control.rs:258-290 | Witness for any two submissions of one derivation: a poll of the second job, which is leased, answers with the failure of the first |
| Poll.PollsHonestExactly | iroh-nix/src/control.rs:224-291 | For any submissions: on all runs that push each at most once, with any activity between the reads, every finished answer reports the polled job's own outcome, if and only if no two submissions share a derivation |
| BuildQueues.BuildQueue.Push | iroh-nix/src/build.rs:205-246 | The new job gets an id never used before and ends up last in pending with exactly the given payload; a push into an empty queue always asks for an announcement |
| BuildQueues.BuildQueue.Append | iroh-nix/src/build.rs:229-241 | Asks for an announcement if and only if the queue was empty or no features were known, and only then replaces the needed features |
| BuildQueues.BuildQueue.Pull | iroh-nix/src/build.rs:254-283 | Leases the first pending job whose features the builder covers, leaves the others in order, and returns nothing exactly when there is none |
| BuildQueues.BuildQueue.Heartbeat | iroh-nix/src/build.rs:286-296 | Succeeds exactly for the lease holder, and then changes only that lease's clock and status |
| BuildQueues.BuildQueue.Complete | iroh-nix/src/build.rs:299-321 | Succeeds exactly for the lease holder; then the lease is gone, the result is filed under the job's derivation and one retirement is added, with other threads running in between |
| BuildQueues.BuildQueue.UntilLeasedIsFree | iroh-nix/src/build.rs:299-321 | Waiting for the leased lock ends with a completion under way recorded |
| BuildQueues.BuildQueue.AcceptResult | iroh-nix/src/build.rs:306-310 | Appends the result to the fetch list while the lease is out of the table |
| BuildQueues.BuildQueue.RecordOutcome | iroh-nix/src/build.rs:312-314 | Files the completion under the job's derivation and adds exactly one retirement, naming the lease holder |
| BuildQueues.BuildQueue.Fail | iroh-nix/src/build.rs:324-339 | Succeeds exactly for the lease holder; then the lease is gone and the failure filed under the job's derivation |
| BuildQueues.BuildQueue.CheckTimeouts | iroh-nix/src/build.rs:342-365 | Expires exactly the leases silent for more than 60 s, whatever the map order; each expired job goes to the front of pending |
| BuildQueues.RetainFresh | iroh-nix/src/build.rs:349-362 | For every visiting order: the kept leases, the expired ids and the new queue front |
| BuildQueues.BuildQueue.TakePendingFetches | iroh-nix/src/build.rs:419-422 | At any moment, also between the halves of a completion: hands out the whole fetch list; what was taken before plus this is everything accepted so far |
| BuildQueues.BuildQueue.GetOutcome | iroh-nix/src/build.rs:392-394 | At any moment, also between the halves of a completion: the outcome of the latest retirement of the derivation in the queue's whole history, or nothing if none of its jobs was ever retired |
| BuildQueues.BuildQueue.Stats | iroh-nix/src/build.rs:383-389 | Pending plus leased plus jobs being pushed plus retirements so far add up to the ids issued, and the completed count is the number of derivations ever retired |
| Handlers.SubmitBuild | iroh-nix/src/control.rs:186-222 | The answered id was unused and now stands for a job with that derivation, its hash, and the system followed by the required features |
| Handlers.PollBuild | iroh-nix/src/control.rs:224-291 | With any other activity between its five reads, also completions between their halves, the answer is the one the five snapshots determine; `Poll.PollReturnsReport` says what it reports |
| Handlers.CancelBuild | iroh-nix/src/control.rs:305-325 | Answers cancelled exactly when the lookup found a lease, and then fails the job in that builder's name; the job ends up unretired if and only if the cancel missed, as characterised by its steps |
| Cancels.CancelMissesExactly | iroh-nix/src/control.rs:305-325 | On every run, a cancel leaves the job unretired if and only if between lookup and fail a sweep expired the lease, the builder has not pulled the job again since, and nobody reported it; without such a sweep the job always ends up retired |
| Cancels.HeldUntilRetired | iroh-nix/src/build.rs:254-365 | Without a timeout a lease stands until the job is retired |
| Cancels.LostUntilPulled | iroh-nix/src/build.rs:342-365 | After a timeout a builder holds the lease again only through a pull of its own |
| Handlers.CancelCanMissALease | iroh-nix/src/control.rs:305-325 | Witness: the lease moves between snapshot and fail; the answer is cancelled and nothing is retired |
| Handlers.HandleComplete | iroh-nix/src/builder.rs:148-190 | Acknowledges exactly when the lookup found the job and the reporter holds its lease at the completion step; then one retirement is added, of the pushed job with its own derivation hash; on either error no retirement is added; completions stay built from leases that were seen |
| Handlers.RecordingIsOwn | iroh-nix/src/builder.rs:148-190 | A completion being recorded was built from its own job's lease, whatever happened since the snapshot |
| Handlers.CompletionsAreOwn | iroh-nix/src/builder.rs:148-190 | On every run whose completions come from the handler, each recorded result carries its job's own derivation hash and names the builder holding the lease at that moment |
| Handlers.OutcomesFiledUnderOwnDrv | iroh-nix/src/build.rs:312-314 | On such runs every completed entry of the outcome table is filed under the hash it carries |
| Locks.DeadlockFreeExactly | iroh-nix/src/build.rs:229-389 | For any number of threads and any interleaving, a mix of operations has no reachable circular wait if and only if it does not combine check_timeouts with a successful pull or with stats |
| Locks.SweepDeadlocks | iroh-nix/src/build.rs:342-345 | Witness: check_timeouts against pull or stats reaches a circular wait after one acquisition each |
| Locks.AlwaysProgress | iroh-nix/src/build.rs:229-389 | In every other mix, whenever a call is under way some call can proceed |
| Locks.OrderedIsDeadlockFree | iroh-nix/src/build.rs:229-389 | Operations that take locks along one order never reach a circular wait |
| Locks.ReachableUpwards | iroh-nix/src/build.rs:229-389 | In every reachable state each thread takes locks upwards only and returns what it holds |
| Locks.NoCircularWait | iroh-nix/src/build.rs:229-389 | Such a state has no ring of waiting threads |
| Locks.SomeoneCanAct | iroh-nix/src/build.rs:229-389 | In such a state some running thread is not blocked |
| Locks.PendingFirstOrders | iroh-nix/src/build.rs:254-276 | Every operation except check_timeouts takes pending before leased before the rest |
| Locks.LeasedFirstOrders | iroh-nix/src/build.rs:342-345 | Every operation except a successful pull and stats takes leased before pending |
| Machine.EveryInterleavingIsARun | iroh-nix/src/build.rs:205-422 | For any number of threads and every interleaving of single lock acquisitions, data accesses and releases: the data are those of some run of the queue, with what a thread has taken out put back, and every answer any call has given is what that run says at the point where it was decided |
| Machine.AccessSound | iroh-nix/src/build.rs:205-422 | Each of the sixteen data accesses, under exactly the locks it holds, is one step of the queue or none |
| Machine.PollReadsARun | iroh-nix/src/control.rs:224-291 | The five snapshots of a poll taken by threads of this machine are the states of one run at ordered points, so the theorems about polls apply |
| Machine.SkeletonIsProgram | iroh-nix/src/build.rs:205-422 | Without the data, each call of the machine is the lock program of its operation |
| Machine.NobodyWaitsForever | iroh-nix/src/build.rs:205-422 | In every reachable state of the machine, if timeouts are not mixed with pulls or statistics, some thread can move while a call is under way |
| PlanToLease.CoverageExact | iroh-nix/src/gossip.rs:168-177 | Every worker selected by the announced features covers every job if and only if the jobs ask for announced features only |
| PlanToLease.StuckExactly | iroh-nix/src/gossip.rs:168-177 | Selected workers can reach a state in which jobs wait, nothing is built and a selected worker's pull takes nothing, if and only if some job asks for a feature that was not announced |
| PlanToLease.CoverageWithoutOverride | iroh-nix/src/main.rs:1248-1258 | Without user features that is exactly when no derivation's system is "builtin" |
| PlanToLease.CoverageWithOverride | iroh-nix/src/main.rs:1135-1149 | With user features it is exactly when the user names announced features only |
| PlanToLease.BuildFeaturesAre | iroh-nix/src/main.rs:1135-1149 | A job asks for the derivation's system and its required features except "builtin", unless the user names features, which then replace them |
| PlanToLease.PushesFillQueue | iroh-nix/src/main.rs:1133-1195 | Pushing a plan into a new queue leaves its jobs pending in plan order under ids 1, 2, ... |
| PlanToLease.WorkerFollowsPlan | iroh-nix/src/builder.rs:424-504 | On every run after the pushes in which covering workers pull only while nothing is leased, with timeouts, fetches, heartbeats, reports and stale requests at any time: the first k jobs have retired in plan order, except that the last of them may still be leased, and the rest are waiting |
| PlanToLease.LeaseOrderRespectsDependencies | iroh-nix/src/build.rs:254-283 | Planner, push, selection and pull together, on every such run, timeouts included: a pull by a selected worker while jobs wait and none is built succeeds, leases the next planned job, and every planned dependency of it has been reported |
| PlanToLease.PlanCanFinish | iroh-nix/src/builder.rs:424-504 | Every such run, timeouts included, can be continued until all jobs have retired in plan order |
| PlanToLease.WorkersLeaseInOrder | iroh-nix/src/build.rs:254-283 | On every run with any number of covering workers and any timeouts, exactly the first k jobs have ever been leased and the others wait in plan order behind returned ones |
| PlanToLease.DependenciesLeasedEarlier | iroh-nix/src/build.rs:254-283 | On every such run of selected workers, a pull while jobs wait leases one, and every planned dependency of it has been leased before |
| PlanToLease.DependenciesReportedExactly | iroh-nix/src/build.rs:254-283 | For a plan pushed without asking for unannounced features: on every run of any number of selected workers, with any timeouts, every pull leases only a job whose planned dependencies have all been reported, if and only if no planned derivation depends on another planned one |
| PlanToLease.DependencyStillBuilding | iroh-nix/src/build.rs:254-283 | Witness for every planned dependency: a run in which the dependent job is leased while its dependency is leased to another builder and nothing has been reported |
| PlanToLease.DependencyIsEarlier | iroh-nix/src/main.rs:1063-1071 | In a plan, every planned dependency has an earlier position |
| Wire.ReadPaddedExact | iroh-nix/src/nar.rs:237-252 | Reading a padded string yields s and rest if and only if the input is the padded encoding of s followed by rest |
| Wire.ReadU64Exact | iroh-nix/src/nar.rs:254-259 | The same for little-endian 64-bit integers |
| Wire.FromLEInvertsLE | iroh-nix/src/nar.rs:254-259 | Little-endian bytes of a number in range give the number back |
| Wire.LEInvertsFromLE | iroh-nix/src/nar.rs:254-259 | Every byte string is the little-endian encoding of its value |
| Wire.LEByte | iroh-nix/src/nar.rs:254-259 | Byte i has the weight 256^i |
| Wire.PaddedLayout | iroh-nix/src/nar.rs:237-252 | Length byte by byte, data, and the fewest zeros that make the total a multiple of eight |
| Wire.ValidUtf8Exactly | iroh-nix/src/nix_protocol.rs:45-59 | The UTF-8 check accepts exactly the encodings of sequences of Unicode scalar values |
| Wire.TokenizeFrames | iroh-nix/src/nar.rs:237-252 | Splitting a framed token sequence followed by anything gives the tokens back, then the split of the rest |
| Wire.FrameInvertsTokenize | iroh-nix/src/nar.rs:237-252 | Framing what was split off plus the leftover is the input |
| Wire.FrameAligned | iroh-nix/src/nar.rs:237-252 | Framed sequences have a length divisible by 8 |
| Nar.ParsesNode | iroh-nix/src/nar.rs:106-132 | The grammar is deterministic: the parser recovers a tree and what follows it from its tokens |
| Nar.NodeWasWritten | iroh-nix/src/nar.rs:106-132 | Whatever the parser accepts is the token sequence of what it returns |
| Nar.SortedUnique | iroh-nix/src/nar.rs:161-167 | A set of named entries has one order sorted by name |
| Nar.DistinctPermutation | iroh-nix/src/nar.rs:161-167 | Sorting any two listings of the same distinct names gives the same sequence |
| Nar.SortSorts | iroh-nix/src/nar.rs:161-167 | Sorting a listing of distinct names gives strictly increasing names, by bytes |
| Nar.SortKeeps | iroh-nix/src/nar.rs:161-167 | Sorting neither drops nor adds entries |
| Nar.BelowExactly | iroh-nix/src/nar.rs:167 | One name is below another if and only if they agree up to some point where the first ends or has the smaller byte |
| Nar.SmallerByteFirst | iroh-nix/src/nar.rs:167 | After any common part, the smaller byte goes first, and a name goes before its continuations |
| NarTree.ParseNarExact | iroh-nix/src/nar.rs:94-259 | Parsing bytes yields tree n and rest if and only if n is canonical and the bytes are the archive of n followed by rest |
| NarTree.NarIsRead | iroh-nix/src/nar.rs:94-259 | For every canonical tree and any following bytes, the parser recovers exactly both |
| NarTree.NarPrefixFree | iroh-nix/src/nar.rs:94-259 | Archives are injective and prefix-free: equal bytes with any continuations mean equal trees and equal continuations |
| NarTree.NarAligned | iroh-nix/src/nar.rs:94-259 | The length of an archive is a multiple of 8 |
| NarTree.CanonIsCanonical | iroh-nix/src/nar.rs:151-185 | What is written for a file system tree is canonical: names strictly sorted at every level |
| NarTree.ListingOrderIrrelevant | iroh-nix/src/nar.rs:161-167 | Trees that differ only in the order of directory listings, at any depth, other mode bits, or data past the recorded size give the same archive |
| NarTree.DirectoryInByteOrder | iroh-nix/src/nar.rs:151-185 | A directory is written as exactly its listed entries in ascending byte order of the names |
| NarTree.ExecutableDigits | iroh-nix/src/nar.rs:187-198 | A file is executable if and only if one of its three permission digits is odd |
| NarTree.SerialisableExactly | iroh-nix/src/nar.rs:106-252 | A tree can be serialised if and only if every file in it can: no special file, UTF-8 names and targets, no file shorter than its size |
| NarTree.TokensSpell | iroh-nix/src/nar.rs:94-235 | The tokens are the ASCII words of the archive format |
| NarTree.SymlinkInWords | iroh-nix/src/nar.rs:106-149 | A symlink is ( type symlink target <target> ) |
| NarTree.FileInWords | iroh-nix/src/nar.rs:187-235 | A file is ( type regular [executable <empty>] contents <contents> ) |
| NarTree.DirectoryInWords | iroh-nix/src/nar.rs:151-185 | A directory is ( type directory <entries> ), each entry being entry ( name <name> node <node> ) |
| NarTree.SameArchiveExactly | iroh-nix/src/nar.rs:94-259 | Two trees have the same archive if and only if they agree up to listing order at any depth, mode bits other than executability, and data past the recorded size |
| NarTree.WrittenIsRead | iroh-nix/src/nar.rs:94-259 | What the writer emits for a tree, followed by anything, is parsed as its canonical form and that continuation |
| NarWriters.HashingWriter.Write | iroh-nix/src/nar.rs:69-75 | For every short write or error, the two hash inputs and the count advance by exactly what the inner writer accepted |
| NarWriters.HashingWriter.WriteAll | iroh-nix/src/nar.rs:68-80 | Repeated short writes deliver the buffer exactly once and in order, or an I/O error occurred |
| NarWriters.HashingWriter.Finish | iroh-nix/src/nar.rs:49-60 | Both hashes and the size are those of the bytes the inner writer accepted |
| NarWriters.WriteString | iroh-nix/src/nar.rs:237-252 | Emits the padded encoding of the string |
| NarWriters.ReadSome | iroh-nix/src/nar.rs:207-214 | A read returns some of the next bytes, or none only at the end |
| NarWriters.WriteContents | iroh-nix/src/nar.rs:199-232 | For every schedule of short reads and writes, the chunked writer emits one padded string of the first `size` bytes, or fails because of I/O or a file shorter than `size` |
| NarWriters.WriteSymlink | iroh-nix/src/nar.rs:134-149 | Emits the symlink node, or fails because of I/O or a target that is not UTF-8 |
| NarWriters.WriteFile | iroh-nix/src/nar.rs:187-235 | Emits the regular-file node with the executable flag taken from the mode bits |
| NarWriters.WriteDirectory | iroh-nix/src/nar.rs:151-185 | Emits the canonical directory, whose entries `NarTree.DirectoryInByteOrder` puts in ascending byte order; fails only because of I/O or an entry that cannot be serialised |
| NarWriters.WriteNamedEntry | iroh-nix/src/nar.rs:169-182 | Emits one directory entry around its node |
| NarWriters.WriteEntry | iroh-nix/src/nar.rs:106-132 | Emits the token frames of the tree, for every tree; otherwise I/O failed or the tree holds a special file, non-UTF-8 text or a truncated file |
| NarWriters.WritePath | iroh-nix/src/nar.rs:94-99 | Streaming output equals the archive that the parser inverts |
| NarWriters.SerializePath | iroh-nix/src/nar.rs:262-278 | For any writer, the bytes, both hashes and the size are those of the archive, so a sink and a buffer give the same record |
| Protocol.WriteString | iroh-nix/src/nix_protocol.rs:88-100 | Appends the same padded encoding as the archive writer |
| Protocol.WriteNixString | iroh-nix/src/http_cache.rs:588-595 | Appends the same padded encoding, although computed from a slice of a block |
| Protocol.WriteStringSet | iroh-nix/src/nix_protocol.rs:105-111 | Appends the count and the padded strings |
| Protocol.Reader.GetString | iroh-nix/src/nix_protocol.rs:45-59 | The stepwise reader computes what the string decoder says and consumes exactly that |
| Protocol.Reader.GetStringSet | iroh-nix/src/nix_protocol.rs:64-71 | The same for string sets |
| Protocol.Reader.GetSettings | iroh-nix/src/build_hook.rs:226-247 | The same for the settings stream |
| Protocol.ReadStringExact | iroh-nix/src/nix_protocol.rs:45-59 | A read yields s and rest if and only if s is UTF-8 and the input is its length, s, padding of any content, and rest |
| Protocol.ReadsString | iroh-nix/src/nix_protocol.rs:45-100 | Reading inverts writing for every UTF-8 string and any trailing bytes |
| Protocol.ReadsStringSet | iroh-nix/src/nix_protocol.rs:64-111 | Reading inverts writing for string sets and any trailing bytes |
| Protocol.ReadsSettings | iroh-nix/src/build_hook.rs:226-247 | A settings stream is read as its assignments in order, leaving the trailing bytes |
| Protocol.LastValueWins | iroh-nix/src/build_hook.rs:226-247 | A key repeated in the settings stream ends up with its last value |
| Protocol.BuildExportData | iroh-nix/src/http_cache.rs:552-584 | The buffer built step by step is the export stream of the import |
| Protocol.MagicSpellsNixe | iroh-nix/src/http_cache.rs:552-584 | The export magic reads NIXE in the stream |
| Protocol.ExportIsRead | iroh-nix/src/http_cache.rs:552-584 | With a well-formed archive, path, references, deriver text and anything that follows are recovered, although the archive has no length in front |
| Protocol.ParseExportExact | iroh-nix/src/http_cache.rs:552-584 | A stream is read as these parts and rest if and only if it is the export of a canonical archive with them, followed by rest |
| Protocol.ExportExact | iroh-nix/src/http_cache.rs:552-584 | For well-formed archives, two streams are equal if and only if the imports are, up to an absent versus empty deriver |
| Protocol.IllFormedArchivesCollide | iroh-nix/src/http_cache.rs:552-584 | Witness: with raw bytes that are no archive, two different imports have the same stream |
| Protocol.DecodableExactly | iroh-nix/src/http_cache.rs:552-584 | For any set of archive bytes: exports determine their imports if and only if no archive of the set continues another one by bytes that some pair of export tails can hide |
| Protocol.PrefixFreeIsDecodable | iroh-nix/src/http_cache.rs:552-584 | Any prefix-free set of archives is enough |
| Protocol.CanonicalArchivesDecodable | iroh-nix/src/http_cache.rs:552-584 | The archives of canonical trees are such a set |
| Protocol.HiddenGapsAreAligned | iroh-nix/src/http_cache.rs:552-584 | Bytes that can be hidden begin with the export magic and are a positive multiple of eight long |
| Base32.ToNixBase32 | iroh-nix/src/hash_index.rs:84-107 | 52 characters of the alphabet whose base-32 value is the hash read as a little-endian number |
| Base32.NixBase32Encodes | iroh-nix/src/hash_index.rs:84-107 | sum of digit(n)*32^n = sum of byte(i)*256^i for every 32-byte hash |
| Base32.DigitBits | iroh-nix/src/hash_index.rs:95-102 | Digit n carries exactly bits 5n to 5n+4 of the hash, also across a byte boundary and at the top |
| Base32.AlphabetIs | iroh-nix/src/hash_index.rs:84-107 | The alphabet consists of the ten digits and the lower-case letters without e, o, t and u |
| Base32.AlphabetAscends | iroh-nix/src/hash_index.rs:84-107 | The alphabet is in ascending order |
| Base32.DecodeNixBase32 | iroh-nix/src/http_cache.rs:189-228 | At every length: fails exactly on a character outside the alphabet, and otherwise returns the low 5*len/8 bytes of the value |
| Base32.ParseSha256Base32 | iroh-nix/src/http_cache.rs:165-169 | Accepts exactly texts of 52 bytes over the alphabet and returns the 32 low bytes of their value |
| Base32.DecodeNix32 | iroh-nix/src/nix_info.rs:97-129 | Fails exactly when the text is not 52 bytes long or some character's low byte is outside the alphabet; otherwise the low 32 bytes of the value |
| Base32.DecodedValue | iroh-nix/src/http_cache.rs:189-228 | The decoded bytes stand for the value modulo 256^(5*len/8) |
| Base32.DecodeInvertsEncode | iroh-nix/src/http_cache.rs:189-228 | Decoding a numeral of a hash gives the hash |
| Base32.BothDecodersInvertEncode | iroh-nix/src/nix_info.rs:97-129 | Both decoders recover every hash from its encoding |
| Base32.NumeralIsUnique | iroh-nix/src/hash_index.rs:84-107 | Two numerals of equal length and value are equal |
| Base32.EncodeInvertsDecodeExactly | iroh-nix/src/http_cache.rs:189-228 | Any numeral of the decoded bytes equals the 52-character input if and only if the input starts with 0 or 1 |
| Base32.ReencodeExactly | iroh-nix/src/hash_index.rs:84-107 | Encoding what the decoder returned gives the text back if and only if it starts with 0 or 1 |
| Base32.DecodersAgreeExactly | iroh-nix/src/nix_info.rs:97-129 | On texts of 52 bytes the two decoders agree if and only if the text is ASCII or its low bytes are not all in the alphabet |
| Base32.DecodersCanDisagree | iroh-nix/src/nix_info.rs:97-129 | Witness: a text with U+0130 that one decoder refuses and the other accepts |
| NarInfos.Parse | iroh-nix/src/http_cache.rs:76-138 | The line loop computes the key-by-key meaning of the text, with the same early errors; `NarInfos.EveryRecordIsRead` says what that meaning is |
| NarInfos.EveryRecordIsRead | iroh-nix/src/http_cache.rs:76-176 | Every record is read back from every text that says it: each compression by its name in any letter case or, for bzip2, by an unknown name or none, the hash in base 32, hex of either case or SRI form, an optional file size, references, and a known, unknown or absent deriver; lines in any order with any inert lines mixed in |
| NarInfos.CompressionExactly | iroh-nix/src/http_cache.rs:42-50 | A compression is read exactly from its name in any letter case, and anything else means bzip2 |
| NarInfos.SpelledHashIsRead | iroh-nix/src/http_cache.rs:145-187 | A hash spelled in base 32, in hex of either case or in SRI form is read as that hash |
| NarInfos.HexDecodeExactly | iroh-nix/src/http_cache.rs:159-163 | A text decodes to these bytes if and only if it spells them, two digits a byte, high half first |
| NarInfos.HexDigitsAt | iroh-nix/src/hash_index.rs:31-33 | Printed hex has two lower-case digits per byte, high half first |
| NarInfos.ParsedHasRequired | iroh-nix/src/http_cache.rs:127-137 | A text that parses has a line for each of the four required keys |
| NarInfos.SilentExactly | iroh-nix/src/http_cache.rs:86-95 | A line says nothing if and only if it is blank, a comment or has no colon |
| NarInfos.SaysKeyAndValue | iroh-nix/src/http_cache.rs:91-95 | Any other line says what is before and after its first colon, trimmed |
| NarInfos.KnownKeys | iroh-nix/src/http_cache.rs:97-124 | The parser knows exactly eight keys |
| Text.TrimExactly | iroh-nix/src/http_cache.rs:86-95 | Trimming gives t if and only if t is trimmed and only whitespace stood around it |
| Text.SplitAtWhite | iroh-nix/src/http_cache.rs:110-116 | Any whitespace character separates words |
| Text.ParseU64Exactly | iroh-nix/src/http_cache.rs:104-109 | A size is read from decimal digits, with or without a plus sign, if and only if it fits 64 bits |
| Text.DecimalPositional | iroh-nix/src/substituter.rs:222-232 | Decimal notation is positional, most significant digit first |
| NarInfos.InertLineIgnored | iroh-nix/src/http_cache.rs:86-95 | Inserting a blank, comment, colon-less or unknown-key line anywhere in the line list does not change the result |
| NarInfos.OrderIrrelevant | iroh-nix/src/http_cache.rs:97-124 | Permuting assignments whose known keys are distinct does not change the result, success or failure |
| NarInfos.LineOrderIrrelevant | iroh-nix/src/http_cache.rs:76-138 | Two texts with the same lines in any order, no known key twice, parse alike |
| NarInfos.InertLineInText | iroh-nix/src/http_cache.rs:76-138 | Two texts that differ by one inert line anywhere parse alike |
| NarInfos.PrintedOrderIrrelevant | iroh-nix/src/http_cache.rs:76-138 | Printing lines in any other order with any inert lines mixed in gives a text that parses alike |
| NarInfos.HandleNarInfo | iroh-nix/src/substituter.rs:217-245 | The body built by appending is the lines of the entry |
| NarInfos.KeyLineIsRead | iroh-nix/src/http_cache.rs:86-95 | A printed key and value come back unchanged |
| NarInfos.ReferencesRestoredExactly | iroh-nix/src/hash_index.rs:386-407 | References survive the basename encoding if and only if each is a store path whose basename is a single word |
| NarInfos.ServedHashIsRead | iroh-nix/src/http_cache.rs:145-176 | The printed NAR hash parses back to the same 32 bytes |
| NarInfos.ParsedIsClean | iroh-nix/src/http_cache.rs:76-138 | Whatever parses has a trimmed store path, well-formed references and a deriver under the store |
| NarInfos.NarInfoRoundTripExactly | iroh-nix/src/substituter.rs:217-245 | Parsing the served text recovers path, hash, size, references, deriver and compression "none" if and only if the entry is well formed |
| HashIndexes.RowRestoresExactly | iroh-nix/src/hash_index.rs:362-415 | An entry survives the columns if and only if its references are single words under the store and its deriver is under the store; keys and the 64-bit size always survive |
| HashIndexes.StoreHashExactly | iroh-nix/src/hash_index.rs:410-415 | A path has store hash h if and only if h has no dash and the path is the store directory followed by h and then nothing or a dash and a name |
| HashIndexes.NoStoreHash | iroh-nix/src/hash_index.rs:410-415 | A path has no store hash if and only if it is outside the store |
| HashIndexes.ReplaceKeepsTable | iroh-nix/src/hash_index.rs:229-250 | After an insert no two rows share a BLAKE3 hash, SHA256 hash or store path, and the store-hash column is the prefix of the path |
| HashIndexes.ReplaceRemovesAtMostThree | iroh-nix/src/hash_index.rs:229-250 | An insert removes at most three rows |
| HashIndexes.RunKeepsTable | iroh-nix/src/hash_index.rs:155-315 | Both table invariants hold after every run of inserts and deletes |
| HashIndexes.TableIsSurvivors | iroh-nix/src/hash_index.rs:229-315 | On every run the table holds exactly the rows inserted (or there before) that no later insert under one of their three keys and no later delete displaced |
| HashIndexes.AnswerIsUnique | iroh-nix/src/hash_index.rs:253-292 | A unique-key lookup has one possible answer |
| HashIndexes.InsertedIsFound | iroh-nix/src/hash_index.rs:229-292 | After an insert, all three keyed lookups return that entry, restored through the columns |
| HashIndexes.OthersAreStillFound | iroh-nix/src/hash_index.rs:229-292 | Rows that clash on no key are found as before |
| HashIndexes.ServedRowExactly | iroh-nix/src/substituter.rs:217-245 | Serving any stored row and parsing the text recovers the row's entry if and only if its path is one trimmed line and its deriver, if any, is usable; its references always are |
| HashIndexes.InsertedIsServedExactly | iroh-nix/src/substituter.rs:195-245 | Insert, look up by store hash, serve and parse: the original entry is recovered if and only if it is well formed, provided no other path in the table has the same hash |
| HashIndexes.RequestIsServedExactly | iroh-nix/src/substituter.rs:195-245 | For a path written as store directory, hash, dash and name: inserting it and requesting /<hash>.narinfo leads to it, and the client's parse recovers everything if and only if the entry is well formed, provided no other path has that hash |
| HashIndexes.ServedUrlIsRequested | iroh-nix/src/substituter.rs:319-325 | Following the URL of a served narinfo asks for the archive with the entry's BLAKE3 hash |
| HashIndexes.BackfillKeepsKeys | iroh-nix/src/hash_index.rs:189-206 | Backfilling the store-hash column keeps the keys unique and fills every row |
| HashIndexes.HashIndex.Insert | iroh-nix/src/hash_index.rs:229-250 | Replaces exactly the rows that clash on some key, at most three |
| HashIndexes.HashIndex.Get | iroh-nix/src/hash_index.rs:253-292 | Returns the entry of the row with that key, or nothing if there is none |
| HashIndexes.HashIndex.GetByStoreHash | iroh-nix/src/hash_index.rs:295-306 | Returns an entry of a row whose path has this store hash, or nothing if none has; `HashIndexes.StoreHashExactly` says which paths those are |
| HashIndexes.HashIndex.DeleteByBlake3 | iroh-nix/src/hash_index.rs:309-315 | Removes the row with that hash, at most one, and says whether there was one |
| HashIndexes.HashIndex.Migrate | iroh-nix/src/hash_index.rs:189-206 | The row-by-row backfill gives every row its extracted store hash and changes nothing else |
| Logs.LogHub.SubscribeLogs | iroh-nix/src/build.rs:432-437 | A new, empty, attached subscription; the others are untouched |
| Logs.LogHub.SubscribeAllLogs | iroh-nix/src/build.rs:442-445 | A subscription under the wildcard id |
| Logs.LogHub.SendTo | iroh-nix/src/build.rs:457-465 | One retain pass offers the entry to every sender of that id and drops exactly those whose channel is full or closed |
| Logs.LogHub.BroadcastLog | iroh-nix/src/build.rs:448-466 | Two passes over the table are one offer per matching subscription |
| Logs.LogHub.CleanupLogSubscribers | iroh-nix/src/build.rs:469-475 | Detaches exactly the subscriptions whose receiver is gone |
| Logs.DeliveryWithoutGaps | iroh-nix/src/build.rs:432-475 | On every run a subscriber's received plus buffered entries are a contiguous prefix of what was offered since it subscribed, all of it while it is attached, never more than 256 buffered |
| Logs.OfferedOnceExactly | iroh-nix/src/build.rs:457-465 | A subscription is offered each matching broadcast exactly once if and only if no broadcast under id 0 reaches it as a wildcard subscription |
| Logs.WildcardIsDoubled | iroh-nix/src/build.rs:448-466 | Witness: one broadcast under id 0 reaches a wildcard subscriber twice |
| Logs.SubscriberSeesMatching | iroh-nix/src/build.rs:448-466 | On every run with issued job ids, what a subscriber has seen is a prefix of the matching broadcasts, each once |
| Logs.DroppedExactly | iroh-nix/src/build.rs:448-475 | A step detaches a subscription exactly when an entry for it meets a full or closed channel, or cleanup meets a closed one |
| Gossip.Caches.AddProvider | iroh-nix/src/gossip.rs:123-129 | Takes one more announcement into account and nothing else |
| Gossip.Caches.GetProviders | iroh-nix/src/gossip.rs:132-134 | Exactly the endpoints that announced the artifact since they last left, once each, in order of first such announcement and with its data |
| Gossip.Caches.RemoveProvider | iroh-nix/src/gossip.rs:137-141 | For every map order, the peer leaves every list and the rest keep their order |
| Gossip.Caches.AddRequester | iroh-nix/src/gossip.rs:158-160 | The requester's need replaces its earlier one |
| Gossip.Caches.PeerLeft | iroh-nix/src/gossip.rs:303-312 | A departing peer is forgotten by both caches |
| Gossip.Caches.AddOutputs | iroh-nix/src/gossip.rs:409-428 | The outputs of a finished build are offered by its builder, in order |
| Gossip.Caches.HandleEvent | iroh-nix/src/gossip.rs:289-437 | After any event both caches answer as `NeedsAfterEvent` and `ProvidersAfterEvent` say; undecodable content and invalid ids change nothing and are reported |
| Gossip.NeedsAfterEvent | iroh-nix/src/gossip.rs:289-437 | After any event, a peer's need is the one a NeedBuilder names it for as the requester, whoever relays it; gone when the peer left; otherwise as before |
| Gossip.ProvidersAfterEvent | iroh-nix/src/gossip.rs:289-437 | After any event, an artifact's providers have gained the sender of Have or IHave, or the builder of a finished build for each of its outputs with the first such output's path and size, unless listed; lost a departed peer; otherwise as before |
| Gossip.WithoutExactly | iroh-nix/src/gossip.rs:137-141 | Removing a peer keeps exactly the entries of the others |
| Gossip.Caches.GetMatchingRequesters | iroh-nix/src/gossip.rs:168-177 | Exactly the requesters whose latest standing need is covered, each once |
| Gossip.ProvidersAfterOffer | iroh-nix/src/gossip.rs:123-129 | One more announcement appends the peer unless it is already listed for that artifact |
| Gossip.ProvidersAfterOther | iroh-nix/src/gossip.rs:137-141 | A departure filters the peer out; a need changes nothing |
| Gossip.ListedHasOffer | iroh-nix/src/gossip.rs:123-141 | A peer is listed if and only if it has announced the artifact since it last left |
| Gossip.ListedOnce | iroh-nix/src/gossip.rs:123-129 | No endpoint is listed twice for an artifact |
| Gossip.LatestNeedStands | iroh-nix/src/gossip.rs:158-165 | The recorded need is a given one if and only if that was announced and since then the peer neither left nor announced another |

## Left out

- BuildQueues.BuildQueue.Push: job ids are unbounded; they are the source's 64-bit ids exactly while fewer than 2^64 - 1 have been taken (`Conservation.CounterExact`), and what follows a wrap-around is not modelled. `needed_features` is modelled only as far as push uses it.
- HashIndexes.HashIndex.Migrate: states the store-hash backfill; adding the columns themselves is SQL and has no counterpart in a set of rows.
- SQLite itself: the table is a set of rows with the documented INSERT OR REPLACE effect on the declared unique keys.
- BLAKE3, SHA256, Ed25519 and the signatures on build results: hashers are represented by the bytes they have absorbed, hash functions by parameters.
- Base64 (SRI) decoding in narinfo hashes: a library call, which enters as a parameter.
- Allocation: a huge announced string length makes the reader allocate before it reads; running out of memory is not modelled.
- Interrupted system calls: `write_all` and `read_exact` repeat them, so they do not appear there; an interrupted plain read of a file counts as an I/O failure.  A write that accepts nothing is an error, as in `write_all`.
- The log part of the queue is a class of its own (`LogHub`), since its lock is never held together with another.
- The callbacks that gossip messages trigger, and the sending of announcements.
- `try_find_via_gossip`: it answers with placeholder hashes, so the narinfo round trip covers indexed entries.
- QUIC, HTTP, Unix-socket and TCP plumbing, and the postcard and serde encodings: messages are datatypes here.
- Running `nix` and `nix-store`, parsing their output, and streaming logs from the build process.
- Decompression of fetched archives.
- Retry delays, garbage collection, the command line, the NixOS module: user interface or easy members.
