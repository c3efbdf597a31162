# Verified models of zsim's closed state machines

zsim simulates many cores in two phases: a bound phase, in which threads run and touch the caches, and a weave
phase, in which recorded events are replayed with contention. This project models the parts whose correctness
rests on asserts and comments, and proves what those rely on. One module per component:

- `Topology`, `Coherence`, `Protocol`, `Hierarchy`: hierarchical MESI coherence of one line over a tree of inclusive
  caches of any shape and depth. `Coherence` and `Protocol` give the controllers as functions on the states of all
  caches, with the invariants that every operation keeps: exact directories, inclusion, a single writer, and no lost
  data. Data is followed by versions, which stand for what grants and writeback flags carry. `Hierarchy` has the
  controllers as they are written, updating their tables in place, with every assert proved.
- `RaceFilter`, `Races`, `RaceSteps`, `Runs`, `Progress`: the same with the steps of many threads interleaved at the
  points where the controllers drop locks. `Races` is the machine, `RaceSteps` proves what each step keeps, `Runs`
  states what holds in every run, and `Progress` that every run's requests come to an end.
- `Locks`: the two locks of every controller and the filter locks, for all lines at once: the order in which accesses,
  evictions and invalidations take and drop them, why no set of threads deadlocks, and why no two use the same cache's
  states or filter at once.
- `ZCache` (with `Arith`): the zcache's replacement walk and relocation chain.
- `PrioQueue`, `Weave`, `ChildBlocks`: the calendar queue, the event graph it drives, and the events' child lists.
- `Window`: the instruction window's three-tier port reservation table.
- `Barrier`: the join/leave barrier with limited parallelism.
- `Umon`: the utility monitor's LRU stacks and miss curve.
- `FilterCache`: the one-line-per-set filter in front of a terminal L1.
- `ActWindow`, `DdrQueue`, `DdrTiming`, `DdrPrompt`, `DdrLimits`, `DdrRefresh`, `DdrClock`, `DdrLanes`, `DdrSteps`,
  `DdrRest`, `DdrController`, `DdrRuns`: the DDR controller, from its activation window and per-bank queues to its
  command timing, clock domains and scheduling event. `DdrTiming` proves that no command comes too early and `DdrPrompt`
  that none comes later than it has to; `DdrLimits` and `DdrRefresh` say exactly when two timing rules hold that the
  code does not enforce; `DdrRest` says why the event misses nothing, and `DdrRuns` has two runs in which it comes too
  early and too late.

Where the source changes state in place, the model is a class or a method with loops, proved equal to a function on
values; the properties are then lemmas about that function and about runs.

## Where the code and its comments differ

The model follows the code.

- `src/filter_cache.h:168`: its FIXME is right. The filter stays correct exactly when the invalidation is seen by a
  thread of the filter's own process, or takes nothing that the filter promises (`FilterCache.InvalidateAgrees`); one
  store and one such invalidation break it (`FilterCache.StoreThenForeignInvalidate`).
- `src/barrier.h:137`: the assert on a returning thread's index fails for a thread that was passed over before it was
  ever woken, unless the index left in its memory happens to be the right one (`Barrier.IndexIsPlace`,
  `Barrier.LeaveBeforeTurn`). If that index is large instead, the thread misses its turn (`Barrier.LateReturn`), and
  then, against the note at `src/barrier.h:151`, its join can end a phase (`Barrier.Barrier.Join`).
- `src/utility_monitor.cpp:43-55`: the lists start out full of line 0, so a first access to line 0 counts as a hit while
  its set has an unused place (`Umon.HitIsReuseDistance`).
- `src/ddr_mem.h:94`: when a new ACT precedes all the others in the window, the loop stops only after it has
  overwritten the slot it compares with, and the window is no longer sorted (`ActWindow.SortedAfter`,
  `ActWindow.MayUnsort`). The purpose of the window survives: five ACTs never come within tFAW
  (`ActWindow.NeverTooMany`).
- `src/ddr_mem.cpp:568`: tRRD, "ACT to ACT", is tested within one bank only. A configuration keeps it within ranks
  exactly if it is 0 or no two banks share a rank (`DdrLimits.RrdExactly`), and a single ACT exactly if the last ACTs
  of the rank's other banks allow it (`DdrLimits.RrdGuard`).
- `src/ddr_mem.cpp:634-641`: a refresh waits for the banks' precharge and last command times only. That it also waits
  for the previous refresh is left to the interval: it does in all runs if and only if the interval covers tRFC and the
  longest wait for a bank (`DdrRefresh.IntervalExactly`), as the intervals of all four technologies do
  (`DdrRefresh.TablesKeepApart`).
- `src/ddr_mem.cpp:443-447`: when an overflowed request lowers the next try, the second test undoes the effect of
  findMinCmdCycle, so the controller wakes earlier than it needs to exactly if the request's bank is the later one to
  be ready (`DdrSteps.TryIsEarly`), as it does for two requests and a queue depth of one
  (`DdrRuns.OverflowTriesEarly`).
- `src/ddr_mem.cpp:319-341`: a new request that is not the first of its bank leaves the next try as it was, even if it
  makes the other queue the favoured one. Then a ready request of that queue waits for a try that was planned for the
  first queue (`DdrRuns.FavourComesLate`); otherwise the controller never sleeps past a cycle at which a try would serve
  something (`DdrRest.TryRests`, `DdrRest.QueuedRests`).
- `src/legos.h:137-145`: poisonRange also takes one cycle at or beyond the target
  (`Window.WindowStructure.PoisonRange`).
- The directory's `exclusive` flag goes stale when the last sharer leaves; the invariants are about isExclusive().

## Model

| member | source | states |
|---|---|---|
| Topology.SiblingsDisjoint | src/init.cpp:394-412 | The subtrees of two different children share no cache, so invalidations of one child never touch the other side of the tree. |
| Coherence.InvalClears | src/coherence_ctrls.cpp:162-186 | An INV empties the whole subtree under a cache, touches nothing else, and raises the writeback flag exactly if some cache there was in M; the data of the emptied cache is then the latest. |
| Coherence.InvalDowngrades | src/coherence_ctrls.cpp:162-186 | An INVX takes ownership from every cache of the subtree and keeps them valid and consistent; the flag tells whether dirty data came up. |
| Coherence.SendClears | src/coherence_ctrls.cpp:213-247 | After sendInvalidates with INV no child of the cache holds the line, at any depth, and the directory entry is empty. |
| Coherence.SendDowngrades | src/coherence_ctrls.cpp:213-247 | After sendInvalidates with INVX the one exclusive sharer has lost ownership and is still a sharer. |
| Coherence.StaleHasMBelow | src/coherence_ctrls.cpp:56-85 | If a cache of a consistent subtree holds data older than the last store, some cache strictly below it is in M. |
| Coherence.GrantSharedKeeps | src/coherence_ctrls.cpp:281-304 | Answering a GETS keeps every invariant of the whole tree: exact directories, inclusion, ownership only under owners, and no lost data. The child ends in E exactly if NOEXCL is not asked for, the parent owns the line and no other child holds it, else in S; no other cache gains or loses the line; the parent is dirty afterwards exactly if it or a cache below it was. |
| Coherence.GrantExclusiveKeeps | src/coherence_ctrls.cpp:305-326 | Answering a GETX keeps them too: no other child holds the line, the child holds the newest data in M, and the parent is dirty afterwards exactly if it or a cache below it was, and otherwise in the state it had. |
| Coherence.PutKeeps | src/coherence_ctrls.cpp:266-280 | Taking a PUTS or PUTX keeps the invariants; the parent is left with the newest data and in M after a PUTX, and in the state it had after a PUTS. |
| Coherence.VacateKeeps | src/coherence_ctrls.cpp:56-62 | Clearing everything below an evicted line keeps the invariants; the line is dirty afterwards exactly if it or a cache below it was, and otherwise in the state it had. |
| Protocol.MemGiveKeeps | src/mem_ctrls.cpp:31-45 | Memory's answer keeps the invariants: a GETX ends in M, a NOEXCL GETS in S, a plain GETS in E. |
| Protocol.FetchKeeps | src/coherence_ctrls.cpp:87-151 | A GET that climbs through any number of levels to the first cache that can answer, or to memory, keeps the invariants and ends with the rights it asked for. A GETS that hits changes nothing; one that misses ends in E exactly if NOEXCL is not asked for and, in the state afterwards, the parent owns the line and no other child holds it, else in S; and it takes the line from nobody. |
| Protocol.UpgradeKeeps | src/coherence_ctrls.cpp:131-144 | The silent change from E to M keeps the invariants. |
| Protocol.EvictKeeps | src/coherence_ctrls.h:340-345 | Evicting the line from any cache of the tree, with its whole subtree, keeps the invariants and ends in I; the parent is dirty afterwards exactly if it or a cache of the evicted subtree was, and memory is written, with the newest data, exactly if one was. |
| Protocol.SingleWriter | src/coherence_ctrls.cpp:213-332 | In a consistent state, a cache in E or M excludes every other holder that is not its ancestor or descendant. |
| Protocol.TerminalHoldsLatest | src/coherence_ctrls.cpp:113-126 | A terminal cache that holds the line holds what the last store of any core wrote. |
| Protocol.StoreKeeps | src/coherence_ctrls.cpp:127-145 | A store keeps the invariants and makes the storing cache the owner of the newest version. |
| RaceFilter.RaceFilterComplete | src/coherence_ctrls.h:247-274 | For any legal request and any finite run of legal invalidations of its sender, the filter never reaches its panic or asserts; it skips exactly the PUTs whose line is gone, and what passes is legal for the new state. |
| RaceSteps.NextKeeps | src/coherence_ctrls.h:306-325 | Every step of the interleaved machine (a request taken up, answered, an eviction begun or finished) keeps all invariants together with the bookkeeping of outstanding requests. |
| Runs.EveryRunIsCoherent | src/coherence_ctrls.cpp:213-332 | In every state that any interleaving of accesses and evictions reaches over any tree: single writer, exact directories, terminal caches hold the last store, and stale memory implies a cache in M. |
| Runs.EveryRunIsRaceFree | src/coherence_ctrls.h:247-274 | In every run the filter never panics where it is called, GETs pass unchanged, and every PUT ends with its line in I; what passes meets every precondition of the parent: a PUT comes from a sharer of a valid line, a PUTX from its exclusive owner, a GETS from no sharer, and an upgrade finds no exclusive sharer; and so does every grant that an answer sets off, one after the other, down the chain of waiting caches. |
| Runs.EveryRunCanProceed | src/coherence_ctrls.h:306-325 | Of one line's outstanding requests, the one sent from nearest the root can always be taken up next. |
| Progress.EveryRunDrains | src/coherence_ctrls.h:306-325 | From every state of every run the outstanding requests come to an end: while there is one, some step of one can be taken; no order of such steps is longer than the requests' distances from memory add up to; and when none can be taken, nobody waits. |
| Progress.AnyOrderEnds | src/coherence_ctrls.h:306-325 | However the steps of outstanding requests are ordered, n of them lower that measure by at least n, and all invariants hold after them. |
| Progress.AnswerArrives | src/coherence_ctrls.cpp:87-151 | In every run an answer runs down the chain of waiting caches to the core's own: it then holds the newest data, in M for a store, which has then been done once, in a valid state for a load, and in S for a NOEXCL one. |
| Locks.VisitHolds | src/coherence_ctrls.h:382-403 | An invalidation takes locks only in the global order, from the bottom lock it enters by downwards, and returns with what was held before. |
| Locks.VisitTouches | src/coherence_ctrls.h:382-403 | An invalidation uses the states of exactly the caches it visits, and the filters of the terminal ones, at points where by VisitHolds their locks are held. |
| Locks.ClimbHolds | src/coherence_ctrls.h:306-325 | A request that drops its child's lock, takes the parent's two, climbs on, invalidates, and takes the child's lock again keeps the order throughout and ends with the child's lock held. |
| Locks.ClimbTouches | src/coherence_ctrls.h:306-325 | A request uses exactly the caches it climbs to, evicts from and invalidates, at points where by ClimbHolds their locks are held. |
| Locks.TaskHolds | src/cache.cpp:61-141 | A whole access, with the eviction it needs, and a context switch start and end without locks and keep the order. |
| Locks.TaskTouches | src/cache.cpp:61-141 | An access uses the core's filter and those caches, and a context switch the filter. |
| Locks.StepKeeps | src/coherence_ctrls.h:306-325 | A step of any thread keeps every thread in order and every lock with one holder. |
| Locks.SomeoneCanStep | src/coherence_ctrls.h:306-325 | Among threads that keep the order, if one has work left then some thread can go on: one that wants no lock, the one that wants the lock of highest rank, or the holder of that lock. |
| Locks.NoDeadlock | src/coherence_ctrls.h:306-325 | Any number of threads with any accesses to any lines, over caches of any shape whose parents are one level up, never deadlock on the top, bottom and filter locks, however they are interleaved. |
| Locks.NoRace | src/coherence_ctrls.h:306-325 | In every interleaving of any threads' accesses, no two threads are ever about to use what one lock guards: a cache's line states and directory, or a filter. |
| Hierarchy.CacheTree.constructor | src/coherence_ctrls.cpp:201-211 | The empty tree satisfies the invariant. |
| Hierarchy.CacheTree.SendInvalidates | src/coherence_ctrls.cpp:213-247 | The loop over the children computes the specified result; sentInvs equals numSharers, and a downgrade finds an exclusive single sharer. |
| Hierarchy.CacheTree.Invalidate | src/coherence_ctrls.h:397-403 | The top controller, then the bottom one, with the asserts on its state: the specified invalidation. |
| Hierarchy.CacheTree.Access | src/coherence_ctrls.h:347-380 | The bottom controller, the top one, and the induced writeback: the specified grant or put, with all asserts proved. |
| Hierarchy.CacheTree.WritebackOnAccess | src/coherence_ctrls.cpp:153-160 | An induced writeback finds the cache in M or E and leaves it in M. |
| Hierarchy.CacheTree.BottomGet | src/coherence_ctrls.cpp:112-145 | A hit, a silent upgrade or a request upwards, ending in the asserted states. |
| Hierarchy.CacheTree.TopGetS | src/coherence_ctrls.cpp:281-304 | The GETS branch: the specified grant. The child ends in E exactly if NOEXCL is not asked for, this cache owns the line and no other child holds it, else in S, after an exclusive sharer has been downgraded. |
| Hierarchy.CacheTree.TopGetX | src/coherence_ctrls.cpp:305-326 | The GETX branch: an upgrading child is taken out first, all others are invalidated, numSharers ends as 1. |
| Hierarchy.CacheTree.TopPut | src/coherence_ctrls.cpp:266-280 | The PUT branches, with the assert that a PUTX comes from the exclusive sharer. |
| Hierarchy.CacheTree.EvictLine | src/coherence_ctrls.h:340-345 | The eviction sequence equals the specified one, with the asserts before and after it. |
| Hierarchy.CacheTree.Load | src/coherence_ctrls.cpp:113-126 | A load by any core at any time returns what the last store of any core wrote. |
| Hierarchy.CacheTree.StoreAt | src/coherence_ctrls.cpp:127-145 | A store by any core keeps the invariant and is the specified one. |
| ZCache.SkewedOk | src/cache_arrays.cpp:70-88 | One block of positions per way, one hash per way: positions of different ways never coincide. |
| ZCache.FirstParent | src/cache_arrays.cpp:136-161 | If a candidate is the first one for its line, so is the parent it was expanded from. |
| ZCache.ChainIsPath | src/cache_arrays.cpp:174-194 | The parent chain of the minimum-index candidate repeats no position, moves each line to another of its own positions, and has at most index/ways + 1 entries. |
| ZCache.WalkExtends | src/cache_arrays.cpp:136-161 | Expanding one candidate adds exactly ways - 1 others and keeps the walk a breadth-first one. |
| ZCache.RelocationKeeps | src/cache_arrays.cpp:202-217 | Moving the lines along such a chain keeps the table a permutation with every address at one of its own positions. |
| ZCache.ContentsAfterReplace | src/cache_arrays.cpp:202-217 | Replacing one line removes its address and adds the new one; every other line id stays. |
| ZCache.ZArray.constructor | src/cache_arrays.cpp:70-88 | The identity table is valid and empty. |
| ZCache.ZArray.Lookup | src/cache_arrays.cpp:98-116 | Finds a line exactly if some line holds the address. |
| ZCache.ZArray.Walk | src/cache_arrays.cpp:121-165 | The walk collects at least ways and at most cands candidates, in breadth-first order; it stops early only at an empty line, expands a candidate only while too few are collected and none is empty, and never runs out of candidates to expand. |
| ZCache.ZArray.FirstOf | src/cache_arrays.cpp:174-182 | The minimum index of the chosen line. |
| ZCache.ZArray.Preinsert | src/cache_arrays.cpp:118-200 | The line to replace is the policy's choice among the lines of the walk's candidates, as many as the walk has to collect; whichever it picks, the recorded chain makes room for the address, and fits swapArray. |
| ZCache.ZArray.FillSwapArray | src/cache_arrays.cpp:187-194 | Records the chain of positions from the candidate to its seed. |
| ZCache.ZArray.Postinsert | src/cache_arrays.cpp:202-217 | Keeps the table valid and changes the address of the freed line only. |
| ZCache.ZArray.MoveLines | src/cache_arrays.cpp:204-209 | Each position of the chain takes its successor's line, the last one the freed line. |
| ZCache.ZArray.Allocate | src/cache_arrays.cpp:98-217 | To its users the array is a map: a hit changes nothing; a miss removes wbLineAddr, adds the address, and keeps every other line id; the line replaced is the policy's choice among the candidates of the address's walk. |
| PrioQueue.SlotsDistinct | src/prio_queue.h:79-92 | Two cycles of the window share a slot only if they are equal. |
| PrioQueue.FarAhead | src/prio_queue.h:96-115 | Every far element is more than half a window ahead of the current block. |
| PrioQueue.FirstIsLeast | src/prio_queue.h:118-124 | The first populated slot of the first populated block is the least cycle in the queue, far elements included. |
| PrioQueue.PrioQueue.constructor | src/prio_queue.h:74-77 | The empty queue. |
| PrioQueue.PrioQueue.Enqueue | src/prio_queue.h:79-92 | Adds one pair of cycle and element to the multiset, near or far. |
| PrioQueue.PrioQueue.Migrate | src/prio_queue.h:98-115 | Moves exactly the far elements below the horizon in; the multiset stays and far ones are beyond the window again. |
| PrioQueue.PrioQueue.Dequeue | src/prio_queue.h:94-125 | Removes a pair of least cycle and reports that cycle; it terminates and skips nothing. |
| PrioQueue.PrioQueue.FirstCycle | src/prio_queue.h:131-150 | The least cycle in the queue, which is what the next Dequeue reports. |
| PrioQueue.PrioQueue.Size | src/prio_queue.h:127-129 | The number of elements, with multiplicity. |
| Weave.VisitCounts | src/timing_event.cpp:34-43 | Counting a parent off and taking the maximum cycle keeps numParents equal to the parents still to come and cycle to the latest (done + postDelay) so far. |
| Weave.LastParentDone | src/timing_event.cpp:38-42 | When the counter reaches zero all parents are done and the cycle plus preDelay is the longest-path time. |
| Weave.AllDone | src/contention_sim.cpp:306-328 | When the queue is empty every event of an acyclic graph is done, at its longest-path time. |
| Weave.FinishedTrace | src/contention_sim.cpp:306-328 | In a finished trace each event that is not a mere delay ran exactly once, and cycles never decrease. Each event's done cycle is its start plus its service time there; a root runs when it was queued; every other event starts, or as a delay is done, its preDelay after the latest of its parents' done cycles plus postDelays. |
| Weave.SpecTimed | src/timing_event.h:156-188 | The longest-path times of the events are times of that kind. |
| Weave.EventRecorder.AddChild | src/timing_event.h:106-138 | Adding a child to any event keeps every event's numParents equal to the number of edges that lead to it. |
| Weave.ContentionSim.constructor | src/timing_event.h:85-93 | Started from a recorded graph, with the parents that addChild counted, every event waits for all its parents. |
| Weave.ContentionSim.Queue | src/timing_event.cpp:45-49 | A root enters the queue at its cycle. |
| Weave.ContentionSim.ParentDone | src/timing_event.cpp:34-43 | A finished parent is noted by one child, which is queued, or done at once if it is a delay event; nothing else goes wrong, however deep the chain of delay events. |
| Weave.ContentionSim.Promote | src/timing_event.h:291-299 | After the last parent an event is queued at its longest-path time; a delay event is done preDelay later. |
| Weave.ContentionSim.Enqueue | src/contention_sim.cpp:196-210 | An event enters the queue no earlier than the domain's cycle and the last limit, with no parent to come. |
| Weave.ContentionSim.Done | src/timing_event.h:179-188 | A running event is done, at its time, and its children have been told. |
| Weave.ContentionSim.VisitChildren | src/timing_event.h:229-252 | Every child is visited once per edge. |
| Weave.ContentionSim.Run | src/timing_event.h:156-167 | A dequeued event runs at its time, once. |
| Weave.ContentionSim.Step | src/contention_sim.cpp:310-319 | The event dequeued has the least cycle, which is not before the domain's cycle. |
| Weave.ContentionSim.SimulatePhase | src/contention_sim.cpp:306-328 | A phase runs events in cycle order and leaves none below the limit, whatever the order among equal cycles. |
| Weave.ContentionSim.SimulateAll | src/contention_sim.cpp:306-328 | Phases up to a limit beyond every event run the whole graph: each event that is no delay ran exactly once, in cycle order, done its service time after its start; a root ran when it was queued, and every other event started, or as a delay was done, its preDelay after the latest of its parents' done cycles plus postDelays. |
| ChildBlocks.ExtendedOk | src/timing_event.h:120-128 | Adding a child to the blocks puts it in the first block, or in a new one exactly when that is full, and loses none. |
| ChildBlocks.AfterHasAll | src/timing_event.h:106-138 | The children visited are those added, each as often as it was added. |
| ChildBlocks.TimingEvent.AddChild | src/timing_event.h:106-138 | The one-child, two-children and many-children cases all add exactly one child. |
| ChildBlocks.TimingEvent.VisitChildren | src/timing_event.h:229-250 | Visits each child once; the number of visits is numChildren. |
| Window.SomePort | src/legos.h:208-222 | The port taken is the lowest free one of the mask. |
| Window.OneGiven | src/legos.h:208-222 | A reservation by an instruction gives one port of the mask, the lowest that was free, in one cycle, and counts one instruction more there; it changes no other cycle, and every (cycle, port) pair is still given at most once. |
| Window.AllGiven | src/legos.h:208-222 | A shadow reservation gives exactly the ports of the mask that were free in that cycle; it changes nothing else. |
| Window.SumOfPut | src/legos.h:74-90 | Changing one cycle's entry changes the occupancy by the difference of its counts. |
| Window.UbSetGet | src/legos.h:177-202 | An insertion or update in the ordered map changes the entry of that cycle only. |
| Window.WindowStructure.constructor | src/legos.h:66-71 | An empty structure refines the empty table. |
| Window.WindowStructure.AdvancePos | src/legos.h:92-116 | Moving on one cycle, with or without a rebase, leaves the table of all later cycles as it is. |
| Window.WindowStructure.Rebase | src/legos.h:98-115 | Swapping the windows and moving the map's nearest cycles in changes no entry. |
| Window.WindowStructure.ScheduleInternal | src/legos.h:148-205 | Over all three tiers: the reservation is at the earliest cycle at or after the request with a port of the mask that is free, takes the lowest one, or for a shadow request all, and changes nothing else. Over any run of calls no port is given twice in a cycle, and those taken in a cycle are those given there. Time moves only past full windows. |
| Window.WindowStructure.Drain | src/legos.h:150-153 | The drain of a full window ends, with room, and every cycle it passed had a full window. |
| Window.WindowStructure.Schedule | src/legos.h:74-90 | The same for an instruction, plus one further reservation of its port per extra slot, at the next cycles where that port is free, each given once; occupancy stays within the window size and counts the instruction once. |
| Window.WindowStructure.PoisonRange | src/legos.h:137-145 | Every cycle of the range loses all ports of the mask, and so does the first free cycle from the target on. |
| Window.WindowStructure.FindFar | src/legos.h:177-200 | The search in the ordered map ends at the first free cycle. |
| Barrier.CountChange | src/barrier.h:85-87 | A state change moves one thread from one count to another. |
| Barrier.ListIsMembership | src/barrier.h:84-87 | The run list holds exactly the threads that are not OFFLINE, each once. |
| Barrier.AllLeft | src/barrier.h:203-206 | leftThreads equals the list's size exactly when every listed thread has left. |
| Barrier.SwapOk | src/barrier.h:140-143 | Trading two entries on the same side of curThreadIdx keeps the tables consistent. |
| Barrier.IndexIsPlace | src/barrier.h:137-137 | A listed thread is at its last index in the run list if and only if it has been given an index since it joined, by a wake-up, a shuffle, a cleanup or another's return, or the index it had from before equals the length the list had when it joined. |
| Barrier.LeaveBeforeTurn | src/barrier.h:124-163 | From a new barrier with room for one thread: 0 joins, 1 joins, 1 leaves, and 1 joins again. The assert on its index fails if and only if its lastIdx, which nothing has set, happens to be 0. |
| Barrier.LateReturn | src/barrier.h:124-163 | From a new barrier with room for one thread: 0, 1 and 2 join, 1 leaves, 0 syncs, 1 joins again. If its unset lastIdx happens to be 3 or more the assert passes and 1 waits behind curThreadIdx without having run, while the phase will end when the one running thread syncs. |
| Barrier.Barrier.constructor | src/barrier.h:105-119 | Everyone OFFLINE, whatever the last indices happen to be: consistent. |
| Barrier.Barrier.CheckRunList | src/barrier.h:256-273 | Wakes waiting threads in list order until parallelThreads run or the list ends; never more run than that. |
| Barrier.Barrier.CheckEndPhase | src/barrier.h:201-254 | A phase ends exactly when nobody runs, somebody waits and no waiting thread has a turn to come: each has run or has missed its turn by returning late; waiting threads stay waiting. The next phase's list is the old one, in one phase of 32 without the threads that left, shuffled exactly if its threads cannot all run at once. |
| Barrier.Barrier.Cleanup | src/barrier.h:216-235 | Takes exactly the threads that left off the list, which shrinks by leftThreads; each other thread keeps its place unless that is cut off. |
| Barrier.Barrier.Shuffle | src/barrier.h:241-251 | Any sequence of draws gives the Fisher-Yates shuffle and keeps every thread's index right. |
| Barrier.ShuffleIsFair | src/barrier.h:241-251 | Every order of the list is the outcome of the draws, and of exactly one sequence of them, so uniform draws give every order the same chance. |
| Barrier.ShufflePermutes | src/barrier.h:241-251 | The shuffle loses and repeats no thread. |
| Barrier.Barrier.TryWakeNext | src/barrier.h:275-279 | Ends the phase exactly when it is due, and then orders the next one as CheckEndPhase says; leaves some thread running unless none waits; the threads that have run grow by exactly those it wakes, from none at all if the phase ends. |
| Barrier.Barrier.Join | src/barrier.h:124-163 | For every thread that is OFFLINE or LEFT: the assert on its index fails exactly as IndexIsPlace says, and then nothing changes. Otherwise the thread runs, or waits at or beyond curThreadIdx without having run in this phase, so its turn is still to come, and no phase ends; only a thread that was passed over and has a larger index from before misses its turn, and only then can a phase end, if nobody runs or has a turn to come. |
| Barrier.Barrier.Rejoin | src/barrier.h:130-146 | A thread that comes back after its last index was passed trades places with the one before curThreadIdx, which steps back, so that its turn is next; one whose last index is to come keeps its place; the assert holds exactly as IndexIsPlace says. |
| Barrier.Barrier.Leave | src/barrier.h:166-178 | A running or waiting thread becomes LEFT; the phase ends exactly if it was the last to run while others wait and none has a turn to come; those that have run grow only by the threads woken. |
| Barrier.Barrier.Sync | src/barrier.h:181-198 | The phase ends exactly if the thread was the only one running and no waiting thread had a turn to come, and the next one has its new order; otherwise those that have run grow only by the threads woken; somebody runs afterwards. |
| Umon.TouchPrefix | src/utility_monitor.cpp:83-114 | The first k lines of the list change as a k-way LRU list would. |
| Umon.StackInclusion | src/utility_monitor.cpp:68-143 | Over every run of accesses and intervals, each k-way cache fed the same accesses holds the first k lines of every set, and misses once for each miss or hit at position k or beyond. |
| Umon.AllCounted | src/utility_monitor.cpp:116-122 | Hits and misses add up to the sampled accesses of the interval. |
| Umon.MissCurve | src/utility_monitor.cpp:124-135 | Entry 0 counts every sampled access, entry k is the k-way cache's misses, and the curve never rises. |
| Umon.HoldsRecent | src/utility_monitor.cpp:83-114 | After any run each set holds its most recently accessed lines in order, and zeros where there are none yet. |
| Umon.HitIsReuseDistance | src/utility_monitor.cpp:83-102 | After any run an access hits at the number of distinct lines of its set accessed since the last access to it, if that is within the ways, and misses otherwise; a first access misses, but one to line 0 hits behind all lines accessed so far while a place is unused. |
| Umon.UMon.constructor | src/utility_monitor.cpp:32-60 | The linked lists of every set stand for empty LRU lists, and the sampling and set masks select by powers of two: the largest ones within the sampling factor and the number of sets. |
| Umon.UMon.Search | src/utility_monitor.cpp:83-98 | The walk finds the first position of the line, its node and the one before it. |
| Umon.ToFront | src/utility_monitor.cpp:99-113 | Relinking one node makes its line the most recent and keeps the list a single chain. |
| Umon.UMon.Access | src/utility_monitor.cpp:68-114 | An access that is not sampled changes nothing; a sampled one makes the monitor the LRU cache that was given this access as well, in the set its hash selects. |
| Umon.UMon.GetMisses | src/utility_monitor.cpp:124-135 | Entry 0 is the number of sampled accesses of the interval, entry k the misses of a k-way cache given everything the monitor was given, and the curve never rises. |
| Umon.UMon.GetNumAccesses | src/utility_monitor.cpp:116-122 | The number of sampled accesses since the interval began. |
| Umon.UMon.StartNextInterval | src/utility_monitor.cpp:138-143 | The counters start over, and the lists stay. |
| FilterCache.LoweredHas | src/filter_cache.h:164-175 | An invalidation takes the rights of the line it names and of no other. |
| FilterCache.InvalidateAgrees | src/filter_cache.h:164-175 | An invalidation keeps the filter right if and only if it is seen by a thread of the filter's own process or takes nothing that the filter promises. |
| FilterCache.StoreThenForeignInvalidate | src/filter_cache.h:168-168 | From a new cache, one store and an invalidation of its line by a thread of any other process leave a filter that still takes stores to the line that the L1 has lost. |
| FilterCache.ReplacedAgrees | src/filter_cache.h:151-154 | After replace the entry promises what the L1 now holds, whatever was evicted from the set. |
| FilterCache.RememberedNext | src/filter_cache.h:141-181 | What each access, invalidation and context switch does to the answer for an address: those that decide it set it, the others leave it. |
| FilterCache.FilterCache.constructor | src/filter_cache.h:65-77 | An empty filter over an empty L1. |
| FilterCache.FilterCache.Load | src/filter_cache.h:109-122 | A load is filtered exactly if the last access that went to the L1 in its set was to its address, and since then neither its line was invalidated by a thread whose process mask makes the address that line, nor a context switch came; the L1 then holds the line in a state other than I. |
| FilterCache.FilterCache.Store | src/filter_cache.h:124-139 | A store is filtered exactly if, in the same sense, the last such access was a store to its address; the L1 then holds the line in M. |
| FilterCache.FilterCache.Lookup | src/cache_arrays.cpp:39-49 | Finds a way that holds the line, or none does. |
| FilterCache.FilterCache.BeginAccess | src/cache.cpp:61-80 | Lookup, eviction and insertion change only the set whose filter entry is about to be overwritten. |
| FilterCache.FilterCache.EndAccess | src/filter_cache.h:141-162 | The L1 state that the access ends in, which gives the rights it asked for, and the filter entry that matches it: it is the access that later loads and stores of the set are compared with. |
| FilterCache.FilterCache.Invalidate | src/filter_cache.h:164-175 | The line is taken from the L1 and, for a caller of the filter's process, from the filter; nothing else changes; the filter stays right if and only if the invalidation is harmless in the sense above. |
| FilterCache.FilterCache.ContextSwitch | src/filter_cache.h:177-181 | The filter is empty afterwards and so agrees for any process. |
| ActWindow.SortedAfter | src/ddr_mem.h:84-99 | The window stays sorted if and only if the new ACT does not precede all the others it stays with. |
| ActWindow.MayUnsort | src/ddr_mem.h:84-99 | n ACTs in order, and then one that only the oldest of them precedes, are a legal run after which the window is not sorted. |
| ActWindow.FourThenEarlier | src/ddr_mem.h:84-99 | For n = 4, the ACTs 10, 50, 51, 52 and then 20 are such a run. |
| ActWindow.FrontIsLatest | src/ddr_mem.h:92-94 | If it does, the latest entry ends up at the front. |
| ActWindow.NeverTooMany | src/ddr_mem.h:84-99 | In every run, in whatever order ACTs are recorded, some two of any n + 1 are at least faw apart. |
| ActWindow.HoldsLatest | src/ddr_mem.h:84-99 | While no new ACT precedes all the others, the window is sorted and holds the n latest ACTs. |
| ActWindow.ActWindow.constructor | src/ddr_mem.h:74-78 | A window of zeros. |
| ActWindow.ActWindow.MinActCycle | src/ddr_mem.h:80-82 | The cycle at the front. |
| ActWindow.ActWindow.MakeRoom | src/ddr_mem.h:90-96 | The loop moves exactly the later entries one slot up, and runs into its own writes only when every entry is later. |
| ActWindow.ActWindow.AddActivation | src/ddr_mem.h:84-99 | The circular buffer holds the specified window, in all cases. |
| DdrQueue.InsertOrdered | src/ddr_mem.cpp:382-415 | Every request starts a run of row hits or continues its predecessor's with the next number; none exceeds the limit. |
| DdrQueue.JoinsLastOfRow | src/ddr_mem.cpp:384-399 | A request goes right behind the last one of its row, as its next hit, exactly if that one is below the limit; otherwise it goes last and starts a run. |
| DdrQueue.NoneOfRow | src/ddr_mem.cpp:401-419 | A request that finds none of its row goes last; it counts as a row hit exactly if the bank's queue is empty and its row is open with hits below the limit. |
| DdrQueue.BypassIsRowHit | src/ddr_mem.cpp:382-415 | A request is put ahead of others only right behind the last request of its row, as a row hit within the limit. |
| DdrQueue.SlackTaken | src/ddr_mem.cpp:382-415 | Each overtaking arrival uses up one hit of the slack ahead of every request it overtakes. |
| DdrQueue.BypassIsBounded | src/ddr_mem.cpp:367-415 | Over any run of arrivals and services, the arrivals that overtake a queued request number at most the unused hits of the row runs ahead of it. |
| DdrQueue.Add | src/ddr_mem.cpp:382-415 | The search from the back puts the request in the specified place. |
| DdrTiming.LaterThanLast | src/ddr_mem.cpp:597-597 | A command is later than the bank's last one. |
| DdrTiming.IssueKeeps | src/ddr_mem.cpp:547-599 | Serving a ready request keeps the controller's bounds above every command issued, the open rows as the device has them, and each rank's activation window legal. |
| DdrTiming.RefreshKeeps | src/ddr_mem.cpp:634-653 | A refresh starts after the bank of every earlier command of a request has recovered, and keeps the bounds; how it waits for earlier refreshes is the subject of DdrLimits. |
| DdrTiming.EveryTraceIsSafe | src/ddr_mem.cpp:491-656 | Every run of requests and refreshes gives a trace in which bursts do not overlap, reads wait tWTR after writes, ACTs of a bank are tRAS + tRP apart, RD and WR come tRCD after the ACT of their own row, precharges wait for recovery, and no request's command comes before a refresh completes. |
| DdrTiming.SafePairs | src/ddr_mem.cpp:491-656 | In a safe trace every two commands, not only neighbours, keep their distance. |
| DdrTiming.SafeRows | src/ddr_mem.cpp:555-577 | Every RD or WR finds its own row open on the replayed device. |
| DdrTiming.FiveActsSpan | src/ddr_mem.cpp:568-576 | No rank has five ACTs in less than tFAW, even when they are recorded out of order. |
| DdrPrompt.NoNeedlessWait | src/ddr_mem.cpp:470-656 | The partner of EveryTraceIsSafe: in every run, whatever comes next, an ACT is at its request's arrival, or tRP later if a row is open, or one cycle earlier would break a rule against a command issued before, or it is held by power-on; a RD or WR is at the cycle it is tried, or one cycle earlier would break a rule; so is a refresh. |
| DdrPrompt.ReadyIsPrompt | src/ddr_mem.cpp:470-489 | A request is ready when it arrives, or right after its bank's last RD or WR, or tRCD after its ACT. |
| DdrPrompt.ServeTight | src/ddr_mem.cpp:547-599 | Each of the controller's bounds stays that of some command issued before, or the one from power-on. |
| DdrLimits.NextRefresh | src/ddr_mem.cpp:634-641 | In every run, a refresh waits for all earlier ones if and only if some request has been served since the last one, or that one is done when it is asked for, or tRP is 0. |
| DdrLimits.RefreshesApartExactly | src/ddr_mem.cpp:634-656 | No refresh of a run starts before an earlier one is done if and only if every refresh was asked for in that way. |
| DdrLimits.OverlapIsSmall | src/ddr_mem.cpp:634-641 | Whenever it is asked for, a refresh starts at most tRP before an earlier one is done. |
| DdrRefresh.IntervalExactly | src/ddr_mem.cpp:634-656 | In all runs that the controller makes, refreshes asked for at least gap cycles apart never overlap, if and only if gap covers tRFC and the longest time that a request served at some cycle can keep its bank from being refreshed. |
| DdrRefresh.RareEnough | src/ddr_mem.cpp:634-656 | With such a gap, every refresh is done when the next is asked for. |
| DdrRefresh.Overlap | src/ddr_mem.cpp:634-641 | With a shorter gap, a refresh that comes right after the request that keeps its bank longest overlaps the next one. |
| DdrRefresh.EventEvery | src/ddr_mem.cpp:60-89 | The refresh event, which requeues itself memToSysCycle(tREFI) system cycles later, asks for refreshes at least tREFI memory cycles apart. |
| DdrRefresh.TablesKeepApart | src/ddr_mem.cpp:667-732 | With the parameters and the interval of each of the four technologies, and lines of up to 32KB, no two refreshes of a run overlap. |
| DdrLimits.RrdExactly | src/ddr_mem.cpp:568-568 | A configuration keeps all ACTs of a rank tRRD apart in every run that the controller makes if and only if tRRD is 0 or no two banks share a rank. |
| DdrLimits.ApartByBank | src/ddr_mem.cpp:568-568 | If tRRD is 0 or no two banks share a rank, every run at all keeps it. |
| DdrLimits.RrdGuard | src/ddr_mem.cpp:568-568 | In every run, a request's ACT is tRRD after every earlier one of its rank if and only if it is tRRD after the last ACT of each other bank of the rank. |
| DdrLimits.TwoAtOnce | src/ddr_mem.cpp:568-568 | For any two banks of one rank, a run that activates both in the same cycle, with the second request served as soon as the data bus allows. |
| DdrClock.RoundTrip | src/ddr_mem.h:275-283 | Translating a memory cycle to its matching system cycle and back gives the same memory cycle. |
| DdrClock.SysToMemIs | src/ddr_mem.h:275-275 | A system cycle translates to the memory cycle in whose real time it starts. |
| DdrClock.MemToSysIs | src/ddr_mem.h:276-276 | A memory cycle translates to the last system cycle that starts by the end of the memory cycle after it. |
| DdrClock.SysToMemMonotone | src/ddr_mem.h:275-275 | The translation is monotone. |
| DdrClock.ExactWakeUp | src/ddr_mem.cpp:456-460 | An event queued for the matching cycle, or for now if that has passed, arrives at exactly the memory cycle planned, and never at system cycle 0. |
| DdrClock.RespondsLater | src/ddr_mem.cpp:606-607 | A response is never before the system cycle at which its command was issued. |
| DdrLanes.FrontIsQueued | src/ddr_mem.cpp:511-528 | A bank with a queued request has a first request, and that one is in the queue. |
| DdrLanes.AddSplit | src/ddr_mem.cpp:345-415 | Queueing keeps the bank lists a partition of the queue, each in first-ready order. |
| DdrLanes.ServeSplit | src/ddr_mem.cpp:626-629 | Serving a bank's first request keeps them a partition. |
| DdrLanes.FindReady | src/ddr_mem.cpp:509-529 | Finds the oldest request that is first in its bank and ready; if none is, the earliest cycle at which one will be. |
| DdrLanes.Activate | src/ddr_mem.cpp:557-577 | The ACT's cycle and its effect on the bank and the rank's window; the window's assert holds. |
| DdrLanes.IssueCommands | src/ddr_mem.cpp:547-599 | The step-by-step computation gives the specified commands and bounds; the assert on lastCmdCycle holds. |
| DdrLanes.ServeLane | src/ddr_mem.cpp:505-631 | The oldest ready request is issued and removed, or nothing changes because none is ready. If the next request of its bank is a row hit, the row stays open and is that request's row; otherwise it is closed exactly under the closed-page policy. |
| DdrSteps.QueuedJoins | src/ddr_mem.cpp:345-369 | Only deferred writes join the write queue, all others the read queue, as arriving now and at the end; the request is in its own bank's list, and no other list changes. |
| DdrSteps.WritesGoInBursts | src/ddr_mem.cpp:509-511 | Writes are favoured exactly if no read waits, or they fill more than three quarters of the queue, or more than one quarter after a write; so once started they go on until a quarter is left, and reads until writes fill three quarters. |
| DdrSteps.TriedSound | src/ddr_mem.cpp:601-630 | Serving a request keeps every request that arrived known once: answered, overflowed, or a read that waits. |
| DdrSteps.QueuedSound | src/ddr_mem.cpp:345-356 | So does queueing one. |
| DdrRest.TryRests | src/ddr_mem.cpp:491-632 | After a try, a try at any cycle before the next planned one would serve nothing. |
| DdrRest.QueuedRests | src/ddr_mem.cpp:319-341 | The same still holds after a request has come in, as long as that leaves the same queue favoured. |
| DdrRest.RefreshRests | src/ddr_mem.cpp:634-653 | And after a refresh. |
| DdrSteps.TryIsEarly | src/ddr_mem.cpp:432-448 | The try planned for an overflowed request is never later than one that waits for its command cycle, and earlier if and only if the request is first in its bank, the planned try is later than what the data bus allows, and the command cycle is later than that. |
| DdrRuns.OverflowTriesEarly | src/ddr_mem.cpp:296-343 | From a new controller with room for one request: a request comes in, one for another bank overflows, and the scheduling event arrives. The first is served, the second is taken in, and the next try is planned for that very cycle, tRCD or more before the second one's command. |
| DdrRuns.FavourComesLate | src/ddr_mem.cpp:296-343 | From a new controller with room for two: a read is served, a second one waits for its bank, a write comes in for another rank, and the event arrives: reads are favoured and none is ready. A second write for the first one's bank then makes writes favoured, and the first one is ready, but the next try stays as planned for the read. |
| DdrSteps.PlanOverflow | src/ddr_mem.cpp:439-448 | The exact next try: what the data bus allows if the request is first in its bank and that is earlier than planned, and the planned one otherwise. |
| DdrController.DDRMemory.constructor | src/ddr_mem.cpp:154-222 | Powered on, with nothing queued and no event. |
| DdrController.DDRMemory.TrySchedule | src/ddr_mem.cpp:491-632 | Nothing is served if nothing waits or the data bus is taken too far ahead; otherwise the lane favoured by the fill of the queues, writes or reads, serves its oldest ready request, if it has one. The last command is then that request's, its row is left open or closed as ServeLane says, and a read is answered so that with its event's own latency the answer comes when the burst ends. The next try is never planned if nothing is queued, else when the data bus takes the next burst, or if none was ready when the first one will be. |
| DdrController.DDRMemory.Respond | src/ddr_mem.cpp:601-617 | A served read is answered once, with the system cycle of its burst's end less the latency that its event adds; a write has been answered before. |
| DdrController.DDRMemory.DoRefresh | src/ddr_mem.cpp:634-656 | The loop over the banks gives the specified refresh; no request becomes ready sooner. |
| DdrController.DDRMemory.QueueRequest | src/ddr_mem.cpp:345-415 | The request joins its own queue and bank list, in its place there, and a write is answered at once; it is first only in an empty list. |
| DdrController.DDRMemory.Enqueue | src/ddr_mem.cpp:296-343 | The request overflows exactly if a queue is full, and is queued otherwise; the next try moves to the cycle of a request that is first in its bank exactly if that is earlier; afterwards an event is live, and unless another queue is favoured now, no try before the next would serve anything. |
| DdrController.DDRMemory.Reschedule | src/ddr_mem.cpp:326-340 | The old event is annulled; one other, idle until then or new, is queued for the planned memory cycle; no other event changes. |
| DdrController.DDRMemory.Tick | src/ddr_mem.cpp:426-461 | It arrives at the planned memory cycle, tries to serve one request, then takes in at most one overflowed request; timing, queues, responses and the next try are exactly what these two steps give, and a next try is planned whenever anything waits. |
| DdrController.DDRMemory.TakeOverflow | src/ddr_mem.cpp:432-448 | The oldest overflowed request joins its queue as a new arrival would, and the next try is the one PlanOverflow specifies, never before now. |
| DdrController.DDRMemory.Simulate | src/ddr_mem.cpp:111-132 | Only the live event ticks, always at the planned memory cycle, with the next try planned so that none before it would serve anything, unless a request let in changes which queue is favoured; an annulled one is recycled and changes nothing else. |
| DdrController.DDRMemory.OneLiveEvent | src/ddr_mem.cpp:322-341 | While a request is queued or overflowed, exactly one event is queued live, and it arrives at the planned memory cycle. |
| DdrController.DDRMemory.IdleHasAnswered | src/ddr_mem.cpp:601-630 | When nothing waits, every request that came in has been answered, as often as it came. |
| DdrController.DDRMemory.AnsweredOnce | src/ddr_mem.cpp:601-630 | A request that came once is never answered twice, and has been answered exactly if it neither overflows nor is a read that waits. |

## Left out

- Latencies, network delays, profiling counters, and 64-bit overflow of cycle counts.
- Locks.NoRace: a filtered load or store reads its entry without the filter's lock, as in the source, and is no part
  of this result.
- Locks.NoDeadlock: is about which locks are wanted and held, not about how a spinning thread gets one, nor about the
  locks of other components (scheduler, weave, statistics); in Races a stretch between lock releases is one step.
- In coherence: nonInclusiveHack, PREFETCH side requests, FWD and PUTX_KEEPEXCL. NOEXCL is modelled.
- Runs.EveryRunIsCoherent: an invalidation runs down its whole subtree as one step, because the sender holds the
  locks on the way; a response runs down its chain of waiting caches as one step for the same reason.
- Hierarchy.CacheTree.Access: the class runs one operation at a time; interleavings are the subject of Races and Runs.
- Directory bit sets are sets of child numbers, lock words and futexes are not modelled, and several banks of one
  level appear as one cache, since a line maps to one of them.
- ZCache.ZArray.Lookup: the panic on address 0 is a precondition of Allocate and Postinsert; the replacement policy
  is any function that picks one of the offered candidates.
- PrioQueue.PrioQueue.Enqueue: the slot lists are sequences with the newest element first, and the occupancy word
  a sequence of bits.
- Weave.ContentionSim.Run: events call done once, after a service time that may depend on the start cycle; events
  held and released by other models, crossings between domains and the multi-domain loop are not part of the model.
- Weave.ContentionSim.Enqueue: the assert that an event is not too far ahead of the last limit is not modelled.
- ChildBlocks.TimingEvent.AddChild: the null-terminated arrays of a block are sequences of at most three children; the
  child's count of parents is in Weave.EventRecorder, and the propagation of domains to children is not modelled.
- Window.WindowStructure.Schedule: port masks are sets of bit numbers; longAdvance and its jump are not modelled.
- Barrier.Barrier.Leave: the callback at the end of a phase and the sleeping and waking of threads are states only.
- Umon.UMon.Access: the two hash functions are parameters.
- FilterCache.FilterCache.BeginAccess: the victim way is any way of the set. The process mask and the address are a
  pair, as the mask uses bits that addresses do not; availCycle and hit counters are not modelled. Line addresses 0
  and -1 mark empty entries and are not accessed.
- DdrController.DDRMemory.Enqueue: the address mapping is done by the caller; the bound phase's zero-load latencies
  and statistics are not modelled. Banks are numbered across ranks, intrusive lists are sequences, and events are
  numbers; a response is a request and the system cycle at which its event is done.
- DdrTiming.EveryTraceIsSafe: precharges are implied by the next ACT, as in the source, so they are not commands of
  their own; tRRD between the banks of a rank and a refresh's wait for the one before are the subject of DdrLimits
  and DdrRefresh.
- The clock periods of the DRAM technologies, other memory models, cores, decoders, branch predictors, reorder buffers,
  the scheduler, replacement-policy heuristics, the lookahead partitioner, hash functions, configuration and I/O.
