# A verified model of SABO's balancing decision

SABO gives the cores of a node to the MPI processes on it, again and again, in proportion to the OpenMP time that each
process has used. Every rank runs the same decision on the same data and then binds its own threads; nobody hands out the
result. The decision is therefore only right if it always comes to an end, if it is the same on every rank, and if the core
ranges that the ranks compute apart from each other fit together. This project models that decision and the shared-memory
exchange in front of it, and proves these properties.

| file | part of the program |
|---|---|
| `Sums`, `Placement`, `Sorting` | placements of processes on sockets, their loads and their cost; the order by thread count |
| `Search` | the branch-and-cut recursion as a function, its cut, its optimality, its independence from history |
| `TreeNodes`, `DecisionTree` | the same recursion over heap nodes, with the free-node pool and its intrusive list |
| `CallerOrder` | from the sorted order of the search back to the ranks |
| `Feasibility` | when the search succeeds and when it is optimal, told from the thread counts |
| `Migration` | how many processes a placement moves |
| `Apportion`, `Distribution` | largest-remainder division per window step and over the window's averages |
| `SocketCap` | exactly when a step serves everybody within a socket |
| `DispatchOrder` | exactly which counts a step and the averages end with, in which order cores are given |
| `Adjust`, `Dispatch` | the thread adjustment of a socket, the lists of each socket, core ranges |
| `Processes`, `CoreCounters`, `CoreSockets` | the loops of `core/sabo.c` over the process and socket records |
| `Schedule` | which calls of a run rebalance |
| `Window`, `Core` | the ring of measurements over any number of calls, and its move into the shared array |
| `Pipeline`, `Rebalance` | the composition, on values and over the records |
| `Barrier` | the generation barrier and the allgather as interleaved atomic steps |
| `Agreement` | the barrier and the pipeline together: ranges that ranks compute independently never collide |
| `SlurmParser` | the parser of run-length task lists such as `2(x3),4` |
| `Limits` | inputs on which the code does less than its comments say |

How it fits together. The functions of `Search`, `Apportion`, `Adjust` and `Window` say what a piece computes; the methods of
`DecisionTree`, `CoreCounters`, `CoreSockets` and `Core` have the source's loops and fields and return what those functions
say; the theorems are about the functions and hold of the methods through their contracts. `Rebalance.OmpBalanced` is the
balancing call as a whole.

The end-to-end results hold whenever the call comes to an end at all (`Pipeline.Workable`: the search finds a placement and the
adjustment loops end on every socket). When that is can be told beforehand, piece by piece: `Feasibility.PlacedExactly` for the
search, and `Dispatch.AllLoopsEndExactly` with `Dispatch.AllAdjustableExactly` for the loops. `Pipeline.ServableWorks` shows it
for every window whose averages can serve everybody, which by `Distribution.DistributionIsFull` is exactly when the new thread
counts use the cores up and fit the sockets; there the placement is optimal, too. It is enough that the shares of every step can
be served (`Pipeline.ServableSteps`), and for that, in terms of the measured times, that no share is above a socket and the
near-idle processes fit (`Pipeline.ModestNodeWorks`). Near-idle processes, with shares below one thread, are included: what
matters is that they are no more than the cores that rounding down leaves over (`SocketCap.ServedExactly`).

Four comments in the source promise more than the code does. For each there is an input and the exact condition:

- `core/sabo.c:509`, allocated cores are at most the total: if and only if the near-idle processes are no more than the cores
  that rounding down leaves over (`Apportion.ConservationExactly`; `Limits.IdleProcessesExceedTotal` and, through the window's
  averages up to the fatal error, `Limits.IdleProcessesEndInError`, or into an
  endless loop, `Limits.IdleProcessesLoopForEver`).
- `core/sabo.c:445`, a process stays within a socket: the cap tests the floor of the share only. It holds if and only if the
  leftover cores are no more than the places and run out before they reach a process whose share is a little above a socket
  (`SocketCap.CapExactly`, `Limits.ShareAboveSocketExceedsCap`).
- `core/sabo.c:825`, thread counts are adapted to match the cores of a socket: the loops move in whole rounds;
  `Adjust.TotalAfterAdjustment` says how far a socket ends above its cores and exactly when it matches
  (`Limits.AdjustmentCanStayAbove`).
- `common/decision_tree.c:322`, fewest thread migration: accepting a leaf overwrites the counter that later leaves are compared
  through, so the previous sockets are never used (`Search.HistoryIndependence`), and the result has the fewest moves whatever
  they were if and only if there is one socket (`Migration.FewestMovesExactly`, `Migration.MovesWithoutNeed`).

Arithmetic on times is exact. Thread counts are ints; `INT_MIN` is a separate value `UNSET`, and sums of threads below 2^31 keep
every set norme apart from it. The counters of the barrier are 32-bit words that wrap.

## Model

| member | source | states |
|---|---|---|
| Search.GlobalOptimality | common/decision_tree.c:278-363 | When the threads fill the cores, the search has a best leaf and no placement of the processes on the sockets, reachable by the search or not, is less oversubscribed |
| Search.AllMatched | common/decision_tree.c:289-363 | When the threads fill the cores, the root's min is never below minus the oversubscription of any placement, including those whose construction the search skips |
| Search.NoneMissed | common/decision_tree.c:315-341 | Although a last-level node keeps its first acceptable leaf, every admissible placement that fills a socket and has its last process on socket 0 is matched |
| Search.CutSoundness | common/decision_tree.c:298-302 | The search with the bound test and the one without it end with the same min, changes and placement |
| Search.HistoryIndependence | common/decision_tree.c:322-341 | Searches that differ in all previous sockets return the same placement |
| Search.SuccessExactly | common/decision_tree.c:392-402 | The fatal error is avoided if and only if there is one process or some admissible placement fills a socket, for any demand |
| Search.OptimalExactly | common/decision_tree.c:253-302 | For two or more processes in any order, a search that succeeds is optimal if and only if some optimal placement fills a socket and adds to no overfull one |
| Feasibility.SuccessWhenFitting | common/decision_tree.c:289-402 | With no more threads than cores and two or more processes, the fatal error is avoided if and only if the threads would fill one socket |
| Feasibility.SuccessSorted | common/decision_tree.c:161-402 | For any sorted demand the search succeeds if and only if there is one process, or the threads would fill a socket and all but the S largest processes can be packed into the cores |
| Feasibility.CrowdedIsOptimal | common/decision_tree.c:278-363 | With no fewer threads than cores a sorted search that succeeds is optimal, also when near-idle processes make more threads than cores |
| Feasibility.OptimalSorted | common/decision_tree.c:253-302 | For any sorted demand a search that succeeds is optimal if and only if there is one process or some optimal placement fills a socket |
| Feasibility.Rearrange | common/decision_tree.c:289-290 | Any placement that the search can build can be rearranged, staying buildable, until no core is free, if any placement leaves none free |
| Feasibility.PlacedExactly | common/decision_tree.c:380-402 | The closed form of success, for the processes in any order |
| Feasibility.CrowdedPlacementIsOptimal | common/decision_tree.c:365-419 | Read back in rank order, the placement of a crowded node is optimal if there is one |
| Migration.LeafCountsMoves | common/decision_tree.c:250-251 | The counter of the candidate that the search ends with is the number of processes that leave their previous socket |
| Migration.FewestMovesExactly | common/decision_tree.c:322-341 | The search returns an optimal placement with the fewest moves for all previous sockets if and only if there is one socket |
| Migration.MovesWithoutNeed | common/decision_tree.c:322-341 | Two processes of two threads on two sockets of two cores change places, although staying costs no more |
| Placement.InadmissibleImproves | common/decision_tree.c:289-290 | When there are no more threads than cores, a placement that adds to an overfull socket is strictly worse than another one: skipping overfull sockets loses nothing |
| Placement.ExchangeKeeps | common/decision_tree.c:190-191 | All sockets start alike, so exchanging two keeps cost, norme and admissibility |
| Placement.NormeFalls | common/decision_tree.c:253-260 | A set norme stays set and never rises when one more process is placed |
| Placement.NormeUnsetExactly | common/decision_tree.c:253-260 | norme is unset exactly while every socket has a free core, and otherwise minus the oversubscription |
| DecisionTree.NormeStep | common/decision_tree.c:253-260 | On a socket that is not overfull, the incremental update of norme gives the value recomputed from the longer placement |
| DecisionTree.FreeCoresConserved | common/decision_tree.c:190-243 | Free cores and placed threads always add up to the cores of the node |
| CallerOrder.PlacementIsOptimal | common/decision_tree.c:365-419 | When the threads fill the cores, the placement exists and, read back in rank order, is optimal for the unsorted processes |
| CallerOrder.PlacementIgnoresHistory | common/decision_tree.c:250-251 | Any two ranks with equal thread counts and different previous sockets publish the same placement |
| DecisionTree.Tree.BuildTreeRecursive | common/decision_tree.c:278-363 | The recursion over nodes leaves in the father, or the root, what the search function says; the nodes handed out afterwards are those before, minus the replaced candidate, plus the new one; at most two more per level are in use |
| DecisionTree.Tree.ExploreChildren | common/decision_tree.c:280-344 | The loop over sockets ends with the node's min, counter and candidate as the search function says and gives the spare child back |
| DecisionTree.Tree.VisitChild | common/decision_tree.c:286-341 | One iteration changes the node as one step of the search function and loses no node |
| DecisionTree.Tree.KeepLeaf | common/decision_tree.c:315-341 | A leaf is kept exactly if it is not below min and beats the kept leaf's changes; the replaced leaf becomes the spare node |
| DecisionTree.Tree.ReportToFather | common/decision_tree.c:346-362 | The better of the two candidates stays with the father and the other one is freed once |
| DecisionTree.Tree.UpdateNode | common/decision_tree.c:235-261 | The counters stay those recomputed from the placement: free cores, sockets, norme, socket changes |
| DecisionTree.Tree.DupNode | common/decision_tree.c:211-233 | The child is the node with a fresh candidate, its father and one more level |
| DecisionTree.Tree.AllocNode | common/decision_tree.c:93-112 | The first pooled node is handed out and the counter falls by one, or a new node if the pool is empty; no node is both free and in use |
| DecisionTree.Tree.FreeNode | common/decision_tree.c:114-128 | A node in use is chained into the pool or dropped when the pool is full; null is ignored; the counter is the list's length, at most 64 |
| DecisionTree.Tree.constructor | common/decision_tree.c:130-145 | The pool starts with 64 nodes, none in use |
| DecisionTree.Tree.InitRootNode | common/decision_tree.c:181-206 | The root holds the processes sorted by thread count and counters of the empty placement |
| DecisionTree.Tree.UpdateCoreProcessesList | common/decision_tree.c:365-378 | Every record gets the socket that the leaf has for it, and its old socket as previous one |
| DecisionTree.Tree.ComputePlacement | common/decision_tree.c:380-419 | Succeeds exactly when the search function has a placement; then every rank gets its socket of it and all nodes are given back. At most 2n+1 nodes are ever in use |
| TreeNodes.ListHead.AddFirst | common/list.c:36-49 | The chain grows by one node in front, linked in both directions |
| TreeNodes.ListHead.Remove | common/list.c:131-144 | The chain loses just that node, wherever it is, and stays linked in both directions |
| TreeNodes.ListHead.GetFirst | common/list.c:101-106 | The first node of the chain, null exactly if it is empty |
| Apportion.NeediestIsLargest | core/sabo.c:392-422 | The chosen process has the largest claim, on a tie the fewest threads, then the highest rank |
| Apportion.ConservationExactly | core/sabo.c:500-518 | A step hands out exactly the cores of the node if and only if near-idle processes are no more than the cores left over by rounding down |
| Apportion.DispatchedTotal | core/sabo.c:476-495 | Dispatching adds exactly the remaining cores, none if there are none |
| Apportion.DispatchesLargestRemainders | core/sabo.c:476-495 | When claims below one add up to the cores left or more, no process is served twice, only positive claims are, larger ones first |
| Apportion.QuotaAndConservation | core/sabo.c:424-495 | Starting from the floors, and one thread for a share below one, each count is its share rounded down or up, or that one thread; within a socket if the share is; and the counts sum to the cores unless the start was more |
| Apportion.LargestRemainderIsNearest | core/sabo.c:476-495 | No other whole thread counts with the same total, and a thread for every near-idle process, are nearer to the shares in total absolute deviation |
| SocketCap.CapExactly | core/sabo.c:439-495 | For all shares, and told from the shares alone, no process of a step is granted more than a socket if and only if nothing is left over, or there are places enough and every process with a share a little above a socket has as many others with larger fractions before it as cores are left |
| SocketCap.CapOfDispatch | core/sabo.c:476-495 | The same for the dispatch loop from any base counts within a socket |
| SocketCap.ServedExactly | core/sabo.c:424-518 | A step uses the cores up with everybody between one thread and a socket if and only if the near-idle processes fit into what rounding down leaves over and the cap is kept |
| SocketCap.SharesWithinSocket | core/sabo.c:445-449 | Shares of at most a socket that sum to the cores never break the cap |
| DispatchOrder.DispatchInOrder | core/sabo.c:476-495 | For any claims and any number of cores left, nobody is served while another process's next claim goes before: first the remainders, then nothing claimed with the fewest threads first, then beyond a socket |
| DispatchOrder.OrderDecides | core/sabo.c:476-495 | That order and the total determine every count |
| DispatchOrder.StepExactly | core/sabo.c:424-518 | Exactly which counts a step ends with, told from the shares: they start from the whole threads, sum to the cores unless the start is more, and are in order |
| DispatchOrder.LeftoversSpread | core/sabo.c:476-495 | Within a socket, whoever gets a core without a remainder, or a second one, is at most one thread ahead of everybody |
| DispatchOrder.AveragesExactly | core/sabo.c:520-576 | Exactly which counts the averages end with, in whole numbers from the steps' sums |
| Distribution.SharesProportional | core/sabo.c:431-434 | Shares are in proportion to the times |
| Distribution.LargerFractionsFirst | core/sabo.c:436-495 | With shares less than a thread above a socket, whoever is rounded up has no smaller fraction than whoever is not |
| Distribution.StepGuarantees | core/sabo.c:424-518 | With shares less than a thread above a socket a step keeps the quota, and the bounds where the share does, and uses the cores up exactly if the near-idle processes fit |
| Distribution.StepIsNearest | core/sabo.c:424-518 | and its counts are then the nearest ones to the shares that leave nobody without a thread |
| Distribution.StepColumn | core/sabo.c:500-518 | In each window step everybody is served if and only if the shares of that step can be |
| Distribution.WindowGuarantees | core/sabo.c:520-576 | If every step serves everybody, so do the averages, each count within one of its mean |
| Distribution.MeanParts | core/sabo.c:528-534 | The floor of a mean is the quotient of the steps' sum by the window, its fraction the remainder |
| Distribution.AveragesInThreads | core/sabo.c:520-576 | Over w steps that serve everybody, a count n has its steps' sum between w(n-1) and w(n+1), and whoever is rounded up has no smaller remainder than whoever is not |
| Distribution.NewCountsAreAverages | core/sabo.c:621-625 | The new count of every rank is the average of its steps' counts, rounded |
| Distribution.WindowServedExactly | core/sabo.c:520-576 | The averages serve everybody if and only if the floors of the means are within a socket and the cores, and the leftover cores do not break the cap |
| Distribution.DistributionIsFull | core/sabo.c:621-625 | The new thread counts use the cores up and fit sockets if and only if the averages can be served |
| Distribution.SharesTotal | core/sabo.c:431-434 | The shares that a step computes from measured times sum to the cores |
| Distribution.ModestWindow | core/sabo.c:424-518 | From the measured times alone: if in every step no share is above a socket and the near-idle processes fit into what rounding down leaves over, every step can be served |
| Distribution.NoCoresToSpare | core/sabo.c:621-625 | The new thread counts are never fewer than the cores |
| CoreCounters.SearchStepMaxDelta | core/sabo.c:392-422 | The loop finds the process that the division serves next |
| CoreCounters.ComputeStepSum | core/sabo.c:379-390 | The sum of the step's times over all ranks |
| CoreCounters.UpdateStepProcessCounters | core/sabo.c:424-461 | Floor, bump and cap of one share, in this step's slot only |
| CoreCounters.UpdateStepProcessesCounters | core/sabo.c:463-474 | The base division of a step in every record, and how many cores it grants |
| CoreCounters.DispatchUnusedCores | core/sabo.c:476-495 | The step's slots become those of the largest-remainder dispatch; other slots stay |
| CoreCounters.ComputeStepNumThreads | core/sabo.c:500-518 | Every window slot of every record gets its step's division |
| CoreCounters.ComputeStepProcessAvg | core/sabo.c:520-552 | Slot 0 gets the floor of the window's mean and the rest as claim |
| CoreCounters.ComputeAverageStepNumThreads | core/sabo.c:554-576 | Slot 0 of every record gets the division of the means |
| CoreCounters.PrepareProcesses | core/sabo.c:230-237 | Thread counts are replaced by slot 0 and the old ones kept as previous |
| CoreCounters.ComputeNewThreads | core/sabo.c:621-625 | Every record's thread count is the window's division of the times received |
| Adjust.ShrinkEndsExactly | core/sabo.c:674-684 | On a socket with a process the shrink loop ends if and only if the smallest count leaves room for the rounds that the overload needs |
| Adjust.LoopsEndExactly | core/sabo.c:674-693 | On a socket with cores both loops end if and only if, besides, the socket is not empty |
| Adjust.TotalAfterAdjustment | core/sabo.c:672-694 | The socket ends at C + ((T-C) mod k), which is C exactly if k divides T-C |
| Adjust.AdjustedKeepsThreads | core/sabo.c:678-679 | When the loops end, every process has a thread left |
| CoreSockets.ShrinkRound | core/sabo.c:675-683 | One pass takes a thread from each process up to the first with one thread left |
| CoreSockets.GrowRound | core/sabo.c:687-692 | One pass gives each process a thread |
| CoreSockets.AdjustListNumThreads | core/sabo.c:672-694 | Both loops end with every count moved by the same -floor((T-C)/k), and the free cores accordingly |
| CoreSockets.AdjustNumThreads | core/sabo.c:696-702 | Every rank on every socket gets its final count and every socket its free cores; the lists stay |
| Dispatch.NoEmptySocket | core/sabo.c:686-693 | When the threads fill the cores and no process wants more than C, an optimal placement leaves no socket empty; on an empty one the second loop would not end |
| Dispatch.Headroom | core/sabo.c:674-684 | When the threads fill the cores, a process that an optimal placement puts on a socket overfull by d has more than d threads |
| Dispatch.OptimalIsAdjustable | core/sabo.c:672-702 | So, under the same conditions, both loops end on every socket of an optimal placement |
| Dispatch.AllLoopsEndExactly | core/sabo.c:672-702 | For any placement both loops end on every socket if and only if each socket's list leaves room for its rounds |
| Dispatch.AllAdjustableExactly | core/sabo.c:672-702 | and that is if and only if no socket is empty and every rank can spare a thread in each round that its socket's overload needs |
| Dispatch.AdjustedSockets | core/sabo.c:672-702 | Whenever both loops end everywhere, every rank has a thread and every socket its closed-form total |
| Dispatch.ListedByCountAndRank | core/sabo.c:252-263 | In a socket's list thread counts ascend, and ranks among equal counts |
| CoreSockets.DispatchProcesses | core/sabo.c:271-297 | Each socket lists exactly the processes placed on it, by thread count and then rank, with its free cores |
| CoreSockets.SortByRank | core/sabo.c:239-250 | Sorting a list by rank restores rank order from any order by thread count |
| CoreSockets.ComputeFirstCoreId | core/sabo.c:704-717 | The first core is the sum of the threads of the lower ranks on the socket |
| Dispatch.RangesDisjoint | core/sabo.c:704-717 | Two ranks on a socket get disjoint ranges in rank order inside the socket's total |
| Dispatch.RangesCover | core/sabo.c:704-717 | Every core below the socket's total is in the range of one of its ranks |
| Window.RingStep | core/sabo.c:755-766 | Storing a call's sum in slot s mod window keeps the last calls in their slots |
| Window.FullRing | core/sabo.c:318-321 | From call window-1 on the ring is exactly the last `window` calls |
| Schedule.NextPeriod | core/sabo.c:306-307 | In periodic mode the next call that rebalances is exactly `stepbal` calls after the last one |
| Schedule.FirstPeriod | core/sabo.c:306-321 | and the first one is at step stepbal-1 when the window is no longer than a period |
| Schedule.OnlyOnce | core/sabo.c:308-321 | Otherwise only the call at step stepbal rebalances, and it does if the window is full by then |
| Schedule.RebalancesExactly | core/sabo.c:299-324 | How many of the first n calls rebalance, in closed form for both modes |
| Core.CoreContext.GatherOmptCounters | core/sabo.c:755-766 | The call's sum goes into its slot, over any number of calls |
| Core.CoreContext.InitContext | core/sabo.c:134-202 | The move of the local process into the array, once, keeps the ring |
| Core.CoreContext.ExchangeStepData | core/sabo.c:326-350 | Every record gets its rank's received times and the local ring stays |
| Core.CoreContext.BeginCall | core/sabo.c:788-808 | The call goes on exactly when the step calls for it and enough calls were made, and then the ring holds exactly the last `window` calls, the first exchange included |
| Core.CoreContext.EndCall | core/sabo.c:831-833 | The next step begins with cleared measurements and the same ring |
| Pipeline.ServableWorks | core/sabo.c:813-829 | A window whose averages can serve everybody never ends in the fatal error or an endless loop, and the placement is optimal |
| Pipeline.ServableSteps | core/sabo.c:500-576 | It is enough that the shares of every step can be served |
| Pipeline.ModestNodeWorks | core/sabo.c:808-829 | From the measured times to the placement: such a window comes to an end with an optimal placement |
| Pipeline.BusyAndIdleRanksWork | core/sabo.c:424-443 | Times of 2.5, 1.25 and 0.25 on one socket of four cores are such a window |
| Pipeline.EveryRankServed | core/sabo.c:813-829 | Whenever the call comes to an end, every rank has a socket and a thread, no socket is empty and every total is the closed form |
| Pipeline.RangesNeverCollide | core/sabo.c:813-829 | The core ranges that two ranks of a socket compute are disjoint and in rank order |
| Pipeline.RangesTile | core/sabo.c:813-829 | The ranges leave no gap, and the socket is used exactly if its ranks divide the overload |
| Rebalance.ApplyBalance | core/sabo.c:813-829 | Over the records, the whole sequence, when it comes to an end, gives every rank the socket, threads and first core of the pipeline, and the tree its nodes back |
| Rebalance.OmpBalanced | core/sabo.c:788-833 | The whole call, on every path: the ring is kept, when it rebalances it does so from the last `window` calls, and when it does not no rank's socket or thread count changes |
| Agreement.RanksAgree | modules/module_shm.c:351-379 | Ranks back from a round hold the same matrix of times, whose row k is the contribution of rank k |
| Agreement.IndependentRangesNeverCollide | core/sabo.c:808-829 | In any run, two ranks that rebalance on their own from what they received never take the same core of a socket |
| Agreement.FairRunsRebalance | core/sabo.c:808-829 | In every fair run all ranks come back from a round with the contributed times, and the ranges that two of them take from these do not collide |
| Agreement.BusyAndIdleRanksRebalance | core/sabo.c:808-829 | Three ranks that take turns are such a run, with one of them near idle |
| Barrier.NoEarlyRead | modules/module_shm.c:364-376 | While a process copies round r out, every slot is its rank's round r and nobody writes |
| Barrier.NoEarlyWrite | modules/module_shm.c:364-369 | While a process writes round r+1, nobody copies and everybody has round r complete |
| Barrier.AllgatherReturnsAll | modules/module_shm.c:351-379 | Every allgather of every rank returns all contributions to its round |
| Barrier.NoArrivalLost | modules/module_shm.c:63-80 | nwritter is the number of arrivals in the open generation, except in the last arriver's reset window, when nobody is about to arrive |
| Barrier.GenerationsStayClose | modules/module_shm.c:50-82 | Local and shared generations differ by at most one, so equality of the wrapped words is equality of the counts |
| Barrier.StepInv | modules/module_shm.c:50-82 | Every atomic step of every process keeps the invariant |
| Barrier.ReachableInv | modules/module_shm.c:313-379 | So every run from the initial barrier on keeps it |
| Barrier.NoDeadlock | modules/module_shm.c:50-82 | Until all are done some process can move |
| Barrier.RunsAreBounded | modules/module_shm.c:50-82 | Apart from failed spins, the number of steps of any run is bounded beforehand |
| Barrier.NeverStuck | modules/module_shm.c:50-82 | From every reachable state some process can move and all can still finish |
| Barrier.FairRunsFinish | modules/module_shm.c:50-82 | From every reachable state, any schedule finishes once it consists of as many stretches in which every process gets a turn as there are steps left |
| Barrier.FinishedRunsAreComplete | modules/module_shm.c:351-379 | When all are done, every rank holds every round's complete result |
| SlurmParser.AcceptsExactly | tools/slurm_variables_parser.c:76-130 | A string is accepted with given entries if and only if it spells them, one for each node |
| SlurmParser.NumberRead | tools/slurm_variables_parser.c:12-32 | A positive int is read up to a position if and only if white space, a sign and digits up to there spell a number below 2^63 whose lower 32 bits are that int |
| SlurmParser.WrittenExactly | tools/slurm_variables_parser.c:16-27 | The entry is the number written if and only if that is at most 2^31 - 1 |
| SlurmParser.AcceptsTooLarge | tools/slurm_variables_parser.c:16-27 | 4294967297 is accepted as 1 |
| SlurmParser.IntegerRead | tools/slurm_variables_parser.c:12-32 | What a written number is read as, with zero allowed or not: itself if it is an int and not refused, minus one if negative, zero where that is not allowed, or beyond a long, and else its lower 32 bits |
| SlurmParser.RefusedExactly | tools/slurm_variables_parser.c:12-32 | Exactly when minus one is returned |
| SlurmParser.TooManyExactly | tools/slurm_variables_parser.c:104-108 | The assertion against a store beyond the array fails if and only if the items spelled first exceed the nodes |
| SlurmParser.AcceptedIsComplete | tools/slurm_variables_parser.c:76-130 | An accepted string gives exactly one positive int for each node, whatever was stored before staying in front |
| SlurmParser.RoundTrip | tools/slurm_variables_parser.c:76-130 | However the runs of a list are grouped into items, parsing the printed items gives the list back |
| SlurmParser.AcceptedCanBeRespelled | tools/slurm_variables_parser.c:76-130 | Every accepted string has a canonical spelling with the same result |
| SlurmParser.ReadsDecimal | tools/slurm_variables_parser.c:12-32 | A printed positive int before a non-digit is read back, with the cursor behind it |
| SlurmParser.ReadsRepeat | tools/slurm_variables_parser.c:34-74 | A printed repeat is read back, with the cursor behind its parenthesis |
| SlurmParser.ParseTasksPerNode | tools/slurm_variables_parser.c:76-130 | The loop over the caller's array accepts the same strings and leaves the entries in the array |
| Limits.OneSocketExactly | common/decision_tree.c:289-402 | On one socket the search succeeds exactly for a lone process or when all but the largest fit and all together fill it |
| Limits.OneSocketLoopsExactly | core/sabo.c:672-694 | On one socket both loops end if and only if every rank can spare a thread in each round |
| Limits.OneSocketEndsExactly | core/sabo.c:820-826 | On one socket, when the search finds a placement and when the loops then end, told from the thread counts |
| Limits.IdleProcessesExceedTotal | core/sabo.c:439-443 | 16 cores, five busy and five near-idle processes: a step grants 20 cores |
| Limits.IdleProcessesEndInError | core/sabo.c:500-625 | A window of that step hands the 20 cores on, and the search ends in the fatal error |
| Limits.IdleProcessesLoopForEver | core/sabo.c:674-684 | One busy and two near-idle ranks on one socket of four cores: the search succeeds and the first loop never ends |
| Limits.ShareAboveSocketExceedsCap | core/sabo.c:445-449 | A share of 4.8 on sockets of 4 cores is given a fifth thread |
| Limits.AdjustmentCanStayAbove | core/sabo.c:672-694 | The search puts processes of 3, 3 and 4 threads on two sockets of 5 cores, and one socket keeps 6 threads |
| Limits.SpareCoresBreakOptimality | common/decision_tree.c:253-302 | A direct caller with cores to spare gets an oversubscribed placement where one without oversubscription exists |

## Left out

- MPI, hwloc, OMPT callbacks, environment variables, logging and time measurement: topology, window, stepbal, periodic and the per-core times are inputs.
- Thread binding (core/sabo.c:732-752), `core_discover_placement` and the binding array: foreign calls.
- `core_estimate_speedup`: a boolean input of `Rebalance.OmpBalanced`. It is each rank's own decision; a rank that cancels keeps its old cores, and nothing is claimed about those and the new ranges of ranks that go on.
- Rebalance.OmpBalanced: requires, when it rebalances, that the search finds a placement and the adjustment loops end, since otherwise the call does not return; and that the row received for the local rank is what it contributed, which `Barrier.AllgatherReturnsAll` provides.
- Agreement.IndependentRangesNeverCollide: speaks of the socket-relative ranges; the translation to operating-system core numbers by hwloc is not part of this model.
- Rounding of floating-point numbers: times and shares are exact reals. Times are not negative, and a step's times do not sum to zero.
- 32-bit overflow of thread sums: the total number of threads is below 2^31; the conversions and wrap-around in the parser and in the barrier are modelled.
- The standard library's qsort: the model sorts stably by thread count; the theorems of `Search` hold for every order of the processes, and the comparators of core/sabo.c break ties by rank. That ranks agree takes for granted that all of them sort ties alike.
- Array buffers inside a node or a record (`processes`, `data`, `counters`): sequence fields that are reassigned, so a loop that copies elements is one assignment, and aliasing between buffers is not captured.
- malloc failure and the release of the context, `tree_fini_nodes_list` and `decision_tree_fini`.
- Builds with assertions: the model follows builds without them; `SocketCap.CapExactly` and `Distribution.WindowServedExactly` say exactly when the asserted bounds on thread counts hold. The parser's assertion is the outcome `TooMany`.
- CoreSockets.AdjustListNumThreads: requires the termination condition, which is exact by `Adjust.LoopsEndExactly`; the code has no check of its own.
- Core.CoreContext.constructor: requires a window of at most the number of cores, because the move of the local process copies `window` entries of an array with one entry per core.
- The second exchange of counters (core/sabo.c:352-360): its result is overwritten before it is read.
- Barrier.StepInv: relaxed atomics are taken as sequentially consistent and each slot of the shared buffer is one abstract value, so offsets into the segment (modules/module_shm.c:362-376) and the file-lock handshake are not modelled.
- Barrier.RunsAreBounded: failed tests of a spin loop are not counted.
- common/comm.c, common/topo.c, tools/format_check.c and the list functions that the pool does not use: they would only add easy members.
