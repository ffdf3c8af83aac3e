/** The middle of the balancing call of core/sabo.c over the records: new thread counts, placement, dispatch,
    adjustment, and the first core of the local rank. */
module Rebalance {
  import opened Sorting
  import opened Placement
  import opened CallerOrder
  import opened Adjust
  import opened Dispatch
  import opened Distribution
  import opened Pipeline
  import opened Processes
  import opened CoreCounters
  import opened CoreSockets
  import opened DecisionTree
  import opened TreeNodes
  import opened Apportion
  import opened Window
  import opened Schedule
  import opened Core

  /** The decision tree was set up for this node and holds no node back. */
  ghost predicate TreeFor(tree: Tree, node: Node)
    reads tree, tree.freeNodes, tree.freeNodes.chained
  {
    && tree.Ready() && tree.live == {}
    && tree.numSockets == node.numSockets && tree.numCoresPerSocket == node.cores
    && tree.numProcesses == |node.times|
  }

  /** Every record has the socket and the thread count that the pipeline defines for its rank. */
  ghost predicate Balanced(processes: seq<CoreProcess>, node: Node)
    requires Workable(node)
    reads processes`socketId, processes`numThreads
  {
    && |processes| == |node.times|
    && forall i :: 0 <= i < |processes| ==>
         processes[i].socketId == Sockets(node)[i] && processes[i].numThreads == Threads(node)[i]
  }

  /** Lines 814 to 829 of __sabo_omp_balanced__, unless they stop with the fatal error or loop for ever: every record
      and the local first core are what the pipeline defines. */
  method ApplyBalance(tree: Tree, data: seq<SocketData>, processes: seq<CoreProcess>, nodeRank: nat,
                      numSockets: nat, numCoresPerSocket: nat, window: nat, ghost node: Node)
    returns (start: int)
    requires Workable(node) && node.numSockets == numSockets && node.cores == numCoresPerSocket && node.window == window
    requires Timed(processes, node.times, window) && Ranked(processes) && nodeRank < |processes|
    requires TreeFor(tree, node) && |data| == numSockets && DistinctSockets(data)
    modifies tree, tree.freeNodes, tree.freeNodes.chained, data
    modifies processes`counts, processes`delta, processes`numThreads, processes`prevNumThreads
    modifies processes`socketId, processes`prevSocketId
    ensures Balanced(processes, node)
    ensures start == FirstCore(node, nodeRank)
    ensures Timed(processes, node.times, window)
    ensures tree.Valid() && tree.live == {}
  {
    hide Workable; hide Sockets; hide Threads; hide Request; hide Timed; hide StartOf;
    PlaceProcesses(tree, processes, numSockets, numCoresPerSocket, window, node);
    start := SettleSockets(data, processes, nodeRank, numCoresPerSocket, node);
  }

  method PlaceProcesses(tree: Tree, processes: seq<CoreProcess>, numSockets: nat, numCoresPerSocket: nat, window: nat,
                        ghost node: Node)
    requires Workable(node) && node.numSockets == numSockets && node.cores == numCoresPerSocket && node.window == window
    requires Timed(processes, node.times, window) && TreeFor(tree, node)
    modifies tree, tree.freeNodes, tree.freeNodes.chained
    modifies processes`counts, processes`delta, processes`numThreads, processes`prevNumThreads
    modifies processes`socketId, processes`prevSocketId
    ensures Requests(processes, Request(node).threads, Sockets(node))
    ensures Timed(processes, node.times, window)
    ensures tree.Valid() && tree.live == {}
  {
    hide Workable; hide Sockets; hide NewCounts; hide ComputedPlacement; hide Request; hide ListHead.Valid;
    hide Busy; hide Timed;
    RequestFacts(node);
    ghost var d := Request(node);
    TimedFacts(processes, node.times, window);
    ComputeNewThreads(processes, window, numSockets * numCoresPerSocket, numCoresPerSocket, node.times);
    ghost var previous := PreviousSockets(processes);
    assert tree.DemandFor(d.threads) == d;
    var found := tree.ComputePlacement(processes, d.threads, previous);
  }

  lemma RequestFacts(node: Node)
    requires Workable(node)
    ensures node.Valid() && Busy(node.times, node.window)
    ensures Request(node) == Demand(node.numSockets, node.cores,
                                    NewCounts(node.times, node.window, node.NumCores(), node.cores))
    ensures ComputedPlacement(Request(node)).Some? && Sockets(node) == ComputedPlacement(Request(node)).value
    ensures AllAdjustable(Request(node), Sockets(node))
  {
    hide NewCounts; hide ComputedPlacement;
  }

  lemma TimedFacts(processes: seq<CoreProcess>, times: seq<seq<real>>, window: nat)
    requires Timed(processes, times, window)
    ensures |processes| == |times| && Distinct(processes)
  {
  }

  ghost method PreviousSockets(processes: seq<CoreProcess>) returns (previous: seq<int>)
    ensures |previous| == |processes| && forall i :: 0 <= i < |processes| ==> processes[i].prevSocketId == previous[i]
  {
    previous := [];
    for i := 0 to |processes|
      invariant |previous| == i && forall k :: 0 <= k < i ==> processes[k].prevSocketId == previous[k]
    {
      previous := previous + [processes[i].prevSocketId];
    }
  }

  method SettleSockets(data: seq<SocketData>, processes: seq<CoreProcess>, nodeRank: nat, numCoresPerSocket: nat,
                       ghost node: Node)
    returns (start: int)
    requires Workable(node) && node.cores == numCoresPerSocket && nodeRank < |processes|
    requires Requests(processes, Request(node).threads, Sockets(node)) && Ranked(processes)
    requires |data| == node.numSockets && DistinctSockets(data)
    modifies data, processes`numThreads
    ensures Balanced(processes, node)
    ensures start == FirstCore(node, nodeRank)
  {
    hide Members; hide Settled; hide Optimal; hide StartOf; hide SortedMembers; hide SortedCounts; hide Sockets;
    hide Threads; hide Request; hide Workable; hide SortedLists; hide Pick; hide AllAdjustable; hide ComputedPlacement;
    hide NewCounts; hide Node.Valid; hide Busy; hide Final; hide Shift; hide CountsOn;
    RequestFacts(node);
    SpreadThreads(data, processes, numCoresPerSocket, node);
    var socketId := processes[nodeRank].socketId;
    SortByRank(data[socketId], socketId, processes, Request(node).threads, Sockets(node));
    start := ComputeFirstCoreId(data[socketId], nodeRank, processes, Threads(node), Sockets(node));
  }

  /** Dispatching and adjusting: afterwards each socket still lists its processes by the thread count they asked for. */
  method SpreadThreads(data: seq<SocketData>, processes: seq<CoreProcess>, numCoresPerSocket: nat, ghost node: Node)
    requires Workable(node) && node.cores == numCoresPerSocket
    requires Requests(processes, Request(node).threads, Sockets(node))
    requires |data| == node.numSockets && DistinctSockets(data)
    modifies data, processes`numThreads
    ensures Balanced(processes, node)
    ensures forall s :: 0 <= s < |data| ==>
      data[s].processes == Pick(processes, SortedMembers(Request(node).threads, Sockets(node), s))
    ensures forall i :: 0 <= i < |processes| ==> Sockets(node)[i] < |data|
  {
    hide Members; hide Settled; hide StartOf; hide SortedMembers; hide SortedCounts; hide Sockets; hide Workable;
    hide Pick; hide Loads; hide Request; hide Adjustable; hide ComputedPlacement; hide NewCounts; hide Node.Valid;
    RequestFacts(node);
    ghost var d, q := Request(node), Sockets(node);
    DispatchProcesses(data, processes, numCoresPerSocket, d.threads, q);
    AdjustNumThreads(data, processes, d, q);
  }

  /** __sabo_omp_balanced__. The call either leaves early or rebalances; either way the ring of measurements stays
      that of the last calls. `cancelled` is the outcome of core_estimate_speedup. */
  method OmpBalanced(ctx: CoreContext, tree: Tree, data: seq<SocketData>, communicates: bool, stepbal: nat,
                     periodic: bool, cancelled: bool, received: seq<seq<real>>, ghost node: Node)
    returns (placed: bool, start: int)
    requires ctx.Valid() && |ctx.history| == ctx.step && stepbal >= 1
    requires Matrix(received, ctx.window) && |received| == ctx.nodeCommSize
    requires received[ctx.nodeRank]
      == ctx.myprocess.elapsed[ctx.step % ctx.window := RealSum(ctx.myprocess.ompt)]
    requires node == Node(ctx.numSockets, ctx.numCoresPerSocket, ctx.window, received)
    requires TreeFor(tree, node) && |data| == ctx.numSockets && DistinctSockets(data)
    requires communicates && Computes(ctx.step, stepbal, periodic, ctx.window) && !cancelled ==> Workable(node)
    modifies ctx, ctx.myprocess, ctx.processes, tree, tree.freeNodes, tree.freeNodes.chained, data
    ensures ctx.Valid() && ctx.step == old(ctx.step) + 1
    ensures ctx.history == old(ctx.history) + [old(RealSum(ctx.myprocess.ompt))]
    ensures placed <==> communicates && Computes(old(ctx.step), stepbal, periodic, ctx.window) && !cancelled
    ensures placed ==> Balanced(ctx.processes, node) && start == FirstCore(node, ctx.nodeRank)
    ensures placed ==> LastCalls(received[ctx.nodeRank], ctx.history, old(ctx.step), ctx.window)
    ensures !placed ==> forall i :: 0 <= i < |old(ctx.processes)| ==>
      && old(ctx.processes)[i].socketId == old(ctx.processes[i].socketId)
      && old(ctx.processes)[i].numThreads == old(ctx.processes[i].numThreads)
    ensures tree.Valid() && tree.live == {}
  {
    hide Workable; hide Sockets; hide Threads; hide StartOf; hide LastCall; hide Computes; hide Ring; hide RealSum;
    hide CoreContext.Initialised; hide Timed; hide Tree.Valid; hide Balanced; hide LastCalls;
    start := 0;
    placed := ctx.BeginCall(communicates, stepbal, periodic, received);
    if placed && !cancelled {
      start := FinishBalanced(ctx, tree, data, node);
    } else {
      placed := false;
      ctx.EndCall();
    }
  }

  method FinishBalanced(ctx: CoreContext, tree: Tree, data: seq<SocketData>, ghost node: Node) returns (start: int)
    requires ctx.Valid() && |ctx.history| == ctx.step + 1 && ctx.initOnce
    requires Timed(ctx.processes, node.times, ctx.window)
    requires node.numSockets == ctx.numSockets && node.cores == ctx.numCoresPerSocket && node.window == ctx.window
    requires Workable(node) && TreeFor(tree, node) && |data| == ctx.numSockets && DistinctSockets(data)
    modifies ctx`step, ctx.myprocess`ompt, tree, tree.freeNodes, tree.freeNodes.chained, data
    modifies ctx.processes`counts, ctx.processes`delta, ctx.processes`numThreads, ctx.processes`prevNumThreads
    modifies ctx.processes`socketId, ctx.processes`prevSocketId
    ensures ctx.Valid() && ctx.step == old(ctx.step) + 1
    ensures Balanced(ctx.processes, node) && start == FirstCore(node, ctx.nodeRank)
    ensures tree.Valid() && tree.live == {}
  {
    hide Workable; hide Sockets; hide Threads; hide StartOf; hide Ring; hide Timed; hide Tree.Valid; hide Balanced;
    start := BalanceContext(ctx, tree, data, node);
    ctx.EndCall();
  }

  /** The rebalancing part of the call over the context's records. */
  method BalanceContext(ctx: CoreContext, tree: Tree, data: seq<SocketData>, ghost node: Node) returns (start: int)
    requires ctx.Valid() && ctx.initOnce && Timed(ctx.processes, node.times, ctx.window)
    requires node.numSockets == ctx.numSockets && node.cores == ctx.numCoresPerSocket && node.window == ctx.window
    requires Workable(node) && TreeFor(tree, node) && |data| == ctx.numSockets && DistinctSockets(data)
    modifies tree, tree.freeNodes, tree.freeNodes.chained, data
    modifies ctx.processes`counts, ctx.processes`delta, ctx.processes`numThreads, ctx.processes`prevNumThreads
    modifies ctx.processes`socketId, ctx.processes`prevSocketId
    ensures ctx.Valid()
    ensures Balanced(ctx.processes, node)
    ensures start == FirstCore(node, ctx.nodeRank)
    ensures tree.Valid() && tree.live == {}
  {
    hide Workable; hide Sockets; hide Threads; hide StartOf; hide Ring;
    OwnRow(ctx, node.times);
    start := ApplyBalance(tree, data, ctx.processes, ctx.nodeRank, ctx.numSockets, ctx.numCoresPerSocket, ctx.window,
                          node);
    StillInitialised(ctx, node.times);
  }

  lemma OwnRow(ctx: CoreContext, received: seq<seq<real>>)
    requires ctx.Valid() && ctx.initOnce && Timed(ctx.processes, received, ctx.window)
    ensures received[ctx.nodeRank] == ctx.myprocess.elapsed && Ranked(ctx.processes)
  {
    assert TimedOne(ctx.processes[ctx.nodeRank], received[ctx.nodeRank], ctx.window);
  }

  lemma StillInitialised(ctx: CoreContext, received: seq<seq<real>>)
    requires Timed(ctx.processes, received, ctx.window)
    ensures forall i :: 0 <= i < |ctx.processes| ==>
      |ctx.processes[i].counts| == |ctx.processes[i].delta| == ctx.window
  {
    forall i | 0 <= i < |ctx.processes|
      ensures |ctx.processes[i].counts| == |ctx.processes[i].delta| == ctx.window
    {
      assert TimedOne(ctx.processes[i], received[i], ctx.window);
    }
  }
}
