/** The decision pipeline end to end, on values: from the times that the allgather returned to everybody's core range.
    */
module Pipeline {
  import opened Sums
  import opened Placement
  import opened CallerOrder
  import opened Adjust
  import opened Dispatch
  import opened Distribution
  import opened Apportion

  /** A node and the window of times measured on it; every rank has the same one after the allgather. */
  datatype Node = Node(numSockets: nat, cores: nat, window: nat, times: seq<seq<real>>) {
    function NumCores(): nat {
      numSockets * cores
    }

    /** The node is not empty, the window holds times, and the thread counts they lead to add up to an int. */
    ghost predicate Valid() {
      && numSockets >= 1 && cores >= 1
      && Measured(times, window)
      && Sum(NewCounts(times, window, NumCores(), cores)) < 0x8000_0000
    }

    /** The averages over the window can serve everybody: by Distribution.DistributionIsFull this is exactly when the
        new thread counts use the cores up and fit the sockets. */
    ghost predicate Servable() {
      && numSockets >= 1 && cores >= 1 && NumCores() < 0x8000_0000
      && Measured(times, window)
      && MeansServable(StepRows(times, window, NumCores(), cores), NumCores(), cores)
    }
  }

  /** It is enough that the shares of every step can be served. */
  lemma ServableSteps(node: Node)
    requires node.numSockets >= 1 && node.cores >= 1 && node.NumCores() < 0x8000_0000
    requires Measured(node.times, node.window) && ServableWindow(node.times, node.window, node.NumCores(), node.cores)
    ensures node.Servable()
  {
    hide Measured; hide MeansServable; hide ServableWindow; hide StepRows;
    WindowServed(node.times, node.window, node.NumCores(), node.cores);
  }

  /** What the ranks ask the search for. */
  ghost function Request(node: Node): (d: Demand)
    requires node.Valid()
    ensures d.Valid() && |d.threads| == |node.times| >= 1
    ensures d.numSockets == node.numSockets && d.coresPerSocket == node.cores
  {
    EverybodyCounted(node.times, node.window, node.NumCores(), node.cores);
    Demand(node.numSockets, node.cores, NewCounts(node.times, node.window, node.NumCores(), node.cores))
  }

  /** The call neither stops with the fatal error nor loops for ever. Feasibility.PlacedExactly says when the search
      finds a placement, and Adjust.LoopsEndExactly when the loops of a socket end. */
  ghost predicate Workable(node: Node) {
    && node.Valid()
    && ComputedPlacement(Request(node)).Some?
    && AllAdjustable(Request(node), ComputedPlacement(Request(node)).value)
  }

  /** The socket of every rank. */
  ghost function Sockets(node: Node): (q: seq<nat>)
    requires Workable(node)
    ensures Complete(Request(node), q) && |q| == |node.times|
  {
    ComputedPlacement(Request(node)).value
  }

  /** The thread count of every rank. */
  ghost function Threads(node: Node): (final: seq<int>)
    requires Workable(node)
    ensures |final| == |node.times|
  {
    Final(Request(node), Sockets(node))
  }

  /** The first core of rank i on its socket, as rank i computes it for itself. */
  ghost function FirstCore(node: Node, i: nat): int
    requires Workable(node) && i < |node.times|
  {
    StartOf(Threads(node), Sockets(node), i)
  }

  /** The threads that run on socket s. */
  ghost function SocketTotal(node: Node, s: nat): int
    requires Workable(node)
  {
    Sum(CountsOn(Threads(node), Sockets(node), s))
  }

  /** A node whose averages can serve everybody works: the search succeeds, its placement is optimal, and both
      adjustment loops end on every socket. */
  lemma ServableWorks(node: Node)
    requires node.Servable()
    ensures Workable(node)
    ensures Request(node).Full() && Optimal(Request(node), Sockets(node))
  {
    hide StepRows; hide NewCounts; hide MeansServable; hide Measured; hide ComputedPlacement; hide SortedCounts;
    DistributionIsFull(node.times, node.window, node.numSockets, node.cores);
    var d := Request(node);
    PlacementIsOptimal(d);
    var q := ComputedPlacement(d).value;
    forall s | 0 <= s < d.numSockets ensures Adjustable(SortedCounts(d.threads, q, s), d.coresPerSocket) {
      OptimalIsAdjustable(d, q, s);
    }
  }

  /** From measured times to the placement: if in every step nobody's time is worth more than a socket and the near-idle
      processes fit, the call comes to an end with an optimal placement. */
  lemma ModestNodeWorks(node: Node)
    requires node.numSockets >= 1 && node.cores >= 1 && node.NumCores() < 0x8000_0000
    requires Measured(node.times, node.window)
    requires forall w :: 0 <= w < node.window ==>
      Modest(Shares(Column(node.times, w), node.NumCores()), node.NumCores(), node.cores)
    ensures node.Servable() && Workable(node)
    ensures Optimal(Request(node), Sockets(node))
  {
    hide Measured; hide Modest; hide Shares; hide ServableWindow; hide Workable; hide Node.Servable; hide Sockets;
    hide Request; hide Optimal;
    ModestWindow(node.times, node.window, node.NumCores(), node.cores);
    ServableSteps(node);
    ServableWorks(node);
  }

  /** Such a node: three ranks on one socket of four cores, one of them near idle, over a window of one step. */
  lemma BusyAndIdleRanksWork(node: Node)
    requires node == Node(1, 4, 1, [[2.5], [1.25], [0.25]])
    ensures node.Servable() && Workable(node)
  {
    hide Workable; hide Node.Servable;
    var column := Column(node.times, 0);
    assert column == [2.5, 1.25, 0.25];
    ThreeShares(column);
    assert Measured(node.times, 1);
    ModestNodeWorks(node);
  }

  lemma ThreeShares(times: seq<real>)
    requires times == [2.5, 1.25, 0.25]
    ensures RealSum(times) == 4.0 && Shares(times, 4) == times && Modest(times, 4, 4)
  {
    assert times[..2] == [2.5, 1.25] && times[..2][..1] == [2.5] && times[..1] == [2.5] && times[..1][..0] == [];
    assert RealSum([2.5]) == 2.5 && RealSum([2.5, 1.25]) == 3.75;
    assert RealSum(times) == 4.0;
    forall p | 0 <= p < 3 ensures Shares(times, 4)[p] == times[p] {
      assert times[p] / 4.0 * 4.0 == times[p];
    }
    assert WholeThreads([2.5], 4) == 2 && WholeThreads([2.5, 1.25], 4) == 3 && WholeThreads(times, 4) == 3;
    assert IdleCount([2.5]) == 0 && IdleCount([2.5, 1.25]) == 0 && IdleCount(times) == 1;
  }

  /** Whenever the call comes to an end, every rank is on a socket with at least one thread, no socket is empty, and
      every socket has its closed-form total. */
  lemma EveryRankServed(node: Node)
    requires Workable(node)
    ensures forall i :: 0 <= i < |node.times| ==> Sockets(node)[i] < node.numSockets && Threads(node)[i] >= 1
    ensures forall s :: 0 <= s < node.numSockets ==>
      && |Members(Sockets(node), s)| >= 1
      && SocketTotal(node, s)
           == Settled(Loads(Request(node), Sockets(node))[s], node.cores, |Members(Sockets(node), s)|)
  {
    AdjustedSockets(Request(node), Sockets(node));
  }

  /** The ranges that the ranks compute independently never collide: two ranks on one socket get disjoint ranges in rank
      order, inside the socket's total. */
  lemma RangesNeverCollide(node: Node, i: nat, j: nat)
    requires Workable(node) && i < j < |node.times| && Sockets(node)[i] == Sockets(node)[j]
    ensures 0 <= FirstCore(node, i)
    ensures FirstCore(node, i) + Threads(node)[i] <= FirstCore(node, j)
    ensures FirstCore(node, j) + Threads(node)[j] <= SocketTotal(node, Sockets(node)[j])
  {
    hide Threads; hide Sockets; hide Members; hide StartOf; hide Sum; hide Workable; hide Loads;
    EveryRankServed(node);
    RangesDisjoint(Threads(node), Sockets(node), i, j);
  }

  /** And they leave no gap: each core below the socket's total is in the range of a rank on that socket. The total is
      the number of cores, so that the ranges tile the socket, exactly when the number of ranks there divides the
      overload. */
  lemma RangesTile(node: Node, s: nat, core: int) returns (i: nat)
    requires Workable(node) && s < node.numSockets && 0 <= core < SocketTotal(node, s)
    ensures i < |node.times| && Sockets(node)[i] == s
    ensures FirstCore(node, i) <= core < FirstCore(node, i) + Threads(node)[i]
    ensures |Members(Sockets(node), s)| >= 1
    ensures SocketTotal(node, s) == node.cores
      <==> (Loads(Request(node), Sockets(node))[s] - node.cores) % |Members(Sockets(node), s)| == 0
  {
    hide Threads; hide Sockets; hide Members; hide StartOf; hide Sum; hide Workable; hide Loads;
    EveryRankServed(node);
    i := RangesCover(Threads(node), Sockets(node), s, core);
  }
}
