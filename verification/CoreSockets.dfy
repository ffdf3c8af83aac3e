/** The per-socket lists of core/sabo.c: dispatching processes into them, adjusting their thread counts, and finding the
    first core of a rank. */
module CoreSockets {
  import opened Sums
  import opened Sorting
  import opened Placement
  import opened Adjust
  import opened Dispatch
  import opened Processes

  class SocketData {
    var numFreeCores: int
    var processes: seq<CoreProcess>

    constructor ()
    {
      numFreeCores, processes := 0, [];
    }
  }

  ghost predicate DistinctSockets(data: seq<SocketData>) {
    forall s, t :: 0 <= s < t < |data| ==> data[s] != data[t]
  }

  /** The records' thread counts and sockets, in rank order. */
  ghost predicate Requests(processes: seq<CoreProcess>, threads: seq<int>, q: seq<nat>)
    reads processes
  {
    && Distinct(processes) && |processes| == |threads| == |q|
    && forall i :: 0 <= i < |processes| ==> processes[i].numThreads == threads[i] && processes[i].socketId == q[i]
  }

  ghost predicate Listed(data: SocketData, list: seq<CoreProcess>, free: int)
    reads data
  {
    data.processes == list && data.numFreeCores == free
  }

  /** core_dispatch_processes: each socket's list holds exactly the processes placed on it, by ascending thread count.
      */
  method DispatchProcesses(data: seq<SocketData>, processes: seq<CoreProcess>, numCoresPerSocket: nat,
                           ghost threads: seq<int>, ghost q: seq<nat>)
    requires DistinctSockets(data) && Requests(processes, threads, q)
    requires forall i :: 0 <= i < |q| ==> q[i] < |data|
    modifies data
    ensures SortedLists(data, processes, numCoresPerSocket, threads, q, |data|)
  {
    hide Sum; hide Members; hide SortOrder; hide SortedLists;
    ResetSockets(data, numCoresPerSocket);
    NoMembers(threads);
    for i := 0 to |processes|
      invariant Filled(data, processes, numCoresPerSocket, threads, q[..i])
    {
      AddProcess(data, processes, i, numCoresPerSocket, threads, q);
    }
    assert q[..|processes|] == q;
    SortSockets(data, processes, numCoresPerSocket, threads, q);
  }

  method SortSockets(data: seq<SocketData>, processes: seq<CoreProcess>, numCoresPerSocket: nat,
                     ghost threads: seq<int>, ghost q: seq<nat>)
    requires DistinctSockets(data) && Requests(processes, threads, q)
    requires Filled(data, processes, numCoresPerSocket, threads, q)
    modifies data
    ensures SortedLists(data, processes, numCoresPerSocket, threads, q, |data|)
  {
    hide Sum; hide Members; hide SortOrder; hide Pick; hide CountsOn; hide SortedMembers; hide Requests; hide Distinct;
    for s := 0 to |data|
      invariant SortedLists(data, processes, numCoresPerSocket, threads, q, s)
      invariant forall t :: s <= t < |data| ==>
        Listed(data[t], Pick(processes, Members(q, t)), numCoresPerSocket - Sum(CountsOn(threads, q, t)))
    {
      SortSocket(data[s], s, processes, threads, q);
      assert forall t :: 0 <= t < |data| && t != s ==> data[t] != data[s];
    }
  }

  method SortSocket(data: SocketData, s: nat, processes: seq<CoreProcess>, ghost threads: seq<int>, ghost q: seq<nat>)
    requires Requests(processes, threads, q)
    requires data.processes == Pick(processes, Members(q, s))
    modifies data`processes
    ensures data.processes == Pick(processes, SortedMembers(threads, q, s))
  {
    hide Members; hide SortOrder;
    SortByNumThreads(data, CountsOn(threads, q, s));
    PickTwice(processes, Members(q, s), SortOrder(CountsOn(threads, q, s)));
  }

  /** The first n lists are sorted by thread count. */
  ghost predicate SortedLists(data: seq<SocketData>, processes: seq<CoreProcess>, numCoresPerSocket: nat,
                         threads: seq<int>, q: seq<nat>, n: nat)
    reads data
  {
    && |q| <= |processes| == |threads| && n <= |data|
    && forall s :: 0 <= s < n ==>
         Listed(data[s], Pick(processes, SortedMembers(threads, q, s)),
                numCoresPerSocket - Sum(CountsOn(threads, q, s)))
  }

  /** The lists hold the processes dispatched so far, in rank order. */
  ghost predicate Filled(data: seq<SocketData>, processes: seq<CoreProcess>, numCoresPerSocket: nat,
                         threads: seq<int>, q: seq<nat>)
    reads data
  {
    && |q| <= |processes| == |threads|
    && forall s :: 0 <= s < |data| ==>
         Listed(data[s], Pick(processes, Members(q, s)), numCoresPerSocket - Sum(CountsOn(threads, q, s)))
  }

  /** The body of the dispatch loop. */
  method AddProcess(data: seq<SocketData>, processes: seq<CoreProcess>, i: nat, numCoresPerSocket: nat,
                    ghost threads: seq<int>, ghost q: seq<nat>)
    requires DistinctSockets(data) && Requests(processes, threads, q) && i < |q| && q[i] < |data|
    requires Filled(data, processes, numCoresPerSocket, threads, q[..i])
    modifies data
    ensures Filled(data, processes, numCoresPerSocket, threads, q[..i+1])
  {
    hide Sum; hide Members;
    var socketId := processes[i].socketId;
    AppendProcess(data[socketId], processes[i]);
    assert q[..i+1][..i] == q[..i];
    forall s | 0 <= s < |data|
      ensures Listed(data[s], Pick(processes, Members(q[..i+1], s)),
        numCoresPerSocket - Sum(CountsOn(threads, q[..i+1], s)))
    {
      MembersStep(q[..i+1], s);
      CountsStep(threads, q[..i+1], s);
      if s == q[i] {
        SumSnoc(CountsOn(threads, q[..i], s), threads[i]);
        PickSnoc(processes, Members(q[..i], s), i);
      }
    }
  }

  method ResetSockets(data: seq<SocketData>, numCoresPerSocket: nat)
    requires DistinctSockets(data)
    modifies data
    ensures forall s :: 0 <= s < |data| ==> Listed(data[s], [], numCoresPerSocket)
  {
    for i := 0 to |data|
      invariant forall s :: 0 <= s < i ==> Listed(data[s], [], numCoresPerSocket)
    {
      data[i].numFreeCores := numCoresPerSocket;
      data[i].processes := [];
    }
  }

  method AppendProcess(data: SocketData, process: CoreProcess)
    modifies data
    ensures Listed(data, old(data.processes) + [process], old(data.numFreeCores) - process.numThreads)
  {
    data.numFreeCores := data.numFreeCores - process.numThreads;
    data.processes := data.processes + [process];
  }

  /** core_sort_processes_by_num_threads. */
  method SortByNumThreads(data: SocketData, ghost counts: seq<int>)
    requires |counts| == |data.processes|
    requires forall k :: 0 <= k < |counts| ==> data.processes[k].numThreads == counts[k]
    modifies data`processes
    ensures data.processes == Pick(old(data.processes), SortOrder(counts))
  {
    var keys: seq<int> := [];
    for i := 0 to |data.processes|
      invariant keys == counts[..i]
    {
      keys := keys + [data.processes[i].numThreads];
    }
    assert keys == counts;
    data.processes := Pick(data.processes, SortOrder(keys));
  }

  lemma NoMembers(threads: seq<int>)
    ensures forall s :: Members([], s) == [] && CountsOn(threads, [], s) == [] && Sum(CountsOn(threads, [], s)) == 0
  {
  }

  lemma MembersStep(q: seq<nat>, s: nat)
    requires q != []
    ensures var rest := Members(q[..|q|-1], s); Members(q, s) == if q[|q|-1] == s then rest + [|q| - 1] else rest
  {
  }

  lemma PickSnoc<T>(values: seq<T>, order: seq<nat>, i: nat)
    requires i < |values| && forall k :: 0 <= k < |order| ==> order[k] < |values|
    ensures Pick(values, order + [i]) == Pick(values, order) + [values[i]]
  {
  }

  lemma PickTwice<T>(values: seq<T>, first: seq<nat>, second: seq<nat>)
    requires forall k :: 0 <= k < |first| ==> first[k] < |values|
    requires forall k :: 0 <= k < |second| ==> second[k] < |first|
    ensures Pick(Pick(values, first), second) == Pick(values, Pick<nat>(first, second))
  {
  }

  // ---------------------------------------------------------------- adjustment

  ghost predicate Counted(list: seq<CoreProcess>, counts: seq<int>)
    reads list
  {
    |list| == |counts| && forall k :: 0 <= k < |list| ==> list[k].numThreads == counts[k]
  }

  /** core_adjust_list_num_threads. The precondition is exactly the condition under which the first loop ends
      (Adjust.ShrinkEndsExactly); the second loop ends because the list is not empty. */
  method AdjustListNumThreads(data: SocketData, ghost cores: nat, ghost counts: seq<int>)
    requires Distinct(data.processes) && Counted(data.processes, counts)
    requires |counts| >= 1 && AscendingCounts(counts) && Adjustable(counts, cores)
    requires data.numFreeCores == cores - Sum(counts)
    modifies data`numFreeCores, data.processes`numThreads
    ensures Counted(data.processes, Adjusted(counts, cores))
    ensures data.numFreeCores == cores - Settled(Sum(counts), cores, |counts|)
  {
    hide Sum; hide Times; hide Shifted; hide Adjusted; hide Settled; hide Adjustable; hide AscendingCounts;
    ghost var n := ShrinkLoop(data, cores, counts);
    n := GrowLoop(data, cores, counts, n);
    NetRounds(counts, cores, n, data.numFreeCores);
  }

  /** The first loop; n is the number of its passes. */
  method ShrinkLoop(data: SocketData, ghost cores: nat, ghost counts: seq<int>) returns (ghost n: int)
    requires |counts| >= 1 && Distinct(data.processes) && Counted(data.processes, counts)
    requires AscendingCounts(counts) && Adjustable(counts, cores)
    requires data.numFreeCores == cores - Sum(counts)
    modifies data`numFreeCores, data.processes`numThreads
    ensures Counted(data.processes, Shifted(counts, -n))
    ensures data.numFreeCores == cores - Sum(counts) + Times(|counts|, n) >= 0
    ensures n > 0 ==> data.numFreeCores < |counts|
  {
    hide Sum; hide Times; hide Shifted; hide AllAboveOne; hide Adjustable; hide AscendingCounts;
    n := 0;
    ShiftLength(counts, 0);
    ShiftFacts(counts, 0, 0);
    TimesStep(|counts|, n);
    while data.numFreeCores < 0
      invariant Counted(data.processes, Shifted(counts, -n))
      invariant data.numFreeCores == cores - Sum(counts) + Times(|counts|, n)
      invariant n > 0 ==> data.numFreeCores < |counts|
      invariant n >= 0
      decreases -data.numFreeCores
    {
      RoundFits(counts, cores, n);
      ShrinkAll(data, counts, n);
      TimesStep(|counts|, n);
      n := n + 1;
    }
  }

  /** A pass that takes a thread from every process. */
  method ShrinkAll(data: SocketData, ghost counts: seq<int>, ghost n: int)
    requires Distinct(data.processes) && Counted(data.processes, Shifted(counts, -n))
    requires AllAboveOne(Shifted(counts, -n))
    modifies data`numFreeCores, data.processes`numThreads
    ensures Counted(data.processes, Shifted(counts, -(n + 1)))
    ensures data.numFreeCores == old(data.numFreeCores) + |counts|
  {
    FullRound(Shifted(counts, -n), data.numFreeCores);
    ShiftLength(counts, -n);
    ShrinkRound(data, Shifted(counts, -n));
    ShiftFacts(counts, -n, -1);
  }

  /** The second loop; n is the net number of rounds taken back. */
  method GrowLoop(data: SocketData, ghost cores: nat, ghost counts: seq<int>, ghost start: int) returns (ghost n: int)
    requires |counts| >= 1 && Distinct(data.processes) && Counted(data.processes, Shifted(counts, -start))
    requires data.numFreeCores == cores - Sum(counts) + Times(|counts|, start) >= 0
    modifies data`numFreeCores, data.processes`numThreads
    ensures Counted(data.processes, Shifted(counts, -n))
    ensures data.numFreeCores == cores - Sum(counts) + Times(|counts|, n)
    ensures -|counts| < data.numFreeCores <= 0
  {
    hide Sum; hide Times; hide Shifted;
    n := start;
    while data.numFreeCores > 0
      invariant Counted(data.processes, Shifted(counts, -n))
      invariant data.numFreeCores == cores - Sum(counts) + Times(|counts|, n)
      invariant data.numFreeCores > -|counts|
      decreases data.numFreeCores
    {
      GrowRound(data, Shifted(counts, -n));
      TimesStep(|counts|, n - 1);
      ShiftFacts(counts, -n, 1);
      n := n - 1;
    }
  }

  lemma ShiftLength(counts: seq<int>, a: int)
    ensures |Shifted(counts, a)| == |counts|
  {
  }

  lemma ShiftFacts(counts: seq<int>, a: int, b: int)
    ensures Shifted(Shifted(counts, a), b) == Shifted(counts, a + b)
    ensures Shifted(counts, 0) == counts
  {
  }

  /** The product of the number of processes and of rounds, kept apart as one term. */
  ghost function Times(k: nat, n: int): int {
    k * n
  }

  lemma TimesStep(k: nat, n: int)
    ensures Times(k, n + 1) == Times(k, n) + k && Times(k, 0) == 0
  {
  }

  /** When no process is down to its last thread, a pass takes one from each. */
  lemma FullRound(counts: seq<int>, free: int)
    requires AllAboveOne(counts)
    ensures ShrinkPass(Socket(counts, free), 0) == Socket(Shifted(counts, -1), free + |counts|)
  {
    FullPass(Socket(counts, free), 0);
  }

  /** While cores are missing, every process can still give one. */
  lemma RoundFits(counts: seq<int>, cores: nat, n: int)
    requires AscendingCounts(counts) && Adjustable(counts, cores)
    requires cores - Sum(counts) + Times(|counts|, n) < 0
    ensures AllAboveOne(Shifted(counts, -n))
  {
    if n >= counts[0] - 1 {
      MulMonotone(|counts|, counts[0] - 1, n);
    }
  }

  predicate AllAboveOne(counts: seq<int>) {
    forall i :: 0 <= i < |counts| ==> counts[i] > 1
  }

  /** The net number of rounds is the quotient of the overload, and what stays above C is the remainder. */
  lemma NetRounds(counts: seq<int>, cores: int, n: int, free: int)
    requires |counts| >= 1 && free == cores - Sum(counts) + Times(|counts|, n) && -|counts| < free <= 0
    ensures Adjusted(counts, cores) == Shifted(counts, -n)
    ensures free == cores - Settled(Sum(counts), cores, |counts|)
  {
    hide Sum; hide Shifted;
    DivModUnique(Sum(counts) - cores, |counts|, n, -free);
  }

  /** One pass of the first loop. */
  method ShrinkRound(data: SocketData, ghost counts: seq<int>)
    requires Distinct(data.processes) && Counted(data.processes, counts)
    modifies data`numFreeCores, data.processes`numThreads
    ensures var r := ShrinkPass(Socket(counts, old(data.numFreeCores)), 0);
      Counted(data.processes, r.counts) && data.numFreeCores == r.free
  {
    ghost var goal := ShrinkPass(Socket(counts, data.numFreeCores), 0);
    ghost var cur := counts;
    for i := 0 to |data.processes|
      invariant Counted(data.processes, cur)
      invariant ShrinkPass(Socket(cur, data.numFreeCores), i) == goal
    {
      var process := data.processes[i];
      if process.numThreads == 1 {
        break;
      }
      process.numThreads := process.numThreads - 1;
      data.numFreeCores := data.numFreeCores + 1;
      cur := cur[i := cur[i] - 1];
    }
  }

  /** One pass of the second loop. */
  method GrowRound(data: SocketData, ghost counts: seq<int>)
    requires Distinct(data.processes) && Counted(data.processes, counts)
    modifies data`numFreeCores, data.processes`numThreads
    ensures Counted(data.processes, Shifted(counts, 1))
    ensures data.numFreeCores == old(data.numFreeCores) - |counts|
  {
    for i := 0 to |data.processes|
      invariant forall j :: 0 <= j < |counts| ==> data.processes[j].numThreads == counts[j] + if j < i then 1 else 0
      invariant data.numFreeCores == old(data.numFreeCores) - i
    {
      var process := data.processes[i];
      process.numThreads := process.numThreads + 1;
      data.numFreeCores := data.numFreeCores - 1;
    }
  }

  /** The records' thread counts once sockets 0 to n-1 are adjusted. */
  ghost predicate Settling(processes: seq<CoreProcess>, d: Demand, q: seq<nat>, n: nat)
    reads processes
  {
    && Complete(d, q) && |processes| == |q|
    && forall i :: 0 <= i < |q| ==> processes[i].numThreads == if q[i] < n then Final(d, q)[i] else d.threads[i]
  }

  /** Minus the threads that stay above the cores of socket s. */
  ghost function FreeAfter(d: Demand, q: seq<nat>, s: nat): int
    requires Complete(d, q) && s < d.numSockets
  {
    if Members(q, s) == [] then d.coresPerSocket
    else d.coresPerSocket - Settled(Loads(d, q)[s], d.coresPerSocket, |Members(q, s)|)
  }

  /** core_adjust_num_threads: every socket's processes get their final thread counts. */
  method AdjustNumThreads(data: seq<SocketData>, processes: seq<CoreProcess>, ghost d: Demand, ghost q: seq<nat>)
    requires DistinctSockets(data) && Requests(processes, d.threads, q) && Complete(d, q) && d.Valid()
    requires |data| == d.numSockets && SortedLists(data, processes, d.coresPerSocket, d.threads, q, |data|)
    requires forall s :: 0 <= s < |data| ==> Adjustable(SortedCounts(d.threads, q, s), d.coresPerSocket)
    modifies data`numFreeCores, processes`numThreads
    ensures Settling(processes, d, q, |data|)
    ensures forall s :: 0 <= s < |data| ==> data[s].processes == old(data[s].processes)
    ensures forall s :: 0 <= s < |data| ==> data[s].numFreeCores == FreeAfter(d, q, s)
  {
    hide Sum; hide Members; hide SortOrder; hide Pick; hide CountsOn; hide SortedMembers; hide Final; hide Adjustable;
    for s := 0 to |data|
      invariant Settling(processes, d, q, s)
      invariant forall t :: s <= t < |data| ==> data[t].numFreeCores == old(data[t].numFreeCores)
      invariant forall t :: 0 <= t < s ==> data[t].numFreeCores == FreeAfter(d, q, t)
    {
      AdjustSocket(data[s], s, processes, d, q);
    }
  }

  /** The body of that loop. */
  method AdjustSocket(data: SocketData, s: nat, processes: seq<CoreProcess>, ghost d: Demand, ghost q: seq<nat>)
    requires Distinct(processes) && Settling(processes, d, q, s) && s < d.numSockets && d.Valid()
    requires Listed(data, Pick(processes, SortedMembers(d.threads, q, s)),
                    d.coresPerSocket - Sum(CountsOn(d.threads, q, s)))
    requires Adjustable(SortedCounts(d.threads, q, s), d.coresPerSocket)
    modifies data`numFreeCores, processes`numThreads
    ensures Settling(processes, d, q, s + 1)
    ensures data.numFreeCores == FreeAfter(d, q, s)
  {
    hide Sum; hide SortOrder; hide Members; hide Final; hide Loads;
    ghost var counts := SortedCounts(d.threads, q, s);
    SortedCountsAscend(d, q, s);
    SortedCountsTotal(d, q, s);
    CountsTotal(d, q, s);
    DistinctList(processes, d.threads, q, s);
    AdjustListNumThreads(data, d.coresPerSocket, counts);
    forall i | 0 <= i < |q|
      ensures processes[i].numThreads == if q[i] < s + 1 then Final(d, q)[i] else d.threads[i]
    {
      if q[i] == s {
        var k := SortedPlace(d, q, i);
        FinalIsAdjusted(d, q, i, k);
        assert data.processes[k] == processes[i];
      }
    }
  }

  lemma DistinctList(processes: seq<CoreProcess>, threads: seq<int>, q: seq<nat>, s: nat)
    requires Distinct(processes) && |processes| == |q| == |threads|
    ensures Distinct(Pick(processes, SortedMembers(threads, q, s)))
  {
  }

  lemma FinalIsAdjusted(d: Demand, q: seq<nat>, i: nat, k: nat)
    requires Complete(d, q) && i < |q| && k < |SortedMembers(d.threads, q, q[i])|
    requires SortedMembers(d.threads, q, q[i])[k] == i
    ensures Adjusted(SortedCounts(d.threads, q, q[i]), d.coresPerSocket)[k] == Final(d, q)[i]
  {
    SortedCountsTotal(d, q, q[i]);
  }

  // ---------------------------------------------------------------- core ranges

  ghost predicate Ranked(processes: seq<CoreProcess>) {
    forall i :: 0 <= i < |processes| ==> processes[i].nodeRank == i
  }

  /** core_sort_processes_by_rank: the list is back in rank order. */
  method SortByRank(data: SocketData, s: nat, processes: seq<CoreProcess>, ghost threads: seq<int>, ghost q: seq<nat>)
    requires Ranked(processes) && |processes| == |q| == |threads|
    requires data.processes == Pick(processes, SortedMembers(threads, q, s))
    modifies data`processes
    ensures data.processes == Pick(processes, Members(q, s))
  {
    hide Members; hide SortOrder; hide SortedMembers;
    ghost var m := SortedMembers(threads, q, s);
    var keys: seq<int> := [];
    for i := 0 to |data.processes|
      invariant keys == m[..i]
    {
      keys := keys + [data.processes[i].nodeRank];
    }
    assert keys == m;
    RankOrderRestored(threads, q, s, keys);
    PickTwice(processes, m, SortOrder(keys));
    data.processes := Pick(data.processes, SortOrder(keys));
  }

  /** Sorting a socket's list by rank undoes the sort by thread count. */
  lemma RankOrderRestored(threads: seq<int>, q: seq<nat>, s: nat, keys: seq<int>)
    requires |q| <= |threads| && keys == SortedMembers(threads, q, s)
    ensures Pick<nat>(SortedMembers(threads, q, s), SortOrder(keys)) == Members(q, s)
  {
    var m, counts := Members(q, s), CountsOn(threads, q, s);
    var again := Pick<nat>(SortedMembers(threads, q, s), SortOrder(keys));
    assert again == Pick<nat>(m, Pick<nat>(SortOrder(counts), SortOrder(keys))) by {
      PickTwice<nat>(m, SortOrder(counts), SortOrder(keys));
    }
    AscendingPermutation(m, Pick<nat>(SortOrder(counts), SortOrder(keys)));
  }

  /** A strictly ascending list is the only ascending arrangement of its elements. */
  lemma AscendingPermutation(m: seq<nat>, order: seq<nat>)
    requires forall j, k :: 0 <= j < k < |m| ==> m[j] < m[k]
    requires |order| == |m| && (forall k :: 0 <= k < |order| ==> order[k] < |m|)
    requires forall j, k :: 0 <= j < k < |order| ==> order[j] != order[k]
    requires forall j, k :: 0 <= j < k < |order| ==> m[order[j]] <= m[order[k]]
    ensures Pick<nat>(m, order) == m
  {
    AscendingIndices(order, 0);
    AscendingBound(order, |order|);
  }

  lemma {:induction false} AscendingIndices(order: seq<nat>, k: nat)
    requires k <= |order| && forall i, j :: 0 <= i < j < |order| ==> order[i] < order[j]
    ensures forall i :: 0 <= i < k ==> order[i] >= i
  {
    if k > 0 {
      AscendingIndices(order, k - 1);
      assert k > 1 ==> order[k-2] < order[k-1];
    }
  }

  lemma {:induction false} AscendingBound(order: seq<nat>, k: nat)
    requires k <= |order| && forall i, j :: 0 <= i < j < |order| ==> order[i] < order[j]
    requires forall i :: 0 <= i < |order| ==> order[i] < |order|
    ensures forall i :: |order| - k <= i < |order| ==> order[i] == i
    decreases k
  {
    AscendingIndices(order, |order|);
    if k > 0 {
      AscendingBound(order, k - 1);
      var i := |order| - k;
      assert k > 1 ==> order[i] < order[i+1];
    }
  }

  /** core_compute_first_core_id: the threads of the lower ranks on the same socket. */
  method ComputeFirstCoreId(data: SocketData, nodeRank: nat, processes: seq<CoreProcess>,
                            ghost final: seq<int>, ghost q: seq<nat>)
    returns (start: int)
    requires Ranked(processes) && nodeRank < |processes| == |q| == |final|
    requires forall i :: 0 <= i < |processes| ==> processes[i].numThreads == final[i]
    requires data.processes == Pick(processes, Members(q, q[nodeRank]))
    ensures start == StartOf(final, q, nodeRank)
  {
    hide Members; hide Sum;
    start := 0;
    ghost var counts := CountsOn(final, q, q[nodeRank]);
    ghost var place := |Members(q[..nodeRank], q[nodeRank])|;
    MemberPlace(q, nodeRank);
    StartIsPrefixSum(final, q, nodeRank);
    SumNone(counts);
    for i := 0 to |data.processes|
      invariant i <= place && start == Sum(counts[..i])
    {
      if data.processes[i].nodeRank == nodeRank {
        break;
      }
      SumTake(counts, i);
      start := start + data.processes[i].numThreads;
    }
  }
}
