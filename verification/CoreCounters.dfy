/** The loops of core/sabo.c that turn a window of elapsed times into thread counts, over the process records. */
module CoreCounters {
  import opened Sums
  import opened Apportion
  import opened Distribution
  import opened Processes

  /** Column w of the records' counts and claims. */
  ghost predicate Shows(processes: seq<CoreProcess>, w: nat, g: Grant)
    reads processes
  {
    && |g.counts| == |g.deltas| == |processes|
    && forall p :: 0 <= p < |processes| ==> ShowsOne(processes[p], w, g.counts[p], g.deltas[p])
  }

  ghost predicate ShowsOne(process: CoreProcess, w: nat, count: int, delta: real)
    reads process
  {
    && w < |process.counts| == |process.delta|
    && process.counts[w] == count && process.delta[w] == delta
  }

  /** The records have buffers for the whole window, and their elapsed times are the given rows. */
  ghost predicate Timed(processes: seq<CoreProcess>, times: seq<seq<real>>, window: nat)
    reads processes`elapsed, processes`counts, processes`delta
  {
    && Matrix(times, window) && |processes| == |times| && Distinct(processes)
    && forall p :: 0 <= p < |processes| ==> TimedOne(processes[p], times[p], window)
  }

  ghost predicate TimedOne(process: CoreProcess, row: seq<real>, window: nat)
    reads process`elapsed, process`counts, process`delta
  {
    process.elapsed == row && |row| == |process.counts| == |process.delta| == window
  }

  /** sabo_search_step_max_delta. */
  method SearchStepMaxDelta(processes: seq<CoreProcess>, idx: nat, ghost g: Grant) returns (best: nat)
    requires g.Valid() && Shows(processes, idx, g)
    ensures best == Neediest(g, |processes|)
  {
    best := 0;
    for i := 1 to |processes|
      invariant best == Neediest(g, i)
    {
      assert ShowsOne(processes[i], idx, g.counts[i], g.deltas[i]);
      assert ShowsOne(processes[best], idx, g.counts[best], g.deltas[best]);
      var maxval := processes[best].delta[idx];
      var maxNumThreads := processes[best].counts[idx];
      if processes[i].delta[idx] < maxval {
        continue;
      }
      if processes[i].delta[idx] > maxval {
        best := i;
        continue;
      }
      if processes[i].counts[idx] > maxNumThreads {
        continue;
      }
      best := i;
    }
  }

  /** sabo_compute_step_sum. */
  method ComputeStepSum(processes: seq<CoreProcess>, step: nat, ghost times: seq<seq<real>>, ghost window: nat)
    returns (sum: real)
    requires Timed(processes, times, window) && step < window
    ensures sum == RealSum(Column(times, step))
  {
    sum := 0.0;
    ghost var column := Column(times, step);
    for i := 0 to |processes|
      invariant sum == RealSum(column[..i])
    {
      assert TimedOne(processes[i], times[i], window);
      assert column[..i+1][..i] == column[..i];
      sum := sum + processes[i].elapsed[step];
    }
    assert column[..|processes|] == column;
  }

  /** What the earlier columns of the records hold does not change. */
  twostate predicate SameColumns(processes: seq<CoreProcess>, w: nat)
    reads processes
  {
    forall p :: 0 <= p < |processes| ==> SameColumn(processes[p], w)
  }

  twostate predicate SameColumn(process: CoreProcess, w: nat)
    reads process
  {
    && |process.counts| == old(|process.counts|) && |process.delta| == old(|process.delta|)
    && process.elapsed == old(process.elapsed)
    && forall v :: 0 <= v < |process.counts| && v != w ==> process.counts[v] == old(process.counts)[v]
  }

  /** core_update_step_process_counters. */
  method UpdateStepProcessCounters(process: CoreProcess, step: nat, sum: real, numCores: nat, numCoresPerSocket: nat)
    returns (numThreads: int)
    requires sum != 0.0 && step < |process.elapsed| == |process.counts| == |process.delta|
    modifies process`counts, process`delta
    ensures var share := Scale(process.elapsed[step], sum, numCores as real);
      && numThreads == BaseCount(share, numCoresPerSocket)
      && ShowsOne(process, step, BaseCount(share, numCoresPerSocket), BaseDelta(share, numCoresPerSocket))
    ensures SameColumn(process, step)
  {
    hide Scale;
    var tmp := process.elapsed[step];
    tmp := Scale(tmp, sum, numCores as real);
    numThreads := tmp.Floor;
    var delta := tmp - numThreads as real;
    if numThreads == 0 {
      numThreads := numThreads + 1;
      delta := 0.0;
    }
    if numCoresPerSocket < numThreads {
      numThreads := numCoresPerSocket;
      delta := -1.0;
    }
    process.counts := process.counts[step := numThreads];
    process.delta := process.delta[step := delta];
  }

  /** core_update_step_processes_counters. */
  method UpdateStepProcessesCounters(processes: seq<CoreProcess>, step: nat, numCores: nat, numCoresPerSocket: nat,
                                     ghost times: seq<seq<real>>, ghost window: nat)
    returns (granted: int)
    requires Timed(processes, times, window) && step < window && RealSum(Column(times, step)) != 0.0
    modifies processes`counts, processes`delta
    ensures var base := BaseGrant(Shares(Column(times, step), numCores), numCoresPerSocket);
      Shows(processes, step, base) && granted == Sum(base.counts)
    ensures SameColumns(processes, step)
  {
    hide RealSum; hide Sum; hide Scale; hide BaseCount; hide BaseDelta;
    granted := 0;
    var sum := ComputeStepSum(processes, step, times, window);
    ghost var base := BaseGrant(Shares(Column(times, step), numCores), numCoresPerSocket);
    SumNone(base.counts);
    for i := 0 to |processes|
      invariant forall p :: 0 <= p < i ==> ShowsOne(processes[p], step, base.counts[p], base.deltas[p])
      invariant forall p :: 0 <= p < i ==> SameColumn(processes[p], step)
      invariant forall p :: i <= p < |processes| ==>
        processes[p].counts == old(processes[p].counts) && processes[p].delta == old(processes[p].delta)
      invariant granted == Sum(base.counts[..i])
    {
      assert old(TimedOne(processes[i], times[i], window));
      SumTake(base.counts, i);
      var n := UpdateStepProcessCounters(processes[i], step, sum, numCores, numCoresPerSocket);
      granted := granted + n;
    }
    assert base.counts[..|processes|] == base.counts;
  }

  /** core_dispatch_unused_cores, in a build without assertions. */
  method DispatchUnusedCores(processes: seq<CoreProcess>, remaining: int, step: nat, numCoresPerSocket: nat,
                             ghost g: Grant)
    requires Distinct(processes) && g.Valid() && Shows(processes, step, g)
    modifies processes`counts, processes`delta
    ensures Shows(processes, step, Dispatched(g, remaining, numCoresPerSocket))
    ensures SameColumns(processes, step)
  {
    ShowsLength(processes, step, g);
    hide Shows; hide Dispatched; hide Neediest; hide GiveOne;
    ghost var cur := g;
    var i := 0;
    while i < remaining
      invariant cur.Valid() && |cur.counts| == |processes| && Shows(processes, step, cur)
      invariant Dispatched(cur, remaining - i, numCoresPerSocket) == Dispatched(g, remaining, numCoresPerSocket)
      invariant i <= Max(0, remaining)
      invariant SameColumns(processes, step)
      decreases remaining - i
    {
      DispatchedStep(cur, remaining - i, numCoresPerSocket);
      ServeNeediest(processes, step, numCoresPerSocket, cur);
      cur := GiveOne(cur, Neediest(cur, |processes|), numCoresPerSocket);
      i := i + 1;
    }
    DispatchedStep(cur, remaining - i, numCoresPerSocket);
  }

  lemma ShowsLength(processes: seq<CoreProcess>, step: nat, g: Grant)
    requires Shows(processes, step, g)
    ensures |g.counts| == |processes|
  {
  }

  /** The body of that loop. */
  method ServeNeediest(processes: seq<CoreProcess>, step: nat, numCoresPerSocket: nat, ghost g: Grant)
    requires Distinct(processes) && g.Valid() && |g.counts| == |processes| && Shows(processes, step, g)
    modifies processes`counts, processes`delta
    ensures Shows(processes, step, GiveOne(g, Neediest(g, |processes|), numCoresPerSocket))
    ensures SameColumns(processes, step)
  {
    hide Shows; hide Neediest; hide GiveOne;
    var best := SearchStepMaxDelta(processes, step, g);
    GiveCore(processes, best, step, numCoresPerSocket, g);
    forall p | 0 <= p < |processes| ensures SameColumn(processes[p], step) {}
  }

  lemma DispatchedStep(g: Grant, remaining: int, cores: nat)
    requires g.Valid()
    ensures Dispatched(g, remaining, cores)
         == if remaining <= 0 then g else Dispatched(GiveOne(g, Neediest(g, |g.counts|), cores), remaining - 1, cores)
  {
  }

  /** One more core for one process. */
  method GiveCore(processes: seq<CoreProcess>, best: nat, step: nat, numCoresPerSocket: nat, ghost g: Grant)
    requires Distinct(processes) && g.Valid() && Shows(processes, step, g) && best < |processes|
    modifies {processes[best]}`counts, {processes[best]}`delta
    ensures Shows(processes, step, GiveOne(g, best, numCoresPerSocket))
    ensures SameColumn(processes[best], step)
  {
    var process := processes[best];
    assert ShowsOne(process, step, g.counts[best], g.deltas[best]);
    var numThreads := process.counts[step] + 1;
    process.delta := process.delta[step := 0.0];
    if numCoresPerSocket < numThreads {
      process.delta := process.delta[step := -1.0];
    }
    process.counts := process.counts[step := numThreads];
  }

  /** The first w columns of the records' counts are those of the rows. */
  ghost predicate HasColumns(processes: seq<CoreProcess>, rows: seq<seq<int>>, w: nat)
    reads processes
  {
    |processes| == |rows| && forall p :: 0 <= p < |processes| ==> HasColumnsOne(processes[p], rows[p], w)
  }

  ghost predicate HasColumnsOne(process: CoreProcess, row: seq<int>, w: nat)
    reads process
  {
    w <= |row| == |process.counts| && process.counts[..w] == row[..w]
  }

  /** core_compute_step_num_threads: every column of the window gets its largest-remainder division. */
  method ComputeStepNumThreads(processes: seq<CoreProcess>, window: nat, numCores: nat, numCoresPerSocket: nat,
                               ghost times: seq<seq<real>>)
    requires Timed(processes, times, window) && Busy(times, window)
    modifies processes`counts, processes`delta
    ensures Timed(processes, times, window)
    ensures HasColumns(processes, StepRows(times, window, numCores, numCoresPerSocket), window)
  {
    ghost var rows := StepRows(times, window, numCores, numCoresPerSocket);
    for i := 0 to window
      invariant Timed(processes, times, window)
      invariant HasColumns(processes, rows, i)
    {
      ComputeColumn(processes, i, window, numCores, numCoresPerSocket, times);
    }
  }

  /** The body of that loop. */
  method ComputeColumn(processes: seq<CoreProcess>, i: nat, window: nat, numCores: nat, numCoresPerSocket: nat,
                       ghost times: seq<seq<real>>)
    requires Timed(processes, times, window) && Busy(times, window) && i < window
    requires HasColumns(processes, StepRows(times, window, numCores, numCoresPerSocket), i)
    modifies processes`counts, processes`delta
    ensures Timed(processes, times, window)
    ensures HasColumns(processes, StepRows(times, window, numCores, numCoresPerSocket), i + 1)
  {
    hide BaseGrant; hide Dispatched; hide Shares; hide RealSum; hide Sum; hide Timed; hide HasColumns; hide Shows;
    ghost var rows := StepRows(times, window, numCores, numCoresPerSocket);
    ghost var base := BaseGrant(Shares(Column(times, i), numCores), numCoresPerSocket);
    var remaining := numCores;
    var granted := FloorColumn(processes, i, window, numCores, numCoresPerSocket, rows, times);
    remaining := remaining - granted;
    KeepColumns(processes, i, window, remaining, numCoresPerSocket, base, rows, times);
    ColumnDone(processes, i, rows, Dispatched(base, remaining, numCoresPerSocket));
  }

  /** The floors of column i; the earlier columns stay. */
  method FloorColumn(processes: seq<CoreProcess>, i: nat, window: nat, numCores: nat, numCoresPerSocket: nat,
                     ghost rows: seq<seq<int>>, ghost times: seq<seq<real>>)
    returns (granted: int)
    requires Timed(processes, times, window) && i < window && RealSum(Column(times, i)) != 0.0
    requires HasColumns(processes, rows, i)
    modifies processes`counts, processes`delta
    ensures Timed(processes, times, window) && HasColumns(processes, rows, i)
    ensures var base := BaseGrant(Shares(Column(times, i), numCores), numCoresPerSocket);
      Shows(processes, i, base) && granted == Sum(base.counts)
  {
    hide BaseGrant; hide Shares; hide RealSum; hide Sum; hide Shows;
    granted := UpdateStepProcessesCounters(processes, i, numCores, numCoresPerSocket, times, window);
    forall p | 0 <= p < |processes|
      ensures TimedOne(processes[p], times[p], window) && HasColumnsOne(processes[p], rows[p], i)
    {
      assert old(TimedOne(processes[p], times[p], window)) && old(HasColumnsOne(processes[p], rows[p], i));
      assert SameColumn(processes[p], i);
    }
  }

  /** A finished column extends the finished prefix of every row. */
  lemma ColumnDone(processes: seq<CoreProcess>, i: nat, rows: seq<seq<int>>, g: Grant)
    requires HasColumns(processes, rows, i) && Shows(processes, i, g)
    requires forall p :: 0 <= p < |rows| ==> i < |rows[p]| && rows[p][i] == g.counts[p]
    ensures HasColumns(processes, rows, i + 1)
  {
    forall p | 0 <= p < |processes| ensures HasColumnsOne(processes[p], rows[p], i + 1) {
      assert HasColumnsOne(processes[p], rows[p], i) && ShowsOne(processes[p], i, g.counts[p], g.deltas[p]);
      ExtendColumns(processes[p].counts, rows[p], i);
    }
  }

  /** Dispatching in column i changes nothing else. */
  method KeepColumns(processes: seq<CoreProcess>, i: nat, window: nat, remaining: int, numCoresPerSocket: nat,
                     ghost base: Grant, ghost rows: seq<seq<int>>, ghost times: seq<seq<real>>)
    requires Timed(processes, times, window) && HasColumns(processes, rows, i)
    requires base.Valid() && Shows(processes, i, base)
    modifies processes`counts, processes`delta
    ensures Timed(processes, times, window) && HasColumns(processes, rows, i)
    ensures Shows(processes, i, Dispatched(base, remaining, numCoresPerSocket))
  {
    hide Dispatched;
    DispatchUnusedCores(processes, remaining, i, numCoresPerSocket, base);
    forall p | 0 <= p < |processes|
      ensures TimedOne(processes[p], times[p], window) && HasColumnsOne(processes[p], rows[p], i)
    {
      assert old(TimedOne(processes[p], times[p], window)) && old(HasColumnsOne(processes[p], rows[p], i));
      assert SameColumn(processes[p], i);
    }
  }

  lemma ExtendColumns(counts: seq<int>, row: seq<int>, i: nat)
    requires i < |row| == |counts| && counts[i] == row[i] && counts[..i] == row[..i]
    ensures counts[..i+1] == row[..i+1]
  {
    assert counts[..i+1] == counts[..i] + [counts[i]] && row[..i+1] == row[..i] + [row[i]];
  }

  /** core_compute_step_process_avg. */
  method ComputeStepProcessAvg(process: CoreProcess, window: nat, numCoresPerSocket: nat, ghost row: seq<int>)
    returns (numThreads: int)
    requires window >= 1 && |process.counts| == |process.delta| == window && process.counts == row
    modifies process`counts, process`delta
    ensures numThreads == Mean(row).Floor
    ensures |process.counts| == |process.delta| == window
    ensures ShowsOne(process, 0, Mean(row).Floor,
      if numCoresPerSocket == Mean(row).Floor then -1.0 else Mean(row) - Mean(row).Floor as real)
  {
    var avg := 0.0;
    for i := 0 to window
      invariant avg == Sum(row[..i]) as real
      invariant process.counts == row && |process.delta| == window
    {
      SumTake(row, i);
      avg := avg + process.counts[i] as real;
    }
    assert row[..window] == row;
    avg := avg / window as real;
    numThreads := avg.Floor;
    var delta := avg - numThreads as real;
    if numCoresPerSocket == numThreads {
      delta := -1.0;
    }
    process.counts := process.counts[0 := numThreads];
    process.delta := process.delta[0 := delta];
  }

  /** core_compute_average_step_num_threads: slot 0 gets the division of the averages. */
  method ComputeAverageStepNumThreads(processes: seq<CoreProcess>, window: nat, numCores: nat, numCoresPerSocket: nat,
                                      ghost rows: seq<seq<int>>)
    requires Matrix(rows, window) && |processes| == |rows| && Distinct(processes)
    requires forall p :: 0 <= p < |processes| ==>
      processes[p].counts == rows[p] && |processes[p].delta| == window
    modifies processes`counts, processes`delta
    ensures forall p :: 0 <= p < |processes| ==>
      && |processes[p].counts| == |processes[p].delta| == window
      && processes[p].counts[0] == WindowCounts(rows, numCores, numCoresPerSocket)[p]
  {
    hide Mean; hide Sum; hide Dispatched; hide MeanGrant; hide Shows;
    ghost var g := MeanGrant(rows, numCoresPerSocket);
    var granted := FloorMeans(processes, window, numCoresPerSocket, rows);
    var remaining := numCores - granted;
    DispatchFirstColumn(processes, window, remaining, numCoresPerSocket, g);
  }

  /** The floors of the averages in slot 0. */
  method FloorMeans(processes: seq<CoreProcess>, window: nat, numCoresPerSocket: nat, ghost rows: seq<seq<int>>)
    returns (granted: int)
    requires Matrix(rows, window) && |processes| == |rows| && Distinct(processes)
    requires forall p :: 0 <= p < |processes| ==>
      processes[p].counts == rows[p] && |processes[p].delta| == window
    modifies processes`counts, processes`delta
    ensures Shows(processes, 0, MeanGrant(rows, numCoresPerSocket))
    ensures granted == Sum(MeanGrant(rows, numCoresPerSocket).counts)
    ensures forall p :: 0 <= p < |processes| ==> |processes[p].counts| == window
  {
    hide Mean; hide Sum; hide MeanGrant;
    granted := 0;
    ghost var g := MeanGrant(rows, numCoresPerSocket);
    SumNone(g.counts);
    for i := 0 to |processes|
      invariant forall p :: 0 <= p < i ==>
        ShowsOne(processes[p], 0, g.counts[p], g.deltas[p]) && |processes[p].counts| == window
      invariant forall p :: i <= p < |processes| ==>
        processes[p].counts == rows[p] && |processes[p].delta| == window
      invariant granted == Sum(g.counts[..i])
    {
      SumTake(g.counts, i);
      MeanGrantAt(rows, numCoresPerSocket, i);
      var n := ComputeStepProcessAvg(processes[i], window, numCoresPerSocket, rows[i]);
      granted := granted + n;
    }
    assert g.counts[..|processes|] == g.counts;
  }

  method DispatchFirstColumn(processes: seq<CoreProcess>, window: nat, remaining: int, numCoresPerSocket: nat,
                             ghost g: Grant)
    requires Distinct(processes) && g.Valid() && Shows(processes, 0, g)
    requires forall p :: 0 <= p < |processes| ==> |processes[p].counts| == window
    modifies processes`counts, processes`delta
    ensures |processes| == |g.counts|
    ensures forall p :: 0 <= p < |processes| ==>
      && |processes[p].counts| == |processes[p].delta| == window >= 1
      && processes[p].counts[0] == Dispatched(g, remaining, numCoresPerSocket).counts[p]
  {
    hide Dispatched;
    ShowsLength(processes, 0, g);
    DispatchUnusedCores(processes, remaining, 0, numCoresPerSocket, g);
    ghost var r := Dispatched(g, remaining, numCoresPerSocket);
    forall p | 0 <= p < |processes|
      ensures |processes[p].counts| == |processes[p].delta| == window >= 1 && processes[p].counts[0] == r.counts[p]
    {
      assert SameColumn(processes[p], 0) && old(|processes[p].counts|) == window;
      assert ShowsOne(processes[p], 0, r.counts[p], r.deltas[p]);
    }
  }

  /** core_compute_new_threads_distribution followed by core_prepare_processes: every record's thread count becomes the
      window's division, and its previous count is kept beside it. */
  method ComputeNewThreads(processes: seq<CoreProcess>, window: nat, numCores: nat, numCoresPerSocket: nat,
                           ghost times: seq<seq<real>>)
    requires Timed(processes, times, window) && Busy(times, window)
    modifies processes`counts, processes`delta, processes`numThreads, processes`prevNumThreads
    ensures Timed(processes, times, window)
    ensures forall p :: 0 <= p < |processes| ==>
      && processes[p].numThreads == NewCounts(times, window, numCores, numCoresPerSocket)[p]
      && processes[p].prevNumThreads == old(processes[p].numThreads)
  {
    hide WindowCounts; hide NewCounts; hide Timed;
    ComputeDistribution(processes, window, numCores, numCoresPerSocket, times);
    PrepareProcesses(processes, NewCounts(times, window, numCores, numCoresPerSocket));
  }

  /** core_compute_new_threads_distribution. */
  method ComputeDistribution(processes: seq<CoreProcess>, window: nat, numCores: nat, numCoresPerSocket: nat,
                             ghost times: seq<seq<real>>)
    requires Timed(processes, times, window) && Busy(times, window)
    modifies processes`counts, processes`delta
    ensures Timed(processes, times, window)
    ensures |processes| == |times| && Distinct(processes) && forall p :: 0 <= p < |processes| ==>
      && |processes[p].counts| >= 1
      && processes[p].counts[0] == NewCounts(times, window, numCores, numCoresPerSocket)[p]
  {
    hide WindowCounts; hide StepRows;
    ghost var rows := StepRows(times, window, numCores, numCoresPerSocket);
    ComputeStepNumThreads(processes, window, numCores, numCoresPerSocket, times);
    forall p | 0 <= p < |processes| ensures processes[p].counts == rows[p] && |processes[p].delta| == window {
      assert HasColumnsOne(processes[p], rows[p], window) && TimedOne(processes[p], times[p], window);
      assert processes[p].counts == processes[p].counts[..window] && rows[p] == rows[p][..window];
    }
    ComputeAverageStepNumThreads(processes, window, numCores, numCoresPerSocket, rows);
    forall p | 0 <= p < |processes| ensures TimedOne(processes[p], times[p], window) {
      assert old(TimedOne(processes[p], times[p], window));
    }
  }

  /** core_prepare_processes. */
  method PrepareProcesses(processes: seq<CoreProcess>, ghost counts: seq<int>)
    requires Distinct(processes) && |counts| == |processes|
    requires forall p :: 0 <= p < |processes| ==> |processes[p].counts| >= 1 && processes[p].counts[0] == counts[p]
    modifies processes`numThreads, processes`prevNumThreads
    ensures forall p :: 0 <= p < |processes| ==>
      processes[p].numThreads == counts[p] && processes[p].prevNumThreads == old(processes[p].numThreads)
  {
    for i := 0 to |processes|
      invariant forall p :: 0 <= p < i ==>
        processes[p].numThreads == counts[p] && processes[p].prevNumThreads == old(processes[p].numThreads)
      invariant forall p :: i <= p < |processes| ==> processes[p].numThreads == old(processes[p].numThreads)
    {
      var process := processes[i];
      process.prevNumThreads := process.numThreads;
      process.numThreads := process.counts[0];
    }
  }
}
