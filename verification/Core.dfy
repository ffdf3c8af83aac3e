/** The balancing call of core/sabo.c over its context: the ring of measurements and the exchange of the window. */
module Core {
  import opened Apportion
  import opened Distribution
  import opened Processes
  import opened CoreCounters
  import opened CoreSockets
  import opened Window
  import opened Schedule

  class CoreContext {
    const numSockets: nat
    const numCoresPerSocket: nat
    const numCores: nat
    const window: nat
    const nodeRank: nat
    const nodeCommSize: nat

    var initOnce: bool
    var step: nat
    var myprocess: CoreProcess
    var processes: seq<CoreProcess>

    /** The sum that each call gathered. */
    ghost var history: seq<real>

    /** The local ring holds the sums of the last calls; once initialised, the local process is the record of its
        rank. */
    ghost predicate Valid()
      reads this, myprocess, processes
    {
      && 1 <= window <= numCores == numSockets * numCoresPerSocket && nodeRank < nodeCommSize
      && |myprocess.ompt| == numCores
      && Ring(myprocess.elapsed, history, |history|, window)
      && (|history| == step || |history| == step + 1)
      && (initOnce ==> Initialised())
    }

    ghost predicate Initialised()
      reads this, processes
    {
      && |processes| == nodeCommSize && Distinct(processes) && Ranked(processes)
      && nodeRank < nodeCommSize && myprocess == processes[nodeRank]
      && forall i :: 0 <= i < |processes| ==> |processes[i].counts| == |processes[i].delta| == window
    }

    /** sabo_core_init: one record of its own to collect measurements. */
    constructor (numSockets: nat, numCoresPerSocket: nat, window: nat, nodeRank: nat, nodeCommSize: nat)
      requires 1 <= window <= numSockets * numCoresPerSocket && nodeRank < nodeCommSize
      ensures Valid() && step == 0 && !initOnce && history == []
    {
      this.numSockets := numSockets;
      this.numCoresPerSocket := numCoresPerSocket;
      this.numCores := numSockets * numCoresPerSocket;
      this.window := window;
      this.nodeRank := nodeRank;
      this.nodeCommSize := nodeCommSize;
      initOnce, step, processes, history := false, 0, [], [];
      myprocess := new CoreProcess(0, window, numSockets * numCoresPerSocket, -1);
    }

    /** core_gather_ompt_counters: the call's sum goes into its slot of the ring. */
    method GatherOmptCounters()
      requires Valid() && |history| == step
      modifies this`history, myprocess`elapsed
      ensures Valid() && |history| == step + 1
      ensures history == old(history) + [RealSum(myprocess.ompt)]
      ensures myprocess.elapsed == old(myprocess.elapsed)[step % window := RealSum(myprocess.ompt)]
    {
      var slot := step % window;
      var sum := SumAll(myprocess.ompt);
      RingStep(myprocess.elapsed, history, step, window, sum);
      myprocess.elapsed := myprocess.elapsed[slot := sum];
      history := history + [sum];
    }

    method SumAll(xs: seq<real>) returns (sum: real)
      ensures sum == RealSum(xs)
    {
      sum := 0.0;
      for i := 0 to |xs|
        invariant sum == RealSum(xs[..i])
      {
        assert xs[..i+1][..i] == xs[..i];
        sum := sum + xs[i];
      }
      assert xs[..|xs|] == xs;
    }

    /** core_init_context: the first time, records for all ranks are made and the local one moves into them. */
    method InitContext()
      requires Valid() && |history| == step + 1
      modifies this`initOnce, this`processes, this`myprocess
      ensures Valid() && initOnce && history == old(history)
      ensures myprocess.elapsed == old(myprocess.elapsed)
      ensures old(initOnce) ==> myprocess == old(myprocess) && processes == old(processes)
      ensures !old(initOnce) ==> fresh(processes) && fresh(myprocess)
    {
      if initOnce {
        return;
      }
      var records := NewRecords();
      var mine, tmp := records[nodeRank], myprocess;
      for i := 0 to window
        invariant |mine.ompt| == numCores && |mine.elapsed| == window
        invariant mine.elapsed[..i] == tmp.elapsed[..i]
        invariant forall k :: 0 <= k < |records| ==> |records[k].counts| == |records[k].delta| == window
      {
        mine.ompt := mine.ompt[i := tmp.ompt[i]];
        mine.elapsed := mine.elapsed[i := tmp.elapsed[i]];
      }
      assert mine.elapsed[..window] == mine.elapsed && tmp.elapsed[..window] == tmp.elapsed;
      processes := records;
      myprocess := mine;
      initOnce := true;
    }

    method NewRecords() returns (records: seq<CoreProcess>)
      ensures fresh(records) && |records| == nodeCommSize && Distinct(records) && Ranked(records)
      ensures forall k :: 0 <= k < |records| ==>
        && |records[k].counts| == |records[k].delta| == |records[k].elapsed| == window
        && |records[k].ompt| == numCores
    {
      records := [];
      for i := 0 to nodeCommSize
        invariant fresh(records) && |records| == i && Distinct(records) && Ranked(records)
        invariant forall k :: 0 <= k < i ==>
          && |records[k].counts| == |records[k].delta| == |records[k].elapsed| == window
          && |records[k].ompt| == numCores
      {
        var process := new CoreProcess(i, window, numCores, -1);
        records := records + [process];
      }
    }

    /** The first exchange of sabo_exchange_process_step_data: what the allgather returned goes into the records. The
        row of the local rank is what it contributed. */
    method ExchangeStepData(received: seq<seq<real>>)
      requires Valid() && initOnce && Matrix(received, window) && |received| == nodeCommSize
      requires received[nodeRank] == myprocess.elapsed
      modifies processes`elapsed
      ensures Valid() && Timed(processes, received, window)
      ensures myprocess.elapsed == old(myprocess.elapsed)
    {
      for i := 0 to nodeCommSize
        invariant forall k :: 0 <= k < i ==> processes[k].elapsed == received[k]
        invariant myprocess.elapsed == old(myprocess.elapsed)
      {
        processes[i].elapsed := received[i];
      }
    }

    /** The balancing call up to the point where it rebalances or leaves. When it goes on, slot w of the local ring
        holds the sum of the last call that used it: the ring is exactly the last `window` calls. */
    method BeginCall(communicates: bool, stepbal: nat, periodic: bool, received: seq<seq<real>>) returns (compute: bool)
      requires Valid() && |history| == step && stepbal >= 1
      requires Matrix(received, window) && |received| == nodeCommSize
      requires received[nodeRank] == myprocess.elapsed[step % window := RealSum(myprocess.ompt)]
      modifies this, myprocess`elapsed, processes`elapsed
      ensures Valid() && step == old(step) && history == old(history) + [old(RealSum(myprocess.ompt))]
      ensures processes == old(processes) || fresh(processes)
      ensures myprocess == old(myprocess) || fresh(myprocess)
      ensures compute <==> communicates && Computes(step, stepbal, periodic, window)
      ensures compute ==> initOnce && Timed(processes, received, window)
      ensures compute ==>
        myprocess.elapsed == received[nodeRank] && LastCalls(received[nodeRank], history, step, window)
    {
      GatherOmptCounters();
      compute := false;
      if !communicates || !Computes(step, stepbal, periodic, window) {
        return;
      }
      InitContext();
      ExchangeStepData(received);
      compute := true;
      FullRing(myprocess.elapsed, history, step, window);
    }

    /** The end of every call: the next step begins with cleared measurements. */
    method EndCall()
      requires Valid() && |history| == step + 1
      modifies this`step, myprocess`ompt
      ensures Valid() && step == old(step) + 1 && history == old(history)
      ensures myprocess.ompt == seq(numCores, _ => 0.0)
    {
      step := step + 1;
      myprocess.ompt := seq(numCores, _ => 0.0);
    }
  }
}
