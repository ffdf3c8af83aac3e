/** The record that core/sabo.c keeps of each process on the node (core/sabo_internal.h). */
module Processes {

  class CoreProcess {
    const nodeRank: nat

    var socketId: int
    var numThreads: int
    var prevSocketId: int
    var prevNumThreads: int

    /** Per window step: remainder of the share, accumulated OpenMP time, cores granted. */
    var delta: seq<real>
    var elapsed: seq<real>
    var counts: seq<int>

    /** Time measured per core since the last call. */
    var ompt: seq<real>

    constructor (nodeRank: nat, window: nat, numCores: nat, numThreads: int)
      ensures this.nodeRank == nodeRank && this.numThreads == numThreads
      ensures |elapsed| == |delta| == |counts| == window && |ompt| == numCores
      ensures socketId == prevSocketId == -1
    {
      this.nodeRank := nodeRank;
      ompt := seq(numCores, _ => 0.0);
      this.numThreads := numThreads;
      socketId, prevSocketId, prevNumThreads := -1, -1, -1;
      delta, elapsed := seq(window, _ => 0.0), seq(window, _ => 0.0);
      counts := seq(window, _ => 0);
    }
  }

  ghost predicate Distinct(processes: seq<CoreProcess>) {
    forall i, j :: 0 <= i < j < |processes| ==> processes[i] != processes[j]
  }
}
