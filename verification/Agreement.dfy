/** The barrier and the decision pipeline together: what the ranks decide apart from each other fits together. */
module Agreement {
  import opened Pipeline
  import opened Barrier

  /** The matrix of times that a receive buffer holds; a torn slot would hold none. */
  function Received(buffer: seq<Slot>): (times: seq<seq<real>>)
    ensures |times| == |buffer|
    ensures forall k :: 0 <= k < |buffer| ==> times[k] == if buffer[k].Full? then buffer[k].data else []
  {
    seq(|buffer|, k requires 0 <= k < |buffer| => if buffer[k].Full? then buffer[k].data else [])
  }

  /** The ranks that have come back from a round hold the same matrix, whose row k is what rank k contributed. */
  lemma RanksAgree(job: Job, s: State, i: nat, j: nat, round: nat)
    requires Reachable(job, s) && i < job.Size() && j < job.Size()
    requires round < |s.procs[i].out| && round < |s.procs[j].out|
    ensures round < job.rounds
    ensures Received(s.procs[i].out[round]) == Received(s.procs[j].out[round])
    ensures |Received(s.procs[i].out[round])| == job.Size()
    ensures forall k :: 0 <= k < job.Size() ==> Received(s.procs[i].out[round])[k] == job.input[k][round]
  {
    AllgatherReturnsAll(job, s, i, round);
    AllgatherReturnsAll(job, s, j, round);
  }

  /** The node as a rank sees it after a round. */
  function SeenBy(s: State, i: nat, round: nat, numSockets: nat, cores: nat, window: nat): Node
    requires i < |s.procs| && round < |s.procs[i].out|
  {
    Node(numSockets, cores, window, Received(s.procs[i].out[round]))
  }

  /** Two ranks that each rebalance from what they received in a round, at whatever moment of whatever run, never take
      the same core of a socket: each applies its own copy of the decision, and the lower rank's range ends first. */
  lemma IndependentRangesNeverCollide(job: Job, s: State, i: nat, j: nat, round: nat,
                                      numSockets: nat, cores: nat, window: nat)
    requires Reachable(job, s) && i < j < job.Size()
    requires round < |s.procs[i].out| && round < |s.procs[j].out|
    requires Workable(SeenBy(s, i, round, numSockets, cores, window))
    ensures var mine := SeenBy(s, i, round, numSockets, cores, window);
      var theirs := SeenBy(s, j, round, numSockets, cores, window);
      && Workable(theirs) && |mine.times| == |theirs.times| == job.Size()
      && (Sockets(mine)[i] == Sockets(theirs)[j] ==>
            && 0 <= FirstCore(mine, i)
            && FirstCore(mine, i) + Threads(mine)[i] <= FirstCore(theirs, j))
  {
    RanksAgree(job, s, i, j, round);
    var node := SeenBy(s, i, round, numSockets, cores, window);
    if Sockets(node)[i] == Sockets(node)[j] {
      RangesNeverCollide(node, i, j);
    }
  }

  /** The node that the contributions to a round describe. */
  function Contributed(job: Job, round: nat, numSockets: nat, cores: nat, window: nat): Node
    requires job.Valid() && round < job.rounds
  {
    Node(numSockets, cores, window, seq(job.Size(), k requires 0 <= k < job.Size() => job.input[k][round]))
  }

  /** Exchange and decision together, under every fair schedule: once everybody has had enough turns, every rank has
      come back from the round with the node that was contributed, and the ranges that two ranks of a socket take from
      it do not collide. */
  lemma FairRunsRebalance(job: Job, blocks: seq<seq<nat>>, i: nat, j: nat, round: nat,
                          numSockets: nat, cores: nat, window: nat)
    requires job.Valid() && i < j < job.Size() && round < job.rounds
    requires |blocks| >= TotalLeft(job, Start(job).procs) && forall b :: 0 <= b < |blocks| ==> Fair(job, blocks[b])
    requires Workable(Contributed(job, round, numSockets, cores, window))
    ensures InRange(job, Joined(blocks))
    ensures var s := Run(job, Start(job), Joined(blocks));
      var node := Contributed(job, round, numSockets, cores, window);
      && round < |s.procs[i].out| && round < |s.procs[j].out|
      && SeenBy(s, i, round, numSockets, cores, window) == SeenBy(s, j, round, numSockets, cores, window) == node
      && (Sockets(node)[i] == Sockets(node)[j] ==>
            0 <= FirstCore(node, i) && FirstCore(node, i) + Threads(node)[i] <= FirstCore(node, j))
  {
    hide Workable; hide TotalLeft; hide Sockets; hide Step; hide Fair;
    StartReachable(job);
    FairRunsFinish(job, Start(job), blocks);
    var s := Run(job, Start(job), Joined(blocks));
    assert Reachable(job, s);
    FinishedRunsAreComplete(job, s, i);
    FinishedRunsAreComplete(job, s, j);
    RanksAgree(job, s, i, j, round);
    var node := Contributed(job, round, numSockets, cores, window);
    assert SeenBy(s, i, round, numSockets, cores, window).times == node.times;
    IndependentRangesNeverCollide(job, s, i, j, round, numSockets, cores, window);
  }

  lemma StartReachable(job: Job)
    requires job.Valid()
    ensures Reachable(job, Start(job)) && Sized(job, Start(job))
  {
    assert Run(job, Start(job), []) == Start(job);
  }

  /** Such a job and such a schedule: three ranks, one of them near idle, exchange a window of one step, taking turns.
      */
  lemma BusyAndIdleRanksRebalance(job: Job) returns (blocks: seq<seq<nat>>)
    requires job == Job(1, [[[2.5]], [[1.25]], [[0.25]]])
    ensures job.Valid() && Workable(Contributed(job, 0, 1, 4, 1))
    ensures |blocks| >= TotalLeft(job, Start(job).procs) && forall b :: 0 <= b < |blocks| ==> Fair(job, blocks[b])
  {
    hide Workable;
    assert Contributed(job, 0, 1, 4, 1).times == [[2.5], [1.25], [0.25]];
    BusyAndIdleRanksWork(Contributed(job, 0, 1, 4, 1));
    var turns: seq<nat> := [0, 1, 2];
    TakesTurns(job, turns);
    var left := TotalLeft(job, Start(job).procs);
    blocks := seq(if left < 0 then 0 else left, _ => turns);
  }

  lemma TakesTurns(job: Job, turns: seq<nat>)
    requires job.Size() == 3 && turns == [0, 1, 2]
    ensures Fair(job, turns)
  {
    assert turns[0] == 0 && turns[1] == 1 && turns[2] == 2;
  }
}
