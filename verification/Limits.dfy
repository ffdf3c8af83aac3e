/** Inputs on which core/sabo.c and common/decision_tree.c do less than their comments say, and exactly when the search
    fails on a single socket. */
module Limits {
  import opened Sums
  import opened Sorting
  import opened Placement
  import opened Search
  import opened Options
  import opened CallerOrder
  import opened Adjust
  import opened Apportion
  import opened Dispatch
  import opened Distribution
  import opened Pipeline

  // ---------------------------------------------------------------- one socket

  lemma {:induction false} OneSocketLoad(d: Demand, p: seq<nat>)
    requires Fits(d, p) && d.numSockets == 1
    ensures Loads(d, p) == [Sum(d.threads[..|p|])]
  {
    if p != [] {
      var k := |p| - 1;
      OneSocketLoad(d, p[..k]);
      SumTake(d.threads, k);
    }
  }

  /** On one socket a placement can be built exactly when all processes but the last fit. */
  lemma OneSocketAdmissible(d: Demand, p: seq<nat>)
    requires d.Valid() && d.numSockets == 1 && Complete(d, p) && |p| >= 1
    ensures Admissible(d, p) <==> Sum(d.threads[..|p|-1]) <= d.coresPerSocket
  {
    var last := |p| - 1;
    forall k | 0 <= k < |p| ensures Loads(d, p[..k])[p[k]] == Sum(d.threads[..k]) <= Sum(d.threads[..last]) {
      OneSocketLoad(d, p[..k]);
      assert d.threads[..last][..k] == d.threads[..k];
      SumOfPrefix(d.threads[..last], k);
    }
    if Admissible(d, p) {
      assert AdmissibleAt(d, p, last);
    }
  }

  /** On a node with one socket the search succeeds exactly for a lone process, or when the threads fill the socket
      and all but the last process (the largest, in the sorted order) fit on it. Otherwise it ends in the fatal error.
      */
  lemma OneSocketExactly(cfg: Config)
    requires cfg.Valid() && cfg.demand.numSockets == 1
    ensures var d := cfg.demand; var n := |d.threads|;
      Outcome(cfg).best.Some? <==>
        || n == 1
        || (Sum(d.threads[..n-1]) <= d.coresPerSocket <= Sum(d.threads))
  {
    var d := cfg.demand;
    var n := |d.threads|;
    SuccessExactly(cfg);
    forall a | Complete(d, a)
      ensures Admissible(d, a) <==> Sum(d.threads[..n-1]) <= d.coresPerSocket
      ensures Norme(d, a) != UNSET <==> d.coresPerSocket <= Sum(d.threads)
    {
      OneSocketAdmissible(d, a);
      OneSocketLoad(d, a);
      CostBound(d, a);
      assert d.threads[..n] == d.threads;
    }
    assert Complete(d, seq(n, _ => 0));
  }

  lemma {:induction false} OneSocketMembers(q: seq<nat>)
    requires forall k :: 0 <= k < |q| ==> q[k] == 0
    ensures |Members(q, 0)| == |q|
  {
    if q != [] {
      OneSocketMembers(q[..|q|-1]);
    }
  }

  /** On a node with one socket both adjustment loops end exactly if every rank can spare a thread in each round that
      the overload needs. */
  lemma OneSocketLoopsExactly(d: Demand, q: seq<nat>)
    requires d.Valid() && d.numSockets == 1 && |d.threads| >= 1 && Complete(d, q)
    ensures AllAdjustable(d, q) <==>
      forall i :: 0 <= i < |q| ==> Sum(d.threads) - d.coresPerSocket <= |q| * (d.threads[i] - 1)
  {
    hide AllAdjustable; hide Members; hide Sum; hide Loads;
    AllAdjustableExactly(d, q);
    OneSocketMembers(q);
    OneSocketLoad(d, q);
    assert d.threads[..|q|] == d.threads;
  }

  /** When a node with one socket gets through the search and the adjustment, told from the thread counts: the search
      has to find a placement, and every rank has to have the threads to spare. */
  lemma OneSocketEndsExactly(d: Demand)
    requires d.Valid() && d.numSockets == 1 && |d.threads| >= 1
    ensures ComputedPlacement(d).Some? <==>
      || |d.threads| == 1
      || (Sum(Sorted(d).threads[..|d.threads|-1]) <= d.coresPerSocket <= Sum(d.threads))
    ensures ComputedPlacement(d).Some? ==> Complete(d, ComputedPlacement(d).value)
    ensures ComputedPlacement(d).Some? ==>
      (AllAdjustable(d, ComputedPlacement(d).value) <==>
        forall i :: 0 <= i < |d.threads| ==>
          Sum(d.threads) - d.coresPerSocket <= |d.threads| * (d.threads[i] - 1))
  {
    hide Sum; hide AllAdjustable; hide SortOrder; hide Assign;
    SortedValid(d);
    var cfg := Setup(d, seq(|d.threads|, _ => -1));
    OneSocketExactly(cfg);
    if ComputedPlacement(d).Some? {
      OutcomeGenuine(cfg);
      AssignComplete(d, Outcome(cfg).best.value.sockets);
      OneSocketLoopsExactly(d, ComputedPlacement(d).value);
    }
  }

  // ---------------------------------------------------------------- near-idle processes

  /** The share of each process, in cores. */
  const SHARES: seq<real> := [3.0, 3.0, 3.0, 3.0, 3.0, 0.2, 0.2, 0.2, 0.2, 0.2]

  /** "Allocated cores are necessarily at most the total" (core/sabo.c:509) needs the condition of
      Apportion.ConservationExactly: a step on one socket of 16 cores with five busy and five near-idle processes is
      granted 20 cores. */
  lemma IdleProcessesExceedTotal()
    ensures RealSum(SHARES) == 16.0
    ensures StepGrant(SHARES, 16, 16).counts == [3, 3, 3, 3, 3, 1, 1, 1, 1, 1]
    ensures Sum(StepGrant(SHARES, 16, 16).counts) == 20
  {
    var g := BaseGrant(SHARES, 16);
    assert g.counts == [3, 3, 3, 3, 3, 1, 1, 1, 1, 1];
    TenSum(g.counts);
    TenRealSum(SHARES);
    NothingLeft(g, 16 - Sum(g.counts), 16);
  }

  /** And a window of that one step ends in the fatal error: the averages keep the 20 cores, and no placement can be
      built from them. */
  lemma IdleProcessesEndInError(times: seq<seq<real>>)
    requires |times| == 10 && forall p :: 0 <= p < 10 ==> times[p] == [SHARES[p]]
    ensures Busy(times, 1)
    ensures var d := Demand(1, 16, NewCounts(times, 1, 16, 16)); d.Valid() && ComputedPlacement(d).None?
  {
    hide RealSum; hide StepGrant; hide Sum; hide ComputedPlacement; hide Scale;
    IdleProcessesExceedTotal();
    assert Column(times, 0) == SHARES;
    SharesOfTotal(SHARES, 16);
    OneStepWindow(times, 16, 16);
    var counts := NewCounts(times, 1, 16, 16);
    var d := Demand(1, 16, counts);
    TenSum(counts);
    FailsOnOneSocket(d);
  }

  /** A window of one step hands on the counts of the step when it has granted no less than the total. */
  lemma OneStepWindow(times: seq<seq<real>>, total: int, cores: nat)
    requires Busy(times, 1)
    requires Sum(StepGrant(Shares(Column(times, 0), total), total, cores).counts) >= total
    ensures NewCounts(times, 1, total, cores) == StepGrant(Shares(Column(times, 0), total), total, cores).counts
  {
    hide RealSum; hide StepGrant; hide Sum; hide Shares;
    var counts := StepGrant(Shares(Column(times, 0), total), total, cores).counts;
    var rows := StepRows(times, 1, total, cores);
    forall p | 0 <= p < |times| ensures Mean(rows[p]).Floor == counts[p] {
      assert rows[p] == [counts[p]];
      SumOfOne(counts[p]);
    }
    var g := MeanGrant(rows, cores);
    assert g.counts == counts;
    NothingLeft(g, total - Sum(g.counts), cores);
  }

  lemma SumOfOne(x: int)
    ensures Sum([x]) == x
  {
    SumSnoc([], x);
  }

  /** As many time units as cores: the times are the shares. */
  lemma SharesOfTotal(times: seq<real>, total: int)
    requires RealSum(times) == total as real != 0.0
    ensures Shares(times, total) == times
  {
    hide RealSum;
    forall p | 0 <= p < |times| ensures Shares(times, total)[p] == times[p] {
      ScaleBack(times[p], total as real);
    }
  }

  lemma ScaleBack(time: real, sum: real)
    requires sum != 0.0
    ensures Scale(time, sum, sum) == time
  {
  }

  /** Ten processes of at most three threads each, 20 in all, cannot be placed on one socket of 16 cores. */
  lemma FailsOnOneSocket(d: Demand)
    requires d.Valid() && d.numSockets == 1 && d.coresPerSocket == 16 && |d.threads| == 10 && Sum(d.threads) == 20
    requires forall p :: 0 <= p < 10 ==> d.threads[p] <= 3
    ensures ComputedPlacement(d).None?
  {
    hide Sum;
    SortedValid(d);
    var sorted := Sorted(d).threads;
    SumTake(sorted, 9);
    assert sorted[..10] == sorted && sorted[9] <= 3;
    OneSocketExactly(Setup(d, seq(10, _ => -1)));
  }

  lemma TenSum(xs: seq<int>)
    requires |xs| == 10
    ensures Sum(xs) == xs[0] + xs[1] + xs[2] + xs[3] + xs[4] + xs[5] + xs[6] + xs[7] + xs[8] + xs[9]
  {
    hide Sum;
    SumNone(xs);
    SumTake(xs, 0); SumTake(xs, 1); SumTake(xs, 2); SumTake(xs, 3); SumTake(xs, 4);
    SumTake(xs, 5); SumTake(xs, 6); SumTake(xs, 7); SumTake(xs, 8); SumTake(xs, 9);
    assert xs[..10] == xs;
  }

  lemma RealSumNone(xs: seq<real>)
    ensures RealSum(xs[..0]) == 0.0
  {
  }

  lemma RealSumTake(xs: seq<real>, n: nat)
    requires n < |xs|
    ensures RealSum(xs[..n+1]) == RealSum(xs[..n]) + xs[n]
  {
    assert xs[..n+1][..n] == xs[..n];
  }

  lemma TenRealSum(xs: seq<real>)
    requires |xs| == 10
    ensures RealSum(xs) == xs[0] + xs[1] + xs[2] + xs[3] + xs[4] + xs[5] + xs[6] + xs[7] + xs[8] + xs[9]
  {
    hide RealSum;
    RealSumNone(xs);
    RealSumTake(xs, 0); RealSumTake(xs, 1); RealSumTake(xs, 2); RealSumTake(xs, 3); RealSumTake(xs, 4);
    RealSumTake(xs, 5); RealSumTake(xs, 6); RealSumTake(xs, 7); RealSumTake(xs, 8); RealSumTake(xs, 9);
    assert xs[..10] == xs;
  }

  /** With fewer near-idle processes the call can loop for ever instead: one busy and two near-idle ranks on one
      socket of four cores are granted 3, 1 and 1 threads; the search succeeds; and the first loop at
      core/sabo.c:674-684 stops at the first rank with one thread in every pass and frees no core. */
  lemma IdleProcessesLoopForEver(node: Node)
    requires node == Node(1, 4, 1, [[3.6], [0.2], [0.2]])
    ensures node.Valid() && Request(node).threads == [3, 1, 1]
    ensures ComputedPlacement(Request(node)).Some? && !Workable(node)
    ensures var counts := SortedCounts([3, 1, 1], ComputedPlacement(Request(node)).value, 0);
      !LoopsEnd(Socket(counts, 4 - Sum(counts)))
  {
    hide ComputedPlacement; hide Sum; hide NewCounts; hide AllAdjustable; hide SortedCounts; hide LoopsEnd;
    hide Request; hide Node.Valid;
    AsksForFive(node);
    LoopsForEver(Request(node));
  }

  lemma AsksForFive(node: Node)
    requires node == Node(1, 4, 1, [[3.6], [0.2], [0.2]])
    ensures node.Valid() && Request(node) == Demand(1, 4, [3, 1, 1])
  {
    hide Sum; hide NewCounts;
    var shares := [3.6, 0.2, 0.2];
    assert Column(node.times, 0) == shares;
    ThreeRealSum(shares);
    assert Measured(node.times, 1);
    SharesOfTotal(shares, 4);
    OneBusyTwoIdle(shares);
    OneStepWindow(node.times, 4, 4);
    ThreeSum([3, 1, 1]);
  }

  lemma LoopsForEver(d: Demand)
    requires d == Demand(1, 4, [3, 1, 1]) && d.Valid()
    ensures ComputedPlacement(d).Some? && !AllAdjustable(d, ComputedPlacement(d).value)
    ensures var counts := SortedCounts(d.threads, ComputedPlacement(d).value, 0);
      Complete(d, ComputedPlacement(d).value) && !LoopsEnd(Socket(counts, 4 - Sum(counts)))
  {
    hide ComputedPlacement; hide Sum; hide AllAdjustable; hide SortedCounts; hide LoopsEnd; hide Sorted;
    ThreeSum([3, 1, 1]);
    OneSocketEndsExactly(d);
    SmallSorted(d);
    assert Sum(d.threads) - 4 > |d.threads| * (d.threads[1] - 1);
    AllLoopsEndExactly(d, ComputedPlacement(d).value);
  }

  lemma OneBusyTwoIdle(shares: seq<real>)
    requires shares == [3.6, 0.2, 0.2]
    ensures StepGrant(shares, 4, 4).counts == [3, 1, 1] && Sum(StepGrant(shares, 4, 4).counts) == 5
  {
    var g := BaseGrant(shares, 4);
    assert g.counts == [3, 1, 1];
    ThreeSum(g.counts);
    NothingLeft(g, 4 - Sum(g.counts), 4);
  }

  lemma ThreeRealSum(xs: seq<real>)
    requires |xs| == 3
    ensures RealSum(xs) == xs[0] + xs[1] + xs[2]
  {
    hide RealSum;
    RealSumNone(xs);
    RealSumTake(xs, 0); RealSumTake(xs, 1); RealSumTake(xs, 2);
    assert xs[..3] == xs;
  }

  /** Without the largest of 3, 1 and 1 no more than four threads are left. */
  lemma SmallSorted(d: Demand)
    requires d.Valid() && d.threads == [3, 1, 1]
    ensures Sum(Sorted(d).threads[..2]) <= 4
  {
    SortedValid(d);
    ThreeSum([3, 1, 1]);
    var sorted := Sorted(d).threads;
    SumTake(sorted, 2);
    assert sorted[..3] == sorted && sorted[2] >= 1;
  }

  // ---------------------------------------------------------------- a share above a socket

  /** The cap at core/sabo.c:446 tests the floor only: a share of 4.8 on sockets of 4 cores is dispatched a fifth
      core. */
  lemma ShareAboveSocketExceedsCap(shares: seq<real>)
    requires shares == [4.8, 3.2]
    ensures StepGrant(shares, 8, 4).counts == [5, 3]
  {
    var g := BaseGrant(shares, 4);
    assert g.counts == [4, 3];
    assert g.deltas[0] > g.deltas[1];
    SumTake(g.counts, 0);
    SumTake(g.counts, 1);
    assert g.counts[..2] == g.counts;
    var r := GiveOne(g, 0, 4);
    assert Neediest(g, 1) == 0 && Neediest(g, 2) == 0;
    assert Dispatched(g, 1, 4) == Dispatched(r, 0, 4);
  }

  // ---------------------------------------------------------------- whole rounds

  /** The adjustment does not always match the number of cores: 3, 3 and 4 threads fill two sockets of 5 cores; the
      search puts the first two together; and that socket keeps its 6 threads. */
  lemma AdjustmentCanStayAbove(d: Demand)
    requires d == Demand(2, 5, [3, 3, 4])
    ensures d.Full() && ComputedPlacement(d).Some?
    ensures var q := ComputedPlacement(d).value;
      && Complete(d, q) && q[0] == q[1] != q[2]
      && Adjustable(SortedCounts(d.threads, q, q[0]), 5)
      && Sum(CountsOn(Final(d, q), q, q[0])) == 6
  {
    hide ComputedPlacement; hide SortedCounts; hide CountsOn;
    ThreeSum(d.threads);
    PlacementIsOptimal(d);
    var q := ComputedPlacement(d).value;
    SplitLoads(d, q);
    SplitLoads(d, [0, 0, 1]);
    assert Complete(d, [0, 0, 1]) && Cost(d, q) <= Cost(d, [0, 0, 1]);
    forall s | 0 <= s < 2 ensures Adjustable(SortedCounts(d.threads, q, s), 5) {
      OptimalIsAdjustable(d, q, s);
    }
    AdjustedSockets(d, q);
    FirstTwo(q);
  }

  lemma FirstTwo(q: seq<nat>)
    requires |q| == 3 && q[0] == q[1] != q[2]
    ensures |Members(q, q[0])| == 2
  {
    assert q[..3] == q && q[..2][..1] == q[..1] && q[..3][..2] == q[..2] && q[..1][..0] == [];
    assert Members(q[..1], q[0]) == [0];
    assert Members(q[..2], q[0]) == [0, 1];
  }

  lemma ThreeSum(xs: seq<int>)
    requires |xs| == 3
    ensures Sum(xs) == xs[0] + xs[1] + xs[2]
  {
    SumTake(xs, 0); SumTake(xs, 1); SumTake(xs, 2);
    assert xs[..3] == xs;
  }

  /** The load of a socket when three processes are placed. */
  lemma LoadOfThree(d: Demand, p: seq<nat>, s: nat)
    requires Complete(d, p) && |p| == 3 && s < d.numSockets
    ensures Loads(d, p)[s] == (if p[0] == s then d.threads[0] else 0)
      + (if p[1] == s then d.threads[1] else 0) + (if p[2] == s then d.threads[2] else 0)
  {
    hide Loads;
    LoadIsSum(d, p, s);
    ThreeSum(CallerOrder.Portions(d, p, s));
  }

  lemma SplitLoads(d: Demand, p: seq<nat>)
    requires d == Demand(2, 5, [3, 3, 4]) && Complete(d, p)
    ensures Cost(d, p) == if p[0] == p[1] then (if p[1] == p[2] then 5 else 1) else 2
    ensures p[0] == p[1] != p[2] ==> Loads(d, p)[p[0]] == 6
  {
    hide Loads;
    LoadOfThree(d, p, 0);
    LoadOfThree(d, p, 1);
    assert ExcessUpTo(Loads(d, p), 5, 1) == Max(0, Loads(d, p)[0] - 5);
  }

  // ---------------------------------------------------------------- free cores

  /** With cores to spare the search can return an oversubscribed placement although one without oversubscription
      exists: 3, 3 and 6 threads on two sockets of 10 cores all end up on one socket. Only a direct caller of
      decision_tree_compute_placement can ask for this; the distribution of core/sabo.c never leaves cores to spare.
      */
  lemma SpareCoresBreakOptimality(cfg: Config)
    requires cfg.Valid() && cfg.demand == Demand(2, 10, [3, 3, 6])
    ensures Outcome(cfg).best.Some? && Complete(cfg.demand, Outcome(cfg).best.value.sockets)
    ensures Cost(cfg.demand, Outcome(cfg).best.value.sockets) == 2
    ensures Cost(cfg.demand, [0, 0, 1]) == 0
  {
    var d := cfg.demand;
    ThreeLoads(d, [0, 0, 0]);
    ThreeLoads(d, [0, 0, 1]);
    TogetherAdmissible(d);
    assert Complete(d, [0, 0, 0]);
    SuccessExactly(cfg);
    OutcomeGenuine(cfg);
    OnlyRaised(cfg, [], 0, Track(UNSET, 0, None));
    ThreeLoads(d, Outcome(cfg).best.value.sockets);
  }

  lemma TogetherAdmissible(d: Demand)
    requires d == Demand(2, 10, [3, 3, 6])
    ensures Admissible(d, [0, 0, 0])
  {
    var p := [0, 0, 0];
    forall k | 0 <= k < 3 ensures AdmissibleAt(d, p, k) {
      assert p[..0] == [] && p[..1] == [0] && p[..2] == [0, 0];
      assert [0][..0] == [] && [0, 0][..1] == [0];
    }
  }

  lemma ThreeLoads(d: Demand, p: seq<nat>)
    requires d == Demand(2, 10, [3, 3, 6]) && Complete(d, p)
    ensures Cost(d, p) == if p[0] == p[1] == p[2] then 2 else 0
    ensures Norme(d, p) == if p[0] == p[1] == p[2] then -2 else UNSET
  {
    hide Loads;
    var l3 := Loads(d, p);
    LoadOfThree(d, p, 0);
    LoadOfThree(d, p, 1);
    assert ExcessUpTo(l3, 10, 1) == Max(0, l3[0] - 10);
    if p[0] == p[1] == p[2] {
      assert l3[p[0]] >= 10;
    }
  }
}
