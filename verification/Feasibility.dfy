/** When the search of common/decision_tree.c succeeds and when it finds an optimum, in terms of the thread counts
    alone. The search sorts the processes by thread count first; here the demand is in that order. */
module Feasibility {
  import opened Sums
  import opened Placement
  import opened Search
  import opened CallerOrder

  ghost predicate AscendingThreads(d: Demand) {
    forall i, j :: 0 <= i < j < |d.threads| ==> d.threads[i] <= d.threads[j]
  }

  ghost predicate Covers(d: Demand, p: seq<nat>) {
    Complete(d, p) && forall s :: 0 <= s < d.numSockets ==> Loads(d, p)[s] >= d.coresPerSocket
  }

  function NumCores(d: Demand): nat {
    d.numSockets * d.coresPerSocket
  }

  // ---------------------------------------------------------------- threads that fit

  /** A placement of the first n processes that adds to no overfull socket and turns away from socket 0 only once that
      is overfull. */
  lemma {:induction false} Greedy(d: Demand, n: nat) returns (p: seq<nat>)
    requires d.Fitting() && n <= |d.threads|
    ensures Admissible(d, p) && |p| == n
    ensures Loads(d, p)[0] >= d.coresPerSocket || Loads(d, p)[0] == Sum(d.threads[..n])
  {
    if n == 0 {
      p := [];
    } else {
      hide Loads; hide Sum; hide Admissible; hide Demand.Fitting;
      var q := Greedy(d, n - 1);
      var s := NextSocket(d, q);
      SumTake(d.threads, n - 1);
      p := q + [s];
      LoadsSnoc(d, q, s);
    }
  }

  /** Socket 0 unless it is overfull, then one with a free core. */
  lemma NextSocket(d: Demand, q: seq<nat>) returns (s: nat)
    requires d.Fitting() && Admissible(d, q) && |q| < |d.threads|
    ensures s < d.numSockets && Loads(d, q)[s] <= d.coresPerSocket && Admissible(d, q + [s]) && d.Valid()
    ensures Loads(d, q)[0] <= d.coresPerSocket ==> s == 0
  {
    hide Loads; hide Sum;
    s := 0;
    if Loads(d, q)[0] > d.coresPerSocket {
      LoadsTotal(d, q);
      SumOfPrefix(d.threads, |q|);
      s := SpareSocket(Loads(d, q), d.coresPerSocket, 0);
    }
    AdmissibleStep(d, q, s);
  }

  lemma LoadsSnoc(d: Demand, q: seq<nat>, s: nat)
    requires Fits(d, q) && |q| < |d.threads| && s < d.numSockets
    ensures Loads(d, q + [s]) == Loads(d, q)[s := Loads(d, q)[s] + d.threads[|q|]]
  {
    var p := q + [s];
    assert p[..|q|] == q && p[|q|] == s;
  }

  /** A full socket holds no more than all threads. */
  lemma FullNeedsThreads(d: Demand, p: seq<nat>)
    requires d.Valid() && Complete(d, p) && SomeFull(Loads(d, p), d.coresPerSocket)
    ensures Sum(d.threads) >= d.coresPerSocket
  {
    var loads := Loads(d, p);
    var s :| 0 <= s < |loads| && loads[s] >= d.coresPerSocket;
    forall i | 0 <= i < |loads| ensures loads[i] >= 0 {
      LoadsNonNegative(d, p, i);
    }
    SumOfPrefix(loads, s);
    SumOfPrefix(loads, s + 1);
    SumTake(loads, s);
    SumOfPrefix(loads[..s+1], s);
    LoadsTotal(d, p);
    assert d.threads[..|p|] == d.threads;
  }

  /** When there are no more threads than cores, the search succeeds exactly if they would fill one socket. */
  lemma SuccessWhenFitting(cfg: Config)
    requires cfg.Valid() && cfg.demand.Fitting() && |cfg.demand.threads| >= 2
    ensures Outcome(cfg).best.Some? <==> Sum(cfg.demand.threads) >= cfg.demand.coresPerSocket
  {
    var d := cfg.demand;
    SuccessExactly(cfg);
    if a :| Complete(d, a) && Admissible(d, a) && Norme(d, a) != UNSET {
      FullNeedsThreads(d, a);
    }
    if Sum(d.threads) >= d.coresPerSocket {
      var p := Greedy(d, |d.threads|);
      assert d.threads[..|d.threads|] == d.threads;
      CostBound(d, p);
      assert Norme(d, p) != UNSET;
    }
  }

  // ---------------------------------------------------------------- any number of threads

  /** All but the S largest processes are placed with no socket above its cores. */
  ghost predicate Packs(d: Demand, q: seq<nat>) {
    && Fits(d, q)
    && |q| == Max(0, |d.threads| - d.numSockets)
    && forall s :: 0 <= s < d.numSockets ==> Loads(d, q)[s] <= d.coresPerSocket
  }

  /** A packing extended by one process on each of the first j sockets. */
  lemma {:induction false} Spread(d: Demand, q: seq<nat>, j: nat) returns (a: seq<nat>)
    requires d.Valid() && Packs(d, q) && j <= d.numSockets && |q| + j <= |d.threads|
    ensures Admissible(d, a) && |a| == |q| + j
    ensures forall s :: j <= s < d.numSockets ==> Loads(d, a)[s] <= d.coresPerSocket
  {
    if j == 0 {
      a := q;
      forall k | 0 <= k < |q| ensures AdmissibleAt(d, q, k) {
        LoadsGrow(d, q, k, q[k]);
      }
    } else {
      var b := Spread(d, q, j - 1);
      AdmissibleStep(d, b, j - 1);
      a := b + [j - 1];
      assert a[..|b|] == b;
    }
  }

  /** Process k is the last one on its socket. */
  ghost predicate LastOn(a: seq<nat>, k: nat)
    requires k < |a|
  {
    forall j :: k < j < |a| ==> a[j] != a[k]
  }

  /** Threads on socket s of the first k processes, without the last process of the socket. */
  ghost function KeptLoad(d: Demand, a: seq<nat>, k: nat, s: nat): int
    requires Fits(d, a) && k <= |a|
  {
    if k == 0 then 0
    else KeptLoad(d, a, k - 1, s) + if a[k-1] == s && !LastOn(a, k - 1) then d.threads[k-1] else 0
  }

  ghost function KeptCount(a: seq<nat>, k: nat): (n: nat)
    requires k <= |a|
    ensures n <= k
  {
    if k == 0 then 0 else KeptCount(a, k - 1) + if LastOn(a, k - 1) then 0 else 1
  }

  /** The sockets whose last process is among the first k. */
  ghost function Closed(a: seq<nat>, k: nat): (sockets: set<nat>)
    requires k <= |a|
    ensures forall s :: s in sockets ==> exists j :: 0 <= j < k && a[j] == s && LastOn(a, j)
  {
    if k == 0 then {} else if LastOn(a, k - 1) then Closed(a, k - 1) + {a[k-1]} else Closed(a, k - 1)
  }

  lemma NotClosedBefore(a: seq<nat>, k: nat)
    requires 0 < k <= |a|
    ensures a[k-1] !in Closed(a, k - 1)
  {
    var before := Closed(a, k - 1);
    forall s | s in before ensures s != a[k-1] {
      var j :| 0 <= j < k - 1 && a[j] == s && LastOn(a, j);
    }
  }

  lemma {:induction false} ClosedCount(a: seq<nat>, k: nat)
    requires k <= |a|
    ensures |Closed(a, k)| == k - KeptCount(a, k)
  {
    if k > 0 {
      ClosedCount(a, k - 1);
      var before := Closed(a, k - 1);
      hide LastOn;
      assert LastOn(a, k - 1) ==> a[k-1] !in before by {
        NotClosedBefore(a, k);
      }
      assert a[k-1] !in before ==> |before + {a[k-1]}| == |before| + 1;
    }
  }

  lemma {:induction false} SmallSet(sockets: set<nat>, n: nat)
    requires forall s :: s in sockets ==> s < n
    ensures |sockets| <= n
  {
    if n > 0 {
      SmallSet(sockets - {n - 1}, n - 1);
    }
  }

  lemma {:induction false} KeptAtMost(d: Demand, a: seq<nat>, k: nat, s: nat)
    requires d.Valid() && Fits(d, a) && k <= |a| && s < d.numSockets
    ensures KeptLoad(d, a, k, s) <= Loads(d, a[..k])[s]
  {
    if k > 0 {
      KeptAtMost(d, a, k - 1, s);
      assert a[..k][..k-1] == a[..k-1];
    }
  }

  /** Without the last process on each socket an admissible placement is within the cores. */
  lemma {:induction false} KeptWithin(d: Demand, a: seq<nat>, k: nat, s: nat)
    requires d.Valid() && Admissible(d, a) && k <= |a| && s < d.numSockets
    ensures KeptLoad(d, a, k, s) <= d.coresPerSocket
  {
    if k > 0 {
      KeptWithin(d, a, k - 1, s);
      if a[k-1] == s && !LastOn(a, k - 1) {
        var j :| k - 1 < j < |a| && a[j] == a[k-1];
        KeptAtMost(d, a, k, s);
        assert a[..j][..k] == a[..k];
        LoadsGrow(d, a[..j], k, s);
        assert AdmissibleAt(d, a, j);
      }
    }
  }

  /** As many of the smallest processes fit in the place of the kept ones. */
  lemma {:induction false} Compress(d: Demand, a: seq<nat>, k: nat) returns (q: seq<nat>)
    requires d.Valid() && AscendingThreads(d) && Fits(d, a) && k <= |a|
    ensures Fits(d, q) && |q| == KeptCount(a, k)
    ensures forall s :: 0 <= s < d.numSockets ==> Loads(d, q)[s] <= KeptLoad(d, a, k, s)
  {
    if k == 0 {
      q := [];
    } else {
      var r := Compress(d, a, k - 1);
      if LastOn(a, k - 1) {
        q := r;
      } else {
        q := r + [a[k-1]];
        assert q[..|r|] == r;
        assert d.threads[|r|] <= d.threads[k-1];
      }
    }
  }

  /** What an admissible placement leaves when the last process on each socket is taken off can be packed. */
  lemma AdmissiblePacks(d: Demand, a: seq<nat>) returns (q: seq<nat>)
    requires d.Valid() && AscendingThreads(d) && Complete(d, a) && Admissible(d, a)
    ensures Packs(d, q)
  {
    hide Loads; hide KeptLoad; hide KeptCount; hide Closed; hide Admissible;
    var n := |a|;
    var r := Compress(d, a, n);
    ClosedCount(a, n);
    SmallSet(Closed(a, n), d.numSockets);
    q := r[..Max(0, n - d.numSockets)];
    forall s | 0 <= s < d.numSockets ensures Loads(d, q)[s] <= d.coresPerSocket {
      LoadsGrow(d, r, |q|, s);
      KeptWithin(d, a, n, s);
    }
  }

  /** Exactly when the fatal error is avoided, in terms of the sorted thread counts: there is one process only; or the
      threads would fill one socket, and all but the S largest processes can be packed into the cores. */
  lemma SuccessSorted(cfg: Config)
    requires cfg.Valid() && AscendingThreads(cfg.demand)
    ensures Outcome(cfg).best.Some? <==>
      || |cfg.demand.threads| == 1
      || (Sum(cfg.demand.threads) >= cfg.demand.coresPerSocket && exists q :: Packs(cfg.demand, q))
  {
    var d := cfg.demand;
    SuccessExactly(cfg);
    if a :| Complete(d, a) && Admissible(d, a) && Norme(d, a) != UNSET {
      FullNeedsThreads(d, a);
      var q := AdmissiblePacks(d, a);
    }
    if |d.threads| >= 2 && Sum(d.threads) >= d.coresPerSocket {
      if Sum(d.threads) <= NumCores(d) {
        SuccessWhenFitting(cfg);
      } else if q :| Packs(d, q) {
        var a := Spread(d, q, |d.threads| - |q|);
        FullSocket(d, a);
      }
    }
  }

  // ---------------------------------------------------------------- no fewer threads than cores

  /** Moving a process to a socket with a free core keeps a sorted placement admissible. */
  lemma MoveToFree(d: Demand, b: seq<nat>, y: nat, s: nat)
    requires d.Valid() && AscendingThreads(d) && Complete(d, b) && Admissible(d, b)
    requires y < |b| && s < d.numSockets && s != b[y] && Loads(d, b)[s] < d.coresPerSocket
    ensures Complete(d, b[y := s]) && Admissible(d, b[y := s])
  {
    hide Loads;
    var c := b[y := s];
    forall k | 0 <= k < |c| ensures AdmissibleAt(d, c, k) {
      assert AdmissibleAt(d, b, k);
      if k <= y {
        assert c[..k] == b[..k];
        LoadsGrow(d, b, k, s);
      } else {
        assert c[..k] == b[..k][y := s];
        LoadsMove(d, b[..k], y, s);
        LoadsAfter(d, b, k);
      }
    }
  }

  /** A socket with a smaller load lacks a process. */
  lemma {:induction false} Missing(d: Demand, b: seq<nat>, p: seq<nat>, s: nat) returns (y: nat)
    requires d.Valid() && Fits(d, b) && Fits(d, p) && |b| == |p| && s < d.numSockets
    requires Loads(d, b)[s] < Loads(d, p)[s]
    ensures y < |p| && p[y] == s && b[y] != s
  {
    var k := |p| - 1;
    if p[k] == s && b[k] != s {
      y := k;
    } else {
      y := Missing(d, b[..k], p[..k], s);
    }
  }

  /** Whatever can be built can be rearranged so that no core is free, if that is possible at all. */
  lemma {:induction false} Rearrange(d: Demand, b: seq<nat>, p: seq<nat>) returns (c: seq<nat>)
    requires d.Valid() && AscendingThreads(d) && Complete(d, b) && Admissible(d, b) && Covers(d, p)
    ensures Admissible(d, c) && Covers(d, c)
    decreases Moves(b, p)
  {
    if s :| 0 <= s < d.numSockets && Loads(d, b)[s] < d.coresPerSocket {
      var y := Missing(d, b, p, s);
      MoveToFree(d, b, y, s);
      MovesUpdate(b, p, y);
      c := Rearrange(d, b[y := s], p);
    } else {
      c := b;
    }
  }

  lemma {:induction false} ExcessAtLeast(loads: seq<int>, cores: int, n: nat)
    requires n <= |loads|
    ensures ExcessUpTo(loads, cores, n) >= Sum(loads[..n]) - n * cores
    ensures (forall s :: 0 <= s < n ==> loads[s] >= cores) ==>
      ExcessUpTo(loads, cores, n) == Sum(loads[..n]) - n * cores
  {
    if n > 0 {
      ExcessAtLeast(loads, cores, n - 1);
      SumTake(loads, n - 1);
    }
  }

  lemma CostAtLeast(d: Demand, p: seq<nat>)
    requires Complete(d, p)
    ensures Cost(d, p) >= Sum(d.threads) - NumCores(d)
    ensures Covers(d, p) ==> Cost(d, p) == Sum(d.threads) - NumCores(d)
  {
    var loads := Loads(d, p);
    LoadsTotal(d, p);
    assert d.threads[..|p|] == d.threads;
    hide Sum; hide Loads; hide ExcessUpTo;
    ExcessAtLeast(loads, d.coresPerSocket, d.numSockets);
    assert loads[..d.numSockets] == loads;
  }

  lemma {:induction false} OptimalExists(d: Demand, p: seq<nat>) returns (a: seq<nat>)
    requires Complete(d, p)
    ensures Optimal(d, a)
    decreases Cost(d, p)
  {
    if r :| Complete(d, r) && Cost(d, r) < Cost(d, p) {
      a := OptimalExists(d, r);
    } else {
      a := p;
    }
  }

  /** An optimal placement that the search would not build leaves no core free. */
  lemma InadmissibleCovers(d: Demand, a: seq<nat>)
    requires d.Valid() && Optimal(d, a) && !Admissible(d, a)
    ensures Covers(d, a)
  {
    var k :| 0 <= k < |a| && !AdmissibleAt(d, a, k);
    LoadsAfter(d, a, k);
    if s :| 0 <= s < d.numSockets && Loads(d, a)[s] < d.coresPerSocket {
      CostOfMove(d, a, k, s, Loads(d, a));
      assert Complete(d, a[k := s]);
      assert false;
    }
  }

  /** With no fewer threads than cores, sorted, a search that succeeds is optimal: near-idle processes can make the
      search fail, but not make its result worse than it has to be. */
  lemma CrowdedIsOptimal(cfg: Config)
    requires cfg.Valid() && AscendingThreads(cfg.demand) && |cfg.demand.threads| >= 2
    requires Sum(cfg.demand.threads) >= NumCores(cfg.demand) && Outcome(cfg).best.Some?
    ensures Optimal(cfg.demand, Outcome(cfg).best.value.sockets)
  {
    var d, best := cfg.demand, Outcome(cfg).best.value.sockets;
    OutcomeGenuine(cfg);
    var a := OptimalExists(d, best);
    if !Admissible(d, a) {
      InadmissibleCovers(d, a);
      var c := Rearrange(d, best, a);
      CostAtLeast(d, a);
      CostAtLeast(d, c);
      a := c;
    }
    FullSocket(d, a);
    OptimalExactly(cfg);
  }

  /** Exactly when a search that succeeds is optimal, for all sorted demands: some optimal placement fills a socket,
      because a placement without a full socket has no norme to be accepted by. A lone process is on the best socket
      anyway, and no fewer threads than cores always fill one. */
  lemma OptimalSorted(cfg: Config)
    requires cfg.Valid() && AscendingThreads(cfg.demand) && Outcome(cfg).best.Some?
    ensures Optimal(cfg.demand, Outcome(cfg).best.value.sockets) <==>
      || |cfg.demand.threads| == 1
      || exists a :: Optimal(cfg.demand, a) && Norme(cfg.demand, a) != UNSET
  {
    var d, best := cfg.demand, Outcome(cfg).best.value.sockets;
    OutcomeGenuine(cfg);
    if |d.threads| == 1 {
      forall q | Complete(d, q) ensures Cost(d, best) <= Cost(d, q) {
        ExchangeKeeps(d, q, q[0], best[0]);
        assert ExchangeAll(q, q[0], best[0]) == best;
      }
    } else {
      OptimalExactly(cfg);
      if a :| Optimal(d, a) && Norme(d, a) != UNSET {
        if Sum(d.threads) >= NumCores(d) {
          CrowdedIsOptimal(cfg);
        } else if !Admissible(d, a) {
          var better := InadmissibleImproves(d, a);
          assert false;
        }
      }
    }
  }

  // ---------------------------------------------------------------- in the order of the ranks

  lemma SortedAscends(d: Demand)
    requires d.Valid()
    ensures AscendingThreads(Sorted(d)) && Sorted(d).Valid() && Sum(Sorted(d).threads) == Sum(d.threads)
  {
    SortedValid(d);
  }

  /** Exactly when decision_tree_compute_placement does not stop the program, for the processes in any order. */
  lemma PlacedExactly(d: Demand)
    requires d.Valid() && |d.threads| >= 1
    ensures ComputedPlacement(d).Some? <==>
      || |d.threads| == 1
      || (Sum(d.threads) >= d.coresPerSocket && exists q :: Packs(Sorted(d), q))
    ensures d.Fitting() && |d.threads| >= 2 ==> (ComputedPlacement(d).Some? <==> Sum(d.threads) >= d.coresPerSocket)
  {
    SortedAscends(d);
    var cfg := Setup(d, seq(|d.threads|, _ => -1));
    SuccessSorted(cfg);
    if d.Fitting() && |d.threads| >= 2 {
      SuccessWhenFitting(cfg);
    }
  }

  /** Near-idle processes leave more threads than cores; what the search then returns, if anything, is still optimal. */
  lemma CrowdedPlacementIsOptimal(d: Demand)
    requires d.Valid() && |d.threads| >= 2 && Sum(d.threads) >= NumCores(d) && ComputedPlacement(d).Some?
    ensures Optimal(d, ComputedPlacement(d).value)
  {
    SortedAscends(d);
    var cfg := Setup(d, seq(|d.threads|, _ => -1));
    CrowdedIsOptimal(cfg);
    OptimalInCallerOrder(d, Outcome(cfg).best.value.sockets);
  }
}
