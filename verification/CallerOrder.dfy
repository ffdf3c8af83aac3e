/** From the sorted order in which the search places processes back to the order of the caller's array. */
module CallerOrder {
  import opened Sums
  import opened Sorting
  import opened Placement
  import opened Search
  import opened Options

  /** The same demand with the processes sorted by thread count (common/decision_tree.c:169-173). */
  function Sorted(d: Demand): Demand {
    d.(threads := Pick(d.threads, SortOrder(d.threads)))
  }

  /** The search of a demand whose processes ran on the given sockets before. */
  ghost function Setup(d: Demand, previous: seq<int>): (cfg: Config)
    requires d.Valid() && |d.threads| >= 1 && |previous| == |d.threads|
    ensures cfg.Valid() && cfg.demand.numSockets == d.numSockets && cfg.demand.coresPerSocket == d.coresPerSocket
    ensures |cfg.demand.threads| == |d.threads|
  {
    SortedValid(d);
    Config(Sorted(d), Pick(previous, SortOrder(d.threads)), true)
  }

  /** What the search computes from thread counts alone: the socket of each process, in the caller's order. */
  ghost function ComputedPlacement(d: Demand): Option<seq<nat>>
    requires d.Valid() && |d.threads| >= 1
  {
    var cfg := Setup(d, seq(|d.threads|, _ => -1));
    OutcomeGenuine(cfg);
    match Outcome(cfg).best
    case None => None
    case Some(leaf) => Some(Assign<nat>(SortOrder(d.threads), leaf.sockets))
  }

  /** The value that a permutation sends to place i. */
  ghost function Assign<T>(order: seq<nat>, values: seq<T>): (q: seq<T>)
    requires Permutation(order) && |values| == |order|
    ensures |q| == |order| && forall k :: 0 <= k < |order| ==> q[order[k]] == values[k]
  {
    seq(|order|, i requires 0 <= i < |order| => values[PlaceOf(order, i)])
  }

  ghost function PlaceOf(order: seq<nat>, i: nat): (k: nat)
    requires Permutation(order) && i < |order|
    ensures k < |order| && order[k] == i
  {
    assert i in order;
    var k :| 0 <= k < |order| && order[k] == i;
    k
  }

  lemma SortedValid(d: Demand)
    requires d.Valid()
    ensures Sorted(d).Valid() && Sum(Sorted(d).threads) == Sum(d.threads)
  {
    SumOfPicked(d.threads, d.threads);
  }

  /** What socket s gets from each process. */
  ghost function Portions(d: Demand, p: seq<nat>, s: nat): (portions: seq<int>)
    requires Fits(d, p)
    ensures |portions| == |p|
  {
    seq(|p|, k requires 0 <= k < |p| => if p[k] == s then d.threads[k] else 0)
  }

  lemma {:induction false} LoadIsSum(d: Demand, p: seq<nat>, s: nat)
    requires Fits(d, p) && s < d.numSockets
    ensures Loads(d, p)[s] == Sum(Portions(d, p, s))
  {
    if p != [] {
      var k := |p| - 1;
      LoadIsSum(d, p[..k], s);
      assert Portions(d, p, s)[..k] == Portions(d, p[..k], s);
    }
  }

  lemma SortedComplete(d: Demand, q: seq<nat>)
    requires Complete(d, q)
    ensures Complete(Sorted(d), Pick<nat>(q, SortOrder(d.threads)))
  {
    var order := SortOrder(d.threads);
    hide SortOrder; hide Permutation; hide Ascending;
    var p := Pick<nat>(q, order);
    forall k | 0 <= k < |p| ensures p[k] < d.numSockets {
      assert p[k] == q[order[k]];
    }
  }

  lemma LoadOfSorted(d: Demand, q: seq<nat>, s: nat)
    requires Complete(d, q) && s < d.numSockets
    requires Complete(Sorted(d), Pick<nat>(q, SortOrder(d.threads)))
    ensures Loads(Sorted(d), Pick<nat>(q, SortOrder(d.threads)))[s] == Loads(d, q)[s]
  {
    hide Loads;
    var p := Pick<nat>(q, SortOrder(d.threads));
    LoadIsSum(d, q, s);
    LoadIsSum(Sorted(d), p, s);
    assert Portions(Sorted(d), p, s) == Pick(Portions(d, q, s), SortOrder(d.threads));
    SumOfPicked(d.threads, Portions(d, q, s));
  }

  /** Loads do not depend on the order in which processes are listed. */
  lemma LoadsOfSorted(d: Demand, q: seq<nat>)
    requires Complete(d, q)
    ensures Complete(Sorted(d), Pick<nat>(q, SortOrder(d.threads)))
    ensures Loads(Sorted(d), Pick<nat>(q, SortOrder(d.threads))) == Loads(d, q)
    ensures Cost(Sorted(d), Pick<nat>(q, SortOrder(d.threads))) == Cost(d, q)
  {
    hide Loads;
    SortedComplete(d, q);
    forall s | 0 <= s < d.numSockets ensures Loads(Sorted(d), Pick<nat>(q, SortOrder(d.threads)))[s] == Loads(d, q)[s] {
      LoadOfSorted(d, q, s);
    }
  }

  lemma OptimalInCallerOrder(d: Demand, p: seq<nat>)
    requires Optimal(Sorted(d), p)
    ensures Optimal(d, Assign<nat>(SortOrder(d.threads), p))
  {
    hide Loads;
    var order := SortOrder(d.threads);
    var q: seq<nat> := Assign<nat>(order, p);
    AssignComplete(d, p);
    assert Pick<nat>(q, order) == p;
    LoadsOfSorted(d, q);
    forall r | Complete(d, r) ensures Cost(d, q) <= Cost(d, r) {
      LoadsOfSorted(d, r);
      assert Cost(Sorted(d), p) <= Cost(Sorted(d), Pick<nat>(r, order));
    }
  }

  lemma AssignComplete(d: Demand, p: seq<nat>)
    requires Complete(Sorted(d), p)
    ensures Complete(d, Assign<nat>(SortOrder(d.threads), p))
  {
    var order := SortOrder(d.threads);
    var q: seq<nat> := Assign<nat>(order, p);
    forall i | 0 <= i < |q| ensures q[i] < d.numSockets {
      assert q[order[PlaceOf(order, i)]] == p[PlaceOf(order, i)];
    }
  }

  /** The search never fails on a full demand, gives every process a socket, and no assignment of processes to sockets
      is less oversubscribed. */
  lemma PlacementIsOptimal(d: Demand)
    requires d.Full() && |d.threads| >= 1
    ensures ComputedPlacement(d).Some? && Optimal(d, ComputedPlacement(d).value)
  {
    SortedValid(d);
    var cfg := Setup(d, seq(|d.threads|, _ => -1));
    GlobalOptimality(cfg);
    OptimalInCallerOrder(d, Outcome(cfg).best.value.sockets);
  }

  /** Ranks with different histories but the same thread counts compute the same placement. */
  lemma PlacementIgnoresHistory(d: Demand, previous: seq<int>)
    requires d.Valid() && |d.threads| >= 1 && |previous| == |d.threads|
    ensures var r := Outcome(Setup(d, previous)).best;
      && (r.Some? <==> ComputedPlacement(d).Some?)
      && (r.Some? ==> |r.value.sockets| == |d.threads|
                      && ComputedPlacement(d).value == Assign<nat>(SortOrder(d.threads), r.value.sockets))
  {
    var cfg := Setup(d, seq(|d.threads|, _ => -1));
    HistoryIndependence(cfg, Pick(previous, SortOrder(d.threads)));
    OutcomeGenuine(Setup(d, previous));
  }
}
