/** How many processes a placement moves away from their previous sockets, which common/decision_tree.c:322 sets out
    to keep low, and when the search does. */
module Migration {
  import opened Sums
  import opened Placement
  import opened Search
  import opened Options

  /** No equally good placement moves fewer processes. */
  ghost predicate FewestMoves(d: Demand, previous: seq<int>, p: seq<nat>)
    requires |previous| == |p| == |d.threads|
  {
    Optimal(d, p) && forall q :: Optimal(d, q) ==> Moves(previous, p) <= Moves(previous, q)
  }

  lemma OptimalExchange(d: Demand, p: seq<nat>, a: nat, b: nat)
    requires Optimal(d, p) && a < d.numSockets && b < d.numSockets
    ensures Optimal(d, ExchangeAll(p, a, b))
  {
    ExchangeKeeps(d, p, a, b);
  }

  /** The placement that the search computes when the processes were on the given sockets before. */
  ghost function Returned(cfg: Config, previous: seq<int>): (p: seq<nat>)
    requires cfg.Valid() && Outcome(cfg).best.Some? && |previous| == |cfg.demand.threads|
    ensures p == Outcome(cfg).best.value.sockets && Complete(cfg.demand, p)
  {
    HistoryIndependence(cfg, previous);
    OutcomeGenuine(cfg);
    Outcome(cfg.(previous := previous)).best.value.sockets
  }

  /** Exactly when the search returns a placement with the fewest moves whatever the previous sockets were: never with
      two sockets or more, since the placement does not depend on them, and the processes may have been on the same
      one with two sockets exchanged. */
  lemma FewestMovesExactly(cfg: Config)
    requires cfg.Valid() && Outcome(cfg).best.Some?
    ensures (forall previous: seq<int> :: |previous| == |cfg.demand.threads| ==>
               FewestMoves(cfg.demand, previous, Returned(cfg, previous)))
      <==> cfg.demand.numSockets == 1
  {
    var d, p := cfg.demand, Returned(cfg, cfg.previous);
    if d.numSockets == 1 {
      forall previous: seq<int> | |previous| == |p| ensures FewestMoves(d, previous, p) {
        forall q | Complete(d, q) ensures q == p {}
      }
    } else {
      var other := if p[0] == 0 then 1 else 0;
      var previous := ExchangeAll(p, p[0], other);
      ExchangeKeeps(d, p, p[0], other);
      NoMoves(previous);
      SomeMove(previous, p, 0);
      if Optimal(d, p) {
        OptimalExchange(d, p, p[0], other);
      }
      assert !FewestMoves(d, previous, Returned(cfg, previous));
    }
  }

  // ---------------------------------------------------------------- what a leaf counts

  lemma MovesSnoc(cfg: Config, p: seq<nat>, s: nat)
    requires |p| < |cfg.previous|
    ensures Moves(cfg.previous[..|p|+1], p + [s]) == Moves(cfg.previous[..|p|], p) + Changes(cfg, p, s)
  {
    assert (p + [s])[..|p|] == p;
    assert cfg.previous[..|p|+1][..|p|] == cfg.previous[..|p|];
  }

  ghost predicate CountsMoves(cfg: Config, t: Track) {
    t.best.Some? ==>
      |t.best.value.sockets| == |cfg.previous| && t.best.value.changes == Moves(cfg.previous, t.best.value.sockets)
  }

  /** The counter of a node is the moves of its placement, until a last-level node keeps a leaf. */
  ghost predicate CounterOf(cfg: Config, p: seq<nat>, t: Track)
    requires |p| <= |cfg.previous|
  {
    || t.changes == Moves(cfg.previous[..|p|], p)
    || (LastLevel(cfg, p) && t.best.Some? && t.changes == t.best.value.changes)
  }

  lemma {:induction false} CandidateCountsMoves(cfg: Config, p: seq<nat>, s: nat, t: Track)
    requires cfg.Valid() && Fits(cfg.demand, p) && |p| < |cfg.demand.threads| && s <= cfg.demand.numSockets
    requires CountsMoves(cfg, t) && CounterOf(cfg, p, t)
    ensures CountsMoves(cfg, Explore(cfg, p, s, t))
    decreases |cfg.demand.threads| - |p|, cfg.demand.numSockets - s
  {
    if s < cfg.demand.numSockets {
      hide Moves; hide Norme; hide Loads;
      var q := p + [s];
      var start := Track(t.min, t.changes + Changes(cfg, p, s), None);
      MovesSnoc(cfg, p, s);
      assert cfg.previous[..|cfg.previous|] == cfg.previous;
      if |q| < |cfg.demand.threads| {
        CandidateCountsMoves(cfg, q, 0, start);
      }
      CandidateCountsMoves(cfg, p, s + 1, Visit(cfg, p, s, t));
    }
  }

  /** The search counts what it means to: the candidate it ends with carries the moves from the previous sockets. */
  lemma LeafCountsMoves(cfg: Config)
    requires cfg.Valid() && Outcome(cfg).best.Some?
    ensures |Outcome(cfg).best.value.sockets| == |cfg.previous|
    ensures Outcome(cfg).best.value.changes == Moves(cfg.previous, Outcome(cfg).best.value.sockets)
  {
    CandidateCountsMoves(cfg, [], 0, Track(UNSET, 0, None));
  }

  // ---------------------------------------------------------------- an input on which both processes move

  ghost predicate Pair(cfg: Config) {
    cfg.Valid() && cfg.demand == Demand(2, 2, [2, 2]) && cfg.previous == [0, 1]
  }

  lemma PairLoads(cfg: Config, a: nat, b: nat)
    requires Pair(cfg) && a < 2 && b < 2
    ensures Loads(cfg.demand, []) == [0, 0]
    ensures Loads(cfg.demand, [a]) == [0, 0][a := 2]
    ensures Norme(cfg.demand, [a]) == 0
    ensures Norme(cfg.demand, [a, b]) == if a == b then -2 else 0
  {
    var d := cfg.demand;
    assert [a][..0] == [] && [a, b][..1] == [a];
    assert Loads(d, []) == [0, 0];
    var one, two := Loads(d, [a]), Loads(d, [a, b]);
    assert one[a] == 2 && two[b] == if a == b then 4 else 2;
    assert two[1 - b] == if a == b then 0 else 2;
    hide Loads;
    ExcessOfTwo(one);
    ExcessOfTwo(two);
  }

  lemma ExcessOfTwo(loads: seq<int>)
    requires |loads| == 2
    ensures Excess(loads, 2) == Max(0, loads[0] - 2) + Max(0, loads[1] - 2)
  {
    assert ExcessUpTo(loads, 2, 0) == 0;
    assert ExcessUpTo(loads, 2, 1) == Max(0, loads[0] - 2);
  }

  /** With both on socket 0 first, that leaf is kept, and its father's counter shuts out the better one. */
  lemma LeftSubtree(cfg: Config)
    requires Pair(cfg)
    ensures Explore(cfg, [0], 0, Track(UNSET, 0, None)) == Track(-2, 1, Some(Leaf([0, 0], 1)))
  {
    PairLoads(cfg, 0, 0);
    PairLoads(cfg, 0, 1);
    var t := Visit(cfg, [0], 0, Track(UNSET, 0, None));
    assert [0] + [0] == [0, 0] && [0] + [1] == [0, 1];
    assert t == Track(-2, 1, Some(Leaf([0, 0], 1)));
    assert Visit(cfg, [0], 1, t) == t;
    assert Explore(cfg, [0], 2, t) == t;
    assert Explore(cfg, [0], 1, t) == t;
  }

  lemma RightSubtree(cfg: Config)
    requires Pair(cfg)
    ensures Explore(cfg, [1], 0, Track(-2, 1, None)) == Track(0, 2, Some(Leaf([1, 0], 2)))
  {
    PairLoads(cfg, 1, 0);
    PairLoads(cfg, 1, 1);
    var t := Visit(cfg, [1], 0, Track(-2, 1, None));
    assert [1] + [0] == [1, 0] && [1] + [1] == [1, 1];
    assert t == Track(0, 2, Some(Leaf([1, 0], 2)));
    assert Visit(cfg, [1], 1, t) == t;
    assert Explore(cfg, [1], 2, t) == t;
    assert Explore(cfg, [1], 1, t) == t;
  }

  /** Two processes of two threads on two sockets of two cores change places, although they could stay where they were
      at the same cost. */
  lemma MovesWithoutNeed(cfg: Config)
    requires Pair(cfg)
    ensures Outcome(cfg).best.Some? && Outcome(cfg).best.value.sockets == [1, 0]
    ensures Moves(cfg.previous, [1, 0]) == 2
    ensures Optimal(cfg.demand, [0, 1]) && Moves(cfg.previous, [0, 1]) == 0
  {
    hide Explore;
    PairLoads(cfg, 0, 1);
    PairLoads(cfg, 1, 0);
    LeftSubtree(cfg);
    RightSubtree(cfg);
    assert [] + [0] == [0] && [] + [1] == [1];
    var t := Visit(cfg, [], 0, Track(UNSET, 0, None));
    assert t == Track(-2, 0, Some(Leaf([0, 0], 1)));
    var u := Visit(cfg, [], 1, t);
    assert u == Track(0, 0, Some(Leaf([1, 0], 2)));
    TwoChildren(cfg);
    CostBound(cfg.demand, [0, 1]);
    NoMoves([0, 1]);
    assert cfg.previous == [0, 1];
    assert cfg.previous[..1] == [0] && [1, 0][..1] == [1];
    assert Moves(cfg.previous[..1], [1]) == 1;
  }

  lemma TwoChildren(cfg: Config)
    requires cfg.Valid() && cfg.demand.numSockets == 2
    ensures Outcome(cfg) == Visit(cfg, [], 1, Visit(cfg, [], 0, Track(UNSET, 0, None)))
  {
    hide Visit;
    var t := Visit(cfg, [], 0, Track(UNSET, 0, None));
    var u := Visit(cfg, [], 1, t);
    assert Explore(cfg, [], 2, u) == u;
    assert Explore(cfg, [], 1, t) == u;
  }
}
