/** The branch-and-cut recursion of common/decision_tree.c as a function, and what it computes.

    `Explore` takes the same branches as tree_build_tree_recursive, the comparison of socket changes included.
    DecisionTree proves that the recursion over heap nodes returns exactly what `Explore` returns. */
module Search {
  import opened Placement
  import opened Options

  /** A leaf kept as a candidate: the socket of every process and the number of processes that changed socket. */
  datatype Leaf = Leaf(sockets: seq<nat>, changes: nat)

  /** The fields of a node that exploring its children updates: min, num_socket_changes and best. */
  datatype Track = Track(min: int, changes: nat, best: Option<Leaf>)

  /** The inputs of a search: the demand, each process's previous socket, and whether the bound test is on. */
  datatype Config = Config(demand: Demand, previous: seq<int>, cut: bool) {
    ghost predicate Valid() {
      && demand.Valid()
      && |previous| == |demand.threads|
      && |demand.threads| >= 1
    }
  }

  /** Placing the next process of prefix p on socket s changes its socket. */
  function Changes(cfg: Config, p: seq<nat>, s: nat): nat
    requires |p| < |cfg.previous|
  {
    if cfg.previous[|p|] != s then 1 else 0
  }

  /** The loop over sockets, from socket s on, at the node that placed p. */
  ghost function Explore(cfg: Config, p: seq<nat>, s: nat, t: Track): Track
    requires cfg.Valid() && Fits(cfg.demand, p) && |p| < |cfg.demand.threads| && s <= cfg.demand.numSockets
    decreases |cfg.demand.threads| - |p|, cfg.demand.numSockets - s, 1
  {
    if s == cfg.demand.numSockets then t
    else Explore(cfg, p, s + 1, Visit(cfg, p, s, t))
  }

  /** One iteration of that loop: what the child on socket s changes in its father. */
  ghost function Visit(cfg: Config, p: seq<nat>, s: nat, t: Track): Track
    requires cfg.Valid() && Fits(cfg.demand, p) && |p| < |cfg.demand.threads| && s < cfg.demand.numSockets
    decreases |cfg.demand.threads| - |p|, cfg.demand.numSockets - s, 0
  {
    if cfg.demand.coresPerSocket - Loads(cfg.demand, p)[s] < 0 then t
    else
      var q := p + [s];
      var norme := Norme(cfg.demand, q);
      var changes := t.changes + Changes(cfg, p, s);
      if cfg.cut && norme != UNSET && norme < t.min then t
      else if |q| < |cfg.demand.threads| then
        Report(t, Explore(cfg, q, 0, Track(t.min, changes, None)))
      else if norme < t.min then t
      else if t.best.Some? && changes >= t.best.value.changes then t
      else Track(norme, changes, Some(Leaf(q, changes)))
  }

  /** The end of the recursion: the child hands its candidate to its father if it beats the father's. */
  function Report(father: Track, child: Track): Track {
    if father.min >= child.min then father else Track(child.min, father.changes, child.best)
  }

  /** The whole search, from the root. */
  ghost function Outcome(cfg: Config): Track
    requires cfg.Valid()
  {
    Explore(cfg, [], 0, Track(UNSET, 0, None))
  }

  ghost predicate LastLevel(cfg: Config, p: seq<nat>) {
    |p| + 1 == |cfg.demand.threads|
  }

  // ---------------------------------------------------------------- the bound test

  /** Nothing below a node under the bound changes its father, even when the bound test is off. */
  lemma {:induction false} BarrenBelowBound(cfg: Config, p: seq<nat>, s: nat, t: Track)
    requires cfg.Valid() && Fits(cfg.demand, p) && |p| < |cfg.demand.threads| && s <= cfg.demand.numSockets
    requires !cfg.cut && Norme(cfg.demand, p) != UNSET && Norme(cfg.demand, p) < t.min
    ensures Explore(cfg, p, s, t) == t
    decreases |cfg.demand.threads| - |p|, cfg.demand.numSockets - s
  {
    if s < cfg.demand.numSockets {
      NormeFalls(cfg.demand, p, s);
      var q := p + [s];
      if |q| < |cfg.demand.threads| {
        BarrenBelowBound(cfg, q, 0, Track(t.min, t.changes + Changes(cfg, p, s), None));
      }
      assert Visit(cfg, p, s, t) == t;
      BarrenBelowBound(cfg, p, s + 1, t);
    }
  }

  /** The search with the bound test and the one without it compute the same candidate. */
  lemma {:induction false} CutIsSound(cfg: Config, p: seq<nat>, s: nat, t: Track)
    requires cfg.Valid() && Fits(cfg.demand, p) && |p| < |cfg.demand.threads| && s <= cfg.demand.numSockets
    ensures Explore(cfg.(cut := true), p, s, t) == Explore(cfg.(cut := false), p, s, t)
    decreases |cfg.demand.threads| - |p|, cfg.demand.numSockets - s
  {
    if s < cfg.demand.numSockets {
      var q := p + [s];
      var norme := Norme(cfg.demand, q);
      if |q| < |cfg.demand.threads| {
        var start := Track(t.min, t.changes + Changes(cfg, p, s), None);
        CutIsSound(cfg, q, 0, start);
        if norme != UNSET && norme < t.min {
          BarrenBelowBound(cfg.(cut := false), q, 0, start);
        }
      }
      assert Visit(cfg.(cut := true), p, s, t) == Visit(cfg.(cut := false), p, s, t);
      CutIsSound(cfg, p, s + 1, Visit(cfg.(cut := true), p, s, t));
    }
  }

  lemma CutSoundness(cfg: Config)
    requires cfg.Valid()
    ensures Outcome(cfg.(cut := true)) == Outcome(cfg.(cut := false))
  {
    CutIsSound(cfg, [], 0, Track(UNSET, 0, None));
  }

  // ---------------------------------------------------------------- history

  /** Two tracks that differ at most in how many socket changes they count. */
  ghost predicate SameCandidate(t: Track, u: Track) {
    && t.min == u.min
    && (t.best.Some? <==> u.best.Some?)
    && (t.best.Some? ==> t.best.value.sockets == u.best.value.sockets)
  }

  /** Once a last-level node keeps a leaf, its own counter is at least the leaf's. */
  ghost predicate Closed(t: Track) {
    t.best.Some? ==> t.changes >= t.best.value.changes
  }

  lemma {:induction false} HistoryIrrelevant(cfg: Config, previous: seq<int>, p: seq<nat>, s: nat, t: Track, u: Track)
    requires cfg.Valid() && |previous| == |cfg.previous|
    requires Fits(cfg.demand, p) && |p| < |cfg.demand.threads| && s <= cfg.demand.numSockets
    requires SameCandidate(t, u) && (LastLevel(cfg, p) ==> Closed(t) && Closed(u))
    ensures SameCandidate(Explore(cfg, p, s, t), Explore(cfg.(previous := previous), p, s, u))
    decreases |cfg.demand.threads| - |p|, cfg.demand.numSockets - s
  {
    if s < cfg.demand.numSockets {
      var other := cfg.(previous := previous);
      var q := p + [s];
      if |q| < |cfg.demand.threads| {
        HistoryIrrelevant(cfg, previous, q, 0,
          Track(t.min, t.changes + Changes(cfg, p, s), None), Track(u.min, u.changes + Changes(other, p, s), None));
      }
      HistoryIrrelevant(cfg, previous, p, s + 1, Visit(cfg, p, s, t), Visit(other, p, s, u));
    }
  }

  /** The sockets a process ran on before never influence the placement: "fewest thread migration" is inert. */
  lemma HistoryIndependence(cfg: Config, previous: seq<int>)
    requires cfg.Valid() && |previous| == |cfg.previous|
    ensures SameCandidate(Outcome(cfg), Outcome(cfg.(previous := previous)))
  {
    HistoryIrrelevant(cfg, previous, [], 0, Track(UNSET, 0, None), Track(UNSET, 0, None));
  }

  // ---------------------------------------------------------------- what a candidate is

  /** The candidate is a placement the search was allowed to build, and min is its norme. */
  ghost predicate Genuine(cfg: Config, t: Track) {
    t.best.Some? ==>
      && Complete(cfg.demand, t.best.value.sockets)
      && Admissible(cfg.demand, t.best.value.sockets)
      && Norme(cfg.demand, t.best.value.sockets) == t.min
  }

  lemma AdmissibleStep(d: Demand, p: seq<nat>, s: nat)
    requires Admissible(d, p) && |p| < |d.threads| && s < d.numSockets && Loads(d, p)[s] <= d.coresPerSocket
    ensures Admissible(d, p + [s])
  {
    var q := p + [s];
    forall k | 0 <= k < |q| ensures AdmissibleAt(d, q, k) {
      if k < |p| {
        assert q[..k] == p[..k];
        assert AdmissibleAt(d, p, k);
      } else {
        assert q[..k] == p;
      }
    }
  }

  lemma {:induction false} CandidateGenuine(cfg: Config, p: seq<nat>, s: nat, t: Track)
    requires cfg.Valid() && Admissible(cfg.demand, p) && |p| < |cfg.demand.threads| && s <= cfg.demand.numSockets
    requires Genuine(cfg, t)
    ensures var r := Explore(cfg, p, s, t);
      && Genuine(cfg, r)
      && r.min >= t.min
      && (r.min > t.min ==> r.best.Some?)
      && (t.best.Some? ==> r.best.Some?)
    decreases |cfg.demand.threads| - |p|, cfg.demand.numSockets - s
  {
    if s < cfg.demand.numSockets {
      var q := p + [s];
      if Loads(cfg.demand, p)[s] <= cfg.demand.coresPerSocket {
        AdmissibleStep(cfg.demand, p, s);
        if |q| < |cfg.demand.threads| {
          CandidateGenuine(cfg, q, 0, Track(t.min, t.changes + Changes(cfg, p, s), None));
        }
      }
      CandidateGenuine(cfg, p, s + 1, Visit(cfg, p, s, t));
    }
  }

  lemma OutcomeGenuine(cfg: Config)
    requires cfg.Valid()
    ensures Genuine(cfg, Outcome(cfg))
  {
    CandidateGenuine(cfg, [], 0, Track(UNSET, 0, None));
  }

  // ---------------------------------------------------------------- what no candidate can beat

  /** An admissible placement a whose last process sits on socket 0 never beats the candidate the search ends with.
      Socket 0 matters: a last-level node keeps the first leaf it accepts, not the best one. */
  lemma {:induction false} NoneMissed(cfg: Config, p: seq<nat>, s: nat, t: Track, a: seq<nat>)
    requires cfg.Valid() && Admissible(cfg.demand, p) && |p| < |cfg.demand.threads| && s <= cfg.demand.numSockets
    requires Genuine(cfg, t)
    requires Complete(cfg.demand, a) && Admissible(cfg.demand, a) && a[|a|-1] == 0
    requires p == a[..|p|] && s <= a[|p|]
    requires LastLevel(cfg, p) ==> t.best.None?
    requires Norme(cfg.demand, a) != UNSET
    ensures Explore(cfg, p, s, t).min >= Norme(cfg.demand, a)
    decreases |cfg.demand.threads| - |p|, cfg.demand.numSockets - s
  {
    var d := cfg.demand;
    var q := p + [s];
    var next := Visit(cfg, p, s, t);
    if Loads(d, p)[s] <= d.coresPerSocket {
      AdmissibleStep(d, p, s);
      if |q| < |d.threads| {
        CandidateGenuine(cfg, q, 0, Track(t.min, t.changes + Changes(cfg, p, s), None));
      }
    }
    if s < a[|p|] {
      NoneMissed(cfg, p, s + 1, next, a);
    } else {
      assert q == a[..|q|];
      assert AdmissibleAt(d, a, |p|);
      if Norme(d, q) != UNSET {
        NormeOfPrefix(d, a, |q|);
      }
      if |q| < |d.threads| {
        NoneMissed(cfg, q, 0, Track(t.min, t.changes + Changes(cfg, p, s), None), a);
      } else {
        assert q == a;
      }
      assert next.min >= Norme(d, a);
      CandidateGenuine(cfg, p, s + 1, next);
    }
  }

  /** Every admissible placement that fills a socket is matched or beaten, whatever its last socket. */
  lemma AdmissibleMatched(cfg: Config, a: seq<nat>)
    requires cfg.Valid() && Complete(cfg.demand, a) && Admissible(cfg.demand, a)
    requires Norme(cfg.demand, a) != UNSET
    ensures Outcome(cfg).min >= Norme(cfg.demand, a)
  {
    var last := a[|a|-1];
    var b := ExchangeAll(a, 0, last);
    ExchangeKeeps(cfg.demand, a, 0, last);
    NoneMissed(cfg, [], 0, Track(UNSET, 0, None), b);
  }

  /** Every placement is matched or beaten, the ones the search refuses to build included. */
  lemma {:induction false} AllMatched(cfg: Config, a: seq<nat>)
    requires cfg.Valid() && cfg.demand.Full() && Complete(cfg.demand, a)
    ensures Outcome(cfg).min >= -Cost(cfg.demand, a)
    decreases Cost(cfg.demand, a)
  {
    FullSocket(cfg.demand, a);
    if Admissible(cfg.demand, a) {
      AdmissibleMatched(cfg, a);
    } else {
      var b := InadmissibleImproves(cfg.demand, a);
      AllMatched(cfg, b);
    }
  }

  /** Global optimality. When the threads fill the cores exactly, the search succeeds and its placement has the least
      total oversubscription of all placements of all processes on all sockets. */
  lemma GlobalOptimality(cfg: Config)
    requires cfg.Valid() && cfg.demand.Full()
    ensures Outcome(cfg).best.Some?
    ensures Optimal(cfg.demand, Outcome(cfg).best.value.sockets)
    ensures Outcome(cfg).min == -Cost(cfg.demand, Outcome(cfg).best.value.sockets)
  {
    var d := cfg.demand;
    CandidateGenuine(cfg, [], 0, Track(UNSET, 0, None));
    var anywhere := seq(|d.threads|, _ => 0);
    AllMatched(cfg, anywhere);
    CostBound(d, anywhere);
    var best := Outcome(cfg).best.value.sockets;
    FullSocket(d, best);
    forall q | Complete(d, q) ensures Cost(d, best) <= Cost(d, q) {
      AllMatched(cfg, q);
    }
  }

  /** Exactly when the search succeeds on an arbitrary demand: a lone process always gets a socket; otherwise there must
      be a placement that never adds to an overfull socket and fills one. Failure is the fatal error of the caller. */
  lemma SuccessExactly(cfg: Config)
    requires cfg.Valid()
    ensures Outcome(cfg).best.Some? <==>
      || |cfg.demand.threads| == 1
      || exists a :: Complete(cfg.demand, a) && Admissible(cfg.demand, a) && Norme(cfg.demand, a) != UNSET
  {
    var d := cfg.demand;
    var root := Track(UNSET, 0, None);
    CandidateGenuine(cfg, [], 0, root);
    if |d.threads| == 1 {
      LoneProcess(cfg);
    } else {
      if a :| Complete(d, a) && Admissible(d, a) && Norme(d, a) != UNSET {
        AdmissibleMatched(cfg, a);
        CostBound(d, a);
      }
      OnlyRaised(cfg, [], 0, root);
    }
  }

  lemma LoneProcess(cfg: Config)
    requires cfg.Valid() && |cfg.demand.threads| == 1
    ensures Outcome(cfg).best.Some?
  {
    var root := Track(UNSET, 0, None);
    var d := cfg.demand;
    AdmissibleStep(d, [], 0);
    CostBound(d, [0]);
    assert [] + [0] == [0];
    CandidateGenuine(cfg, [], 1, Visit(cfg, [], 0, root));
  }

  /** Above the last level a node takes a candidate only with a higher min. */
  lemma {:induction false} OnlyRaised(cfg: Config, p: seq<nat>, s: nat, t: Track)
    requires cfg.Valid() && Fits(cfg.demand, p) && |p| + 1 < |cfg.demand.threads| && s <= cfg.demand.numSockets
    requires t.min >= UNSET && (t.best.Some? ==> t.min > UNSET)
    ensures var r := Explore(cfg, p, s, t); r.best.Some? ==> r.min > UNSET
    decreases cfg.demand.numSockets - s
  {
    if s < cfg.demand.numSockets {
      OnlyRaised(cfg, p, s + 1, Visit(cfg, p, s, t));
    }
  }

  /** Exactly when a search that succeeds finds an optimum, for any demand and any order of the processes: when some
      optimal placement could have been built and accepted. */
  lemma OptimalExactly(cfg: Config)
    requires cfg.Valid() && |cfg.demand.threads| >= 2 && Outcome(cfg).best.Some?
    ensures Optimal(cfg.demand, Outcome(cfg).best.value.sockets)
      <==> exists a :: Optimal(cfg.demand, a) && Admissible(cfg.demand, a) && Norme(cfg.demand, a) != UNSET
  {
    var d, best := cfg.demand, Outcome(cfg).best.value.sockets;
    OutcomeGenuine(cfg);
    OnlyRaised(cfg, [], 0, Track(UNSET, 0, None));
    if a :| Optimal(d, a) && Admissible(d, a) && Norme(d, a) != UNSET {
      AdmissibleMatched(cfg, a);
    }
  }
}
