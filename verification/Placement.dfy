/** Placements of processes on sockets, their loads, and the cost the search minimises.

    A placement lists, in the order of the (sorted) process array, the socket of each process placed so far.
    Everything here is computed from the placement alone; DecisionTree proves that the counters which
    common/decision_tree.c keeps incrementally agree with it. */
module Placement {
  import opened Sums

  /** INT_MIN: the value of `norme` and `min` before they are set. */
  const UNSET: int := -0x8000_0000

  /** The node's topology and the thread count that each process asks for. */
  datatype Demand = Demand(numSockets: nat, coresPerSocket: nat, threads: seq<int>) {
    /** There is a core, every process wants a thread, and the total is an int. */
    ghost predicate Valid() {
      && numSockets >= 1 && coresPerSocket >= 1
      && (forall i :: 0 <= i < |threads| ==> threads[i] >= 1)
      && Sum(threads) < 0x8000_0000
    }

    /** There are no more threads than cores. */
    ghost predicate Fitting() {
      Valid() && Sum(threads) <= numSockets * coresPerSocket
    }

    /** The threads fill the cores exactly, which is what the apportionment hands to the search. */
    ghost predicate Full() {
      Valid() && Sum(threads) == numSockets * coresPerSocket
    }
  }

  ghost predicate Fits(d: Demand, p: seq<nat>) {
    |p| <= |d.threads| && forall k :: 0 <= k < |p| ==> p[k] < d.numSockets
  }

  /** Threads placed on each socket. */
  ghost function Loads(d: Demand, p: seq<nat>): (loads: seq<int>)
    requires Fits(d, p)
    ensures |loads| == d.numSockets
  {
    if p == [] then
      seq(d.numSockets, _ => 0)
    else
      var k := |p| - 1;
      var before := Loads(d, p[..k]);
      before[p[k] := before[p[k]] + d.threads[k]]
  }

  /** Threads beyond the cores, over the first n sockets. */
  ghost function ExcessUpTo(loads: seq<int>, cores: int, n: nat): (e: int)
    requires n <= |loads|
    ensures e >= 0
  {
    if n == 0 then 0 else ExcessUpTo(loads, cores, n - 1) + Max(0, loads[n-1] - cores)
  }

  /** Threads beyond the cores, over all sockets. */
  ghost function Excess(loads: seq<int>, cores: int): (e: int)
    ensures e >= 0
  {
    ExcessUpTo(loads, cores, |loads|)
  }

  ghost predicate SomeFull(loads: seq<int>, cores: int) {
    exists s :: 0 <= s < |loads| && loads[s] >= cores
  }

  /** Minus the oversubscription once some socket is full, unset before that. */
  ghost function Norme(d: Demand, p: seq<nat>): int
    requires Fits(d, p)
  {
    if SomeFull(Loads(d, p), d.coresPerSocket) then -Excess(Loads(d, p), d.coresPerSocket) else UNSET
  }

  ghost function Cost(d: Demand, p: seq<nat>): (c: int)
    requires Fits(d, p)
    ensures c >= 0
  {
    Excess(Loads(d, p), d.coresPerSocket)
  }

  ghost predicate Complete(d: Demand, p: seq<nat>) {
    Fits(d, p) && |p| == |d.threads|
  }

  /** Total oversubscription is least among all placements, the ones the search never visits included. */
  ghost predicate Optimal(d: Demand, p: seq<nat>) {
    Complete(d, p) && forall q :: Complete(d, q) ==> Cost(d, p) <= Cost(d, q)
  }

  /** No process is put on a socket that already holds more threads than cores. */
  ghost predicate Admissible(d: Demand, p: seq<nat>) {
    Fits(d, p) && forall k :: 0 <= k < |p| ==> AdmissibleAt(d, p, k)
  }

  ghost predicate AdmissibleAt(d: Demand, p: seq<nat>, k: nat)
    requires Fits(d, p) && k < |p|
  {
    Loads(d, p[..k])[p[k]] <= d.coresPerSocket
  }

  // ---------------------------------------------------------------- excess

  lemma {:induction false} ExcessUpToUpdate(loads: seq<int>, cores: int, s: nat, v: int, n: nat)
    requires s < |loads| && n <= |loads|
    ensures ExcessUpTo(loads[s := v], cores, n) == ExcessUpTo(loads, cores, n)
      + if s < n then Max(0, v - cores) - Max(0, loads[s] - cores) else 0
  {
    if n > 0 {
      ExcessUpToUpdate(loads, cores, s, v, n - 1);
    }
  }

  lemma ExcessUpdate(loads: seq<int>, cores: int, s: nat, v: int)
    requires s < |loads|
    ensures Excess(loads[s := v], cores) == Excess(loads, cores) - Max(0, loads[s] - cores) + Max(0, v - cores)
  {
    ExcessUpToUpdate(loads, cores, s, v, |loads|);
  }

  lemma ExcessOfMove(loads: seq<int>, cores: int, a: nat, b: nat, t: int)
    requires a < |loads| && b < |loads| && a != b
    ensures Excess(loads[a := loads[a] - t][b := loads[b] + t], cores) == Excess(loads, cores)
      - Max(0, loads[a] - cores) + Max(0, loads[a] - t - cores)
      - Max(0, loads[b] - cores) + Max(0, loads[b] + t - cores)
  {
    ExcessUpdate(loads, cores, a, loads[a] - t);
    ExcessUpdate(loads[a := loads[a] - t], cores, b, loads[b] + t);
  }

  lemma {:induction false} ExcessAtMostSum(loads: seq<int>, cores: nat, n: nat)
    requires n <= |loads| && forall s :: 0 <= s < |loads| ==> loads[s] >= 0
    ensures ExcessUpTo(loads, cores, n) <= Sum(loads[..n])
  {
    if n > 0 {
      ExcessAtMostSum(loads, cores, n - 1);
      assert loads[..n][..n-1] == loads[..n-1];
    }
  }

  // ---------------------------------------------------------------- loads

  lemma {:induction false} LoadsTotal(d: Demand, p: seq<nat>)
    requires Fits(d, p)
    ensures Sum(Loads(d, p)) == Sum(d.threads[..|p|])
  {
    if p == [] {
      SumConstant(d.numSockets, 0);
    } else {
      var k := |p| - 1;
      var before := Loads(d, p[..k]);
      LoadsTotal(d, p[..k]);
      SumUpdate(before, p[k], before[p[k]] + d.threads[k]);
      assert d.threads[..k+1][..k] == d.threads[..k];
    }
  }

  lemma {:induction false} LoadsNonNegative(d: Demand, p: seq<nat>, s: nat)
    requires Fits(d, p) && d.Valid() && s < d.numSockets
    ensures Loads(d, p)[s] >= 0
  {
    if p != [] {
      LoadsNonNegative(d, p[..|p|-1], s);
    }
  }

  lemma {:induction false} LoadsGrow(d: Demand, p: seq<nat>, k: nat, s: nat)
    requires Fits(d, p) && d.Valid() && k <= |p| && s < d.numSockets
    ensures Loads(d, p[..k])[s] <= Loads(d, p)[s]
  {
    if k == |p| {
      assert p[..k] == p;
    } else {
      assert p[..|p|-1][..k] == p[..k];
      LoadsGrow(d, p[..|p|-1], k, s);
    }
  }

  /** A socket that process k was put on holds at least what was there before plus its threads. */
  lemma LoadsAfter(d: Demand, p: seq<nat>, k: nat)
    requires Fits(d, p) && d.Valid() && k < |p|
    ensures Loads(d, p)[p[k]] >= Loads(d, p[..k])[p[k]] + d.threads[k]
  {
    assert p[..k+1][..k] == p[..k];
    LoadsGrow(d, p, k + 1, p[k]);
  }

  lemma {:induction false} LoadsMove(d: Demand, p: seq<nat>, k: nat, s: nat)
    requires Fits(d, p) && k < |p| && s < d.numSockets && s != p[k]
    ensures Loads(d, p[k := s])
         == Loads(d, p)[p[k] := Loads(d, p)[p[k]] - d.threads[k]][s := Loads(d, p)[s] + d.threads[k]]
  {
    var last := |p| - 1;
    var q := p[k := s];
    if k == last {
      assert q[..last] == p[..last];
    } else {
      assert q[..last] == p[..last][k := s];
      LoadsMove(d, p[..last], k, s);
    }
  }

  /** A socket with a positive load holds some process. */
  lemma {:induction false} LoadedSocket(d: Demand, p: seq<nat>, s: nat) returns (k: nat)
    requires Fits(d, p) && s < d.numSockets && Loads(d, p)[s] > 0
    ensures k < |p| && p[k] == s
  {
    k := |p| - 1;
    if p[k] != s {
      k := LoadedSocket(d, p[..k], s);
    }
  }

  // ---------------------------------------------------------------- cost

  /** A norme that is set is a value above INT_MIN. */
  lemma CostBound(d: Demand, p: seq<nat>)
    requires Fits(d, p) && d.Valid()
    ensures -Cost(d, p) > UNSET
  {
    forall s | 0 <= s < d.numSockets ensures Loads(d, p)[s] >= 0 {
      LoadsNonNegative(d, p, s);
    }
    ExcessAtMostSum(Loads(d, p), d.coresPerSocket, d.numSockets);
    assert Loads(d, p)[..d.numSockets] == Loads(d, p);
    LoadsTotal(d, p);
    SumOfPrefix(d.threads, |p|);
  }

  /** norme is unset exactly while every socket has a free core. */
  lemma NormeUnsetExactly(d: Demand, p: seq<nat>)
    requires Fits(d, p) && d.Valid()
    ensures Norme(d, p) == UNSET <==> forall s :: 0 <= s < d.numSockets ==> Loads(d, p)[s] < d.coresPerSocket
    ensures Norme(d, p) != UNSET ==> Norme(d, p) == -Cost(d, p)
  {
    CostBound(d, p);
    var loads := Loads(d, p);
    if s :| 0 <= s < |loads| && loads[s] >= d.coresPerSocket {
      assert SomeFull(loads, d.coresPerSocket);
      assert Loads(d, p)[s] >= d.coresPerSocket;
    }
  }

  /** Once set, norme never rises along a path of the tree. */
  lemma NormeFalls(d: Demand, p: seq<nat>, s: nat)
    requires Fits(d, p) && |p| < |d.threads| && s < d.numSockets && d.Valid() && Norme(d, p) != UNSET
    ensures Norme(d, p + [s]) != UNSET
    ensures Norme(d, p + [s]) <= Norme(d, p)
  {
    var q := p + [s];
    assert q[..|p|] == p;
    var loads := Loads(d, p);
    ExcessUpdate(loads, d.coresPerSocket, s, loads[s] + d.threads[|p|]);
    var full :| 0 <= full < |loads| && loads[full] >= d.coresPerSocket;
    assert Loads(d, q)[full] >= d.coresPerSocket;
    CostBound(d, q);
  }

  lemma {:induction false} NormeOfPrefix(d: Demand, p: seq<nat>, k: nat)
    requires Fits(d, p) && d.Valid() && k <= |p| && Norme(d, p[..k]) != UNSET
    ensures Norme(d, p) != UNSET
    ensures Norme(d, p) <= Norme(d, p[..k])
    decreases |p| - k
  {
    if k == |p| {
      assert p[..k] == p;
    } else {
      assert p[..k+1] == p[..k] + [p[k]];
      NormeFalls(d, p[..k], p[k]);
      NormeOfPrefix(d, p, k + 1);
    }
  }

  /** The effect on the cost of moving one process to another socket. */
  lemma CostOfMove(d: Demand, p: seq<nat>, k: nat, s: nat, loads: seq<int>)
    requires Fits(d, p) && k < |p| && s < d.numSockets && s != p[k] && loads == Loads(d, p)
    ensures Cost(d, p[k := s]) == Cost(d, p)
        - Max(0, loads[p[k]] - d.coresPerSocket) + Max(0, loads[p[k]] - d.threads[k] - d.coresPerSocket)
        - Max(0, loads[s] - d.coresPerSocket) + Max(0, loads[s] + d.threads[k] - d.coresPerSocket)
  {
    LoadsMove(d, p, k, s);
    ExcessOfMove(loads, d.coresPerSocket, p[k], s, d.threads[k]);
  }

  /** If one socket holds more threads than cores, another has a free core. */
  lemma {:induction false} SpareSocket(loads: seq<int>, cores: nat, over: nat) returns (s: nat)
    requires over < |loads| && loads[over] > cores && Sum(loads) <= |loads| * cores
    ensures s < |loads| && loads[s] < cores
  {
    if forall i :: 0 <= i < |loads| ==> loads[i] >= cores {
      var levelled := loads[over := cores];
      SumUpdate(loads, over, cores);
      SumAtLeast(levelled, cores);
      assert false;
    } else {
      s :| 0 <= s < |loads| && loads[s] < cores;
    }
  }

  /** Moving a process off a socket that stays full without it makes the placement strictly cheaper. */
  lemma MoveImproves(d: Demand, p: seq<nat>, k: nat) returns (q: seq<nat>)
    requires d.Fitting() && Complete(d, p) && k < |p|
    requires Loads(d, p)[p[k]] >= d.coresPerSocket + d.threads[k]
    ensures Complete(d, q) && Cost(d, q) < Cost(d, p)
  {
    LoadsTotal(d, p);
    assert d.threads[..|p|] == d.threads;
    var s := SpareSocket(Loads(d, p), d.coresPerSocket, p[k]);
    q := p[k := s];
    CostOfMove(d, p, k, s, Loads(d, p));
  }

  /** The exchange argument: a placement the search would refuse to build is not optimal. */
  lemma InadmissibleImproves(d: Demand, p: seq<nat>) returns (q: seq<nat>)
    requires d.Fitting() && Complete(d, p) && !Admissible(d, p)
    ensures Complete(d, q) && Cost(d, q) < Cost(d, p)
  {
    var k :| 0 <= k < |p| && !AdmissibleAt(d, p, k);
    LoadsAfter(d, p, k);
    q := MoveImproves(d, p, k);
  }

  // ---------------------------------------------------------------- exchanging two sockets

  function Exchange(s: nat, a: nat, b: nat): nat {
    if s == a then b else if s == b then a else s
  }

  /** The same placement with sockets a and b renamed into each other. */
  function ExchangeAll(p: seq<nat>, a: nat, b: nat): (q: seq<nat>)
    ensures |q| == |p| && forall k :: 0 <= k < |p| ==> q[k] == Exchange(p[k], a, b)
  {
    seq(|p|, k requires 0 <= k < |p| => Exchange(p[k], a, b))
  }

  ghost function ExchangeLoads(loads: seq<int>, a: nat, b: nat): seq<int>
    requires a < |loads| && b < |loads|
  {
    loads[a := loads[b]][b := loads[a]]
  }

  lemma {:induction false} LoadsExchange(d: Demand, p: seq<nat>, a: nat, b: nat)
    requires Fits(d, p) && a < d.numSockets && b < d.numSockets
    ensures Fits(d, ExchangeAll(p, a, b))
    ensures Loads(d, ExchangeAll(p, a, b)) == ExchangeLoads(Loads(d, p), a, b)
  {
    var q := ExchangeAll(p, a, b);
    if p == [] {
      assert q == [];
    } else {
      var k := |p| - 1;
      assert q[..k] == ExchangeAll(p[..k], a, b);
      LoadsExchange(d, p[..k], a, b);
    }
  }

  /** All sockets start empty, so exchanging two of them changes neither cost, norme nor admissibility. */
  lemma ExchangeKeeps(d: Demand, p: seq<nat>, a: nat, b: nat)
    requires Fits(d, p) && a < d.numSockets && b < d.numSockets
    ensures var q := ExchangeAll(p, a, b);
      && Fits(d, q)
      && Cost(d, q) == Cost(d, p)
      && Norme(d, q) == Norme(d, p)
      && (Admissible(d, p) ==> Admissible(d, q))
  {
    var q := ExchangeAll(p, a, b);
    var loads := Loads(d, p);
    LoadsExchange(d, p, a, b);
    ExcessUpdate(loads, d.coresPerSocket, a, loads[b]);
    ExcessUpdate(loads[a := loads[b]], d.coresPerSocket, b, loads[a]);
    assert SomeFull(loads, d.coresPerSocket) ==> SomeFull(Loads(d, q), d.coresPerSocket) by {
      if s :| 0 <= s < |loads| && loads[s] >= d.coresPerSocket {
        assert Loads(d, q)[Exchange(s, a, b)] == loads[s];
      }
    }
    if Admissible(d, p) {
      forall k | 0 <= k < |q| ensures AdmissibleAt(d, q, k) {
        assert q[..k] == ExchangeAll(p[..k], a, b);
        LoadsExchange(d, p[..k], a, b);
        assert AdmissibleAt(d, p, k);
      }
    }
  }

  /** When there are at least as many threads as cores, every complete placement fills some socket. */
  lemma FullSocket(d: Demand, p: seq<nat>)
    requires d.Valid() && Sum(d.threads) >= d.numSockets * d.coresPerSocket && Complete(d, p)
    ensures SomeFull(Loads(d, p), d.coresPerSocket)
    ensures Norme(d, p) == -Cost(d, p) > UNSET
  {
    CostBound(d, p);
    if !SomeFull(Loads(d, p), d.coresPerSocket) {
      LoadsTotal(d, p);
      assert d.threads[..|p|] == d.threads;
      SumBelow(Loads(d, p), d.coresPerSocket);
    }
  }

  lemma {:induction false} SumBelow(xs: seq<int>, v: int)
    requires forall i :: 0 <= i < |xs| ==> xs[i] < v
    ensures Sum(xs) <= |xs| * v - |xs|
  {
    if xs != [] {
      SumBelow(xs[..|xs|-1], v);
    }
  }

  // ---------------------------------------------------------------- moves from one placement to another

  /** How many processes are on another socket than before. */
  ghost function Moves(previous: seq<int>, p: seq<nat>): (n: nat)
    requires |previous| == |p|
  {
    if p == [] then 0
    else
      var k := |p| - 1;
      Moves(previous[..k], p[..k]) + if previous[k] != p[k] then 1 else 0
  }

  lemma {:induction false} NoMoves(p: seq<nat>)
    ensures Moves(p, p) == 0
  {
    if p != [] {
      NoMoves(p[..|p|-1]);
    }
  }

  lemma {:induction false} SomeMove(previous: seq<int>, p: seq<nat>, k: nat)
    requires |previous| == |p| && k < |p| && previous[k] != p[k]
    ensures Moves(previous, p) >= 1
  {
    if k < |p| - 1 {
      SomeMove(previous[..|p|-1], p[..|p|-1], k);
    }
  }

  /** Bringing process y to its place leaves one move less. */
  lemma {:induction false} MovesUpdate(b: seq<nat>, p: seq<nat>, y: nat)
    requires |b| == |p| && y < |b| && b[y] != p[y]
    ensures Moves(b[y := p[y]], p) == Moves(b, p) - 1
  {
    var k := |p| - 1;
    var c := b[y := p[y]];
    if y == k {
      assert c[..k] == b[..k];
    } else {
      assert c[..k] == b[..k][y := p[y]];
      MovesUpdate(b[..k], p[..k], y);
    }
  }
}
