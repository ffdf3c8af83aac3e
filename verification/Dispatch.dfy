/** The processes of each socket, what an optimal placement guarantees about them, and their core ranges.
    All of it on values: thread counts and sockets in rank order. */
module Dispatch {
  import opened Sums
  import opened Sorting
  import opened Placement
  import opened CallerOrder
  import opened Adjust

  /** The ranks placed on socket s, in rank order. */
  function Members(q: seq<nat>, s: nat): (m: seq<nat>)
    ensures forall k :: 0 <= k < |m| ==> m[k] < |q| && q[m[k]] == s
    ensures forall j, k :: 0 <= j < k < |m| ==> m[j] < m[k]
  {
    if q == [] then []
    else
      var last := |q| - 1;
      var rest := Members(q[..last], s);
      if q[last] == s then rest + [last] else rest
  }

  lemma {:induction false} MembersOfPrefix(q: seq<nat>, i: nat, s: nat)
    requires i <= |q|
    ensures var n := |Members(q[..i], s)|; n <= |Members(q, s)| && Members(q, s)[..n] == Members(q[..i], s)
  {
    if i == |q| {
      assert q[..i] == q;
    } else {
      assert q[..|q|-1][..i] == q[..i];
      MembersOfPrefix(q[..|q|-1], i, s);
    }
  }

  /** Rank i is the member of its socket that follows the lower ranks there. */
  lemma MemberPlace(q: seq<nat>, i: nat)
    requires i < |q|
    ensures var n := |Members(q[..i], q[i])|; n < |Members(q, q[i])| && Members(q, q[i])[n] == i
  {
    assert q[..i+1][..i] == q[..i];
    MembersOfPrefix(q, i + 1, q[i]);
  }

  /** Their thread counts, and both lists sorted by thread count (equal counts stay in rank order). */
  function CountsOn(threads: seq<int>, q: seq<nat>, s: nat): (counts: seq<int>)
    requires |q| <= |threads|
  {
    Pick(threads, Members(q, s))
  }

  function SortedMembers(threads: seq<int>, q: seq<nat>, s: nat): (m: seq<nat>)
    requires |q| <= |threads|
    ensures |m| == |Members(q, s)| && forall k :: 0 <= k < |m| ==> m[k] < |q| && q[m[k]] == s
  {
    Pick(Members(q, s), SortOrder(CountsOn(threads, q, s)))
  }

  function SortedCounts(threads: seq<int>, q: seq<nat>, s: nat): (counts: seq<int>)
    requires |q| <= |threads|
  {
    Pick(threads, SortedMembers(threads, q, s))
  }

  /** The list of a socket is by ascending thread count, and by rank among equal counts. */
  lemma ListedByCountAndRank(threads: seq<int>, q: seq<nat>, s: nat, j: nat, k: nat)
    requires |q| <= |threads| && j < k < |SortedMembers(threads, q, s)|
    ensures var m := SortedMembers(threads, q, s);
      threads[m[j]] < threads[m[k]] || (threads[m[j]] == threads[m[k]] && m[j] < m[k])
  {
    var order := SortOrder(CountsOn(threads, q, s));
    hide SortOrder; hide Members;
    assert order[j] < |Members(q, s)| && order[k] < |Members(q, s)|;
  }

  lemma CountsStep(threads: seq<int>, q: seq<nat>, s: nat)
    requires 0 < |q| <= |threads|
    ensures var last := |q| - 1; var rest := CountsOn(threads, q[..last], s);
      CountsOn(threads, q, s) == if q[last] == s then rest + [threads[last]] else rest
  {
  }

  lemma {:induction false} CountsTotal(d: Demand, q: seq<nat>, s: nat)
    requires Fits(d, q) && s < d.numSockets
    ensures Sum(CountsOn(d.threads, q, s)) == Loads(d, q)[s]
  {
    hide CountsOn;
    if q == [] {
      CountsEmpty(d.threads, s);
    } else {
      var last := |q| - 1;
      CountsTotal(d, q[..last], s);
      CountsStep(d.threads, q, s);
      SumSnoc(CountsOn(d.threads, q[..last], s), d.threads[last]);
    }
  }

  lemma CountsEmpty(threads: seq<int>, s: nat)
    ensures CountsOn(threads, [], s) == []
  {
  }

  lemma SortedCountsTotal(d: Demand, q: seq<nat>, s: nat)
    requires Fits(d, q) && s < d.numSockets
    ensures Sum(SortedCounts(d.threads, q, s)) == Loads(d, q)[s]
  {
    var counts := CountsOn(d.threads, q, s);
    CountsTotal(d, q, s);
    SumOfPicked(counts, counts);
    assert SortedCounts(d.threads, q, s) == Pick(counts, SortOrder(counts));
  }

  lemma SortedCountsAscend(d: Demand, q: seq<nat>, s: nat)
    requires Fits(d, q) && d.Valid()
    ensures AscendingCounts(SortedCounts(d.threads, q, s))
  {
    var counts := CountsOn(d.threads, q, s);
    assert SortedCounts(d.threads, q, s) == Pick(counts, SortOrder(counts));
  }

  // ---------------------------------------------------------------- what optimality gives

  /** If a socket has a free core, another one is overfull, when the threads fill the cores exactly. */
  lemma {:induction false} OverfullSocket(loads: seq<int>, cores: nat, under: nat) returns (o: nat)
    requires under < |loads| && loads[under] < cores && Sum(loads) >= |loads| * cores
    ensures o < |loads| && loads[o] > cores
  {
    if forall i :: 0 <= i < |loads| ==> loads[i] <= cores {
      SumUpdate(loads, under, cores);
      SumAtMost(loads[under := cores], cores);
      assert false;
    } else {
      o :| 0 <= o < |loads| && loads[o] > cores;
    }
  }

  /** An optimal placement leaves no socket empty, provided no process wants more than a socket. */
  lemma NoEmptySocket(d: Demand, q: seq<nat>, s: nat)
    requires d.Full() && Optimal(d, q) && s < d.numSockets
    requires forall i :: 0 <= i < |d.threads| ==> d.threads[i] <= d.coresPerSocket
    ensures |Members(q, s)| >= 1
  {
    if Members(q, s) == [] {
      CountsTotal(d, q, s);
      LoadsTotal(d, q);
      assert d.threads[..|q|] == d.threads;
      var loads := Loads(d, q);
      var o := OverfullSocket(loads, d.coresPerSocket, s);
      var k := LoadedSocket(d, q, o);
      CostOfMove(d, q, k, s, loads);
      assert Complete(d, q[k := s]);
      assert false;
    }
  }

  /** In an optimal placement a process on a socket overfull by x has more than x threads. */
  lemma Headroom(d: Demand, q: seq<nat>, i: nat)
    requires d.Full() && Optimal(d, q) && i < |q|
    ensures d.threads[i] > Loads(d, q)[q[i]] - d.coresPerSocket
  {
    if d.threads[i] <= Loads(d, q)[q[i]] - d.coresPerSocket {
      var better := MoveImproves(d, q, i);
      assert false;
    }
  }

  /** So both adjustment loops end on every socket. */
  lemma OptimalIsAdjustable(d: Demand, q: seq<nat>, s: nat)
    requires d.Full() && Optimal(d, q) && s < d.numSockets
    requires forall i :: 0 <= i < |d.threads| ==> d.threads[i] <= d.coresPerSocket
    ensures AscendingCounts(SortedCounts(d.threads, q, s))
    ensures Adjustable(SortedCounts(d.threads, q, s), d.coresPerSocket)
  {
    assert Complete(d, q);
    hide Members; hide SortOrder; hide Loads; hide Optimal; hide Sum; hide SortedMembers;
    var counts := SortedCounts(d.threads, q, s);
    NoEmptySocket(d, q, s);
    SortedCountsTotal(d, q, s);
    SortedCountsAscend(d, q, s);
    Headroom(d, q, SortedMembers(d.threads, q, s)[0]);
    AdjustableWithHeadroom(counts, d.coresPerSocket);
  }

  /** The thread count of each rank once every socket is adjusted. */
  ghost function Final(d: Demand, q: seq<nat>): (final: seq<int>)
    requires Complete(d, q)
    ensures |final| == |q|
  {
    seq(|q|, i requires 0 <= i < |q| => FinalOf(d, q, i))
  }

  ghost function FinalOf(d: Demand, q: seq<nat>, i: nat): int
    requires Complete(d, q) && i < |q|
  {
    MemberPlace(q, i);
    d.threads[i] + Shift(Loads(d, q)[q[i]], d.coresPerSocket, |Members(q, q[i])|)
  }

  /** Every socket's counts leave room for the rounds of its adjustment. */
  ghost predicate AllAdjustable(d: Demand, q: seq<nat>) {
    && Complete(d, q)
    && forall s :: 0 <= s < d.numSockets ==> Adjustable(SortedCounts(d.threads, q, s), d.coresPerSocket)
  }

  /** That condition is exact: both loops end on every socket if and only if the lists as dispatched are adjustable. */
  lemma AllLoopsEndExactly(d: Demand, q: seq<nat>)
    requires d.Valid() && Complete(d, q)
    ensures AllAdjustable(d, q) <==> forall s :: 0 <= s < d.numSockets ==>
      var counts := SortedCounts(d.threads, q, s); LoopsEnd(Socket(counts, d.coresPerSocket - Sum(counts)))
  {
    hide LoopsEnd; hide Adjustable; hide SortedCounts; hide Sum;
    forall s | 0 <= s < d.numSockets
      ensures var counts := SortedCounts(d.threads, q, s);
        LoopsEnd(Socket(counts, d.coresPerSocket - Sum(counts))) <==> Adjustable(counts, d.coresPerSocket)
    {
      SortedCountsAscend(d, q, s);
      LoopsEndExactly(SortedCounts(d.threads, q, s), d.coresPerSocket);
    }
  }

  /** Rank by rank: a socket's list is adjustable exactly if it is not empty and each of its ranks can spare a thread in
      every round that the socket's overload needs. */
  lemma AdjustableByRank(d: Demand, q: seq<nat>, s: nat)
    requires d.Valid() && Complete(d, q) && s < d.numSockets
    ensures Adjustable(SortedCounts(d.threads, q, s), d.coresPerSocket) <==>
      && |Members(q, s)| >= 1
      && forall i :: 0 <= i < |q| && q[i] == s ==>
           Loads(d, q)[s] - d.coresPerSocket <= |Members(q, s)| * (d.threads[i] - 1)
  {
    hide Members; hide Loads; hide Sum; hide SortOrder; hide Demand.Valid;
    var members, counts := SortedMembers(d.threads, q, s), SortedCounts(d.threads, q, s);
    SortedCountsTotal(d, q, s);
    SortedCountsAscend(d, q, s);
    if |counts| >= 1 {
      assert counts[0] == d.threads[members[0]];
      forall i | 0 <= i < |q| && q[i] == s
        ensures |counts| * (counts[0] - 1) <= |counts| * (d.threads[i] - 1)
      {
        var k := SortedPlace(d, q, i);
        assert counts[0] <= counts[k];
        MulMonotone(|counts|, counts[0] - 1, d.threads[i] - 1);
      }
    }
  }

  /** So both loops end on every socket exactly if no socket is empty and every rank has the threads to spare. */
  lemma AllAdjustableExactly(d: Demand, q: seq<nat>)
    requires d.Valid() && Complete(d, q)
    ensures AllAdjustable(d, q) <==>
      && (forall s :: 0 <= s < d.numSockets ==> |Members(q, s)| >= 1)
      && forall i :: 0 <= i < |q| ==>
           Loads(d, q)[q[i]] - d.coresPerSocket <= |Members(q, q[i])| * (d.threads[i] - 1)
  {
    hide Adjustable; hide SortedCounts; hide Members; hide Loads; hide Sum;
    if AllAdjustable(d, q) {
      forall s | 0 <= s < d.numSockets ensures |Members(q, s)| >= 1 {
        AdjustableByRank(d, q, s);
      }
      forall i | 0 <= i < |q|
        ensures Loads(d, q)[q[i]] - d.coresPerSocket <= |Members(q, q[i])| * (d.threads[i] - 1)
      {
        assert Adjustable(SortedCounts(d.threads, q, q[i]), d.coresPerSocket);
        AdjustableByRank(d, q, q[i]);
      }
    } else {
      var s :| 0 <= s < d.numSockets && !Adjustable(SortedCounts(d.threads, q, s), d.coresPerSocket);
      AdjustableByRank(d, q, s);
    }
  }

  /** If both loops end everywhere, every rank still has a thread, and each socket ends at C plus the remainder of its
      overload divided by its number of processes. */
  lemma AdjustedSockets(d: Demand, q: seq<nat>)
    requires d.Valid() && AllAdjustable(d, q)
    ensures forall i :: 0 <= i < |q| ==> Final(d, q)[i] >= 1
    ensures forall s :: 0 <= s < d.numSockets ==>
      && |Members(q, s)| >= 1
      && Sum(CountsOn(Final(d, q), q, s)) == Settled(Loads(d, q)[s], d.coresPerSocket, |Members(q, s)|)
  {
    hide Members; hide Loads; hide Final; hide Sum; hide CountsOn; hide Settled; hide SortedMembers;
    forall i | 0 <= i < |q| ensures Final(d, q)[i] >= 1 {
      FinalPositive(d, q, i);
    }
    forall s | 0 <= s < d.numSockets
      ensures |Members(q, s)| >= 1
      ensures Sum(CountsOn(Final(d, q), q, s)) == Settled(Loads(d, q)[s], d.coresPerSocket, |Members(q, s)|)
    {
      assert Adjustable(SortedCounts(d.threads, q, s), d.coresPerSocket);
      FinalTotal(d, q, s);
    }
  }

  lemma FinalPositive(d: Demand, q: seq<nat>, i: nat)
    requires d.Valid() && AllAdjustable(d, q) && i < |q|
    ensures Final(d, q)[i] >= 1
  {
    var s := q[i];
    var counts := SortedCounts(d.threads, q, s);
    SortedCountsAscend(d, q, s);
    AdjustedKeepsThreads(counts, d.coresPerSocket);
    SortedCountsTotal(d, q, s);
    var k := SortedPlace(d, q, i);
    assert counts[k] == d.threads[i];
    assert Adjusted(counts, d.coresPerSocket)[k] == Final(d, q)[i];
  }

  /** Where rank i stands in its socket's sorted list. */
  lemma SortedPlace(d: Demand, q: seq<nat>, i: nat) returns (k: nat)
    requires Complete(d, q) && i < |q|
    ensures k < |SortedMembers(d.threads, q, q[i])| && SortedMembers(d.threads, q, q[i])[k] == i
  {
    MemberPlace(q, i);
    k := PlaceOf(SortOrder(CountsOn(d.threads, q, q[i])), |Members(q[..i], q[i])|);
  }

  lemma FinalTotal(d: Demand, q: seq<nat>, s: nat)
    requires Complete(d, q) && s < d.numSockets && |Members(q, s)| >= 1
    ensures Sum(CountsOn(Final(d, q), q, s)) == Settled(Loads(d, q)[s], d.coresPerSocket, |Members(q, s)|)
  {
    var counts := CountsOn(d.threads, q, s);
    CountsTotal(d, q, s);
    assert CountsOn(Final(d, q), q, s) == Adjusted(counts, d.coresPerSocket);
    TotalAfterAdjustment(counts, d.coresPerSocket);
  }

  // ---------------------------------------------------------------- core ranges

  /** The first core of rank i on its socket: the threads of the lower ranks there. */
  function StartOf(final: seq<int>, q: seq<nat>, i: nat): int
    requires i < |q| <= |final|
  {
    Sum(CountsOn(final, q[..i], q[i]))
  }

  /** The start of rank i is the sum of the counts that precede its own in its socket's list. */
  lemma StartIsPrefixSum(final: seq<int>, q: seq<nat>, i: nat)
    requires i < |q| <= |final|
    ensures var n, counts := |Members(q[..i], q[i])|, CountsOn(final, q, q[i]);
      n < |counts| && counts[n] == final[i] && StartOf(final, q, i) == Sum(counts[..n])
  {
    MemberPlace(q, i);
    MembersOfPrefix(q, i, q[i]);
    var n := |Members(q[..i], q[i])|;
    assert CountsOn(final, q, q[i])[..n] == CountsOn(final, q[..i], q[i]);
  }

  /** Ranges on one socket are disjoint and ordered by rank, and stay below the socket's total. */
  lemma RangesDisjoint(final: seq<int>, q: seq<nat>, i: nat, j: nat)
    requires i < j < |q| <= |final| && q[i] == q[j]
    requires forall k :: 0 <= k < |final| ==> final[k] >= 1
    ensures 0 <= StartOf(final, q, i)
    ensures StartOf(final, q, i) + final[i] <= StartOf(final, q, j)
    ensures StartOf(final, q, j) + final[j] <= Sum(CountsOn(final, q, q[j]))
  {
    hide Members; hide StartOf; hide Sum;
    var counts := CountsOn(final, q, q[i]);
    StartIsPrefixSum(final, q, i);
    StartIsPrefixSum(final, q, j);
    var m, n := |Members(q[..i], q[i])|, |Members(q[..j], q[i])|;
    MemberPlace(q[..j], i);
    assert q[..j][..i] == q[..i];
    SumTake(counts, m);
    SumTake(counts, n);
    SumMonotone(counts, m + 1, n);
    SumMonotone(counts, n + 1, |counts|);
    SumOfPrefix(counts, m);
    assert counts[..|counts|] == counts;
  }

  lemma SumMonotone(counts: seq<int>, m: nat, n: nat)
    requires m <= n <= |counts| && forall k :: 0 <= k < |counts| ==> counts[k] >= 0
    ensures Sum(counts[..m]) <= Sum(counts[..n])
  {
    assert counts[..n][..m] == counts[..m];
    SumOfPrefix(counts[..n], m);
  }

  /** Every core below the socket's total belongs to the range of some rank placed there. */
  lemma RangesCover(final: seq<int>, q: seq<nat>, s: nat, core: int) returns (i: nat)
    requires |q| <= |final| && forall k :: 0 <= k < |final| ==> final[k] >= 1
    requires 0 <= core < Sum(CountsOn(final, q, s))
    ensures i < |q| && q[i] == s
    ensures StartOf(final, q, i) <= core < StartOf(final, q, i) + final[i]
  {
    hide Sum; hide Members; hide StartOf;
    var counts := CountsOn(final, q, s);
    var n := |counts|;
    assert counts[..n] == counts;
    SumNone(counts);
    while Sum(counts[..n]) > core
      invariant 0 <= n <= |counts|
      invariant n < |counts| ==> core < Sum(counts[..n+1])
      decreases n
    {
      n := n - 1;
    }
    i := Members(q, s)[n];
    StartIsPrefixSum(final, q, i);
    MemberPlace(q, i);
    SumTake(counts, n);
  }
}
