/** Largest-remainder division of the cores among the processes (core/sabo.c), on values and in exact arithmetic. */
module Apportion {
  import opened Sums

  /** Cores granted so far, and what each process still claims. */
  datatype Grant = Grant(counts: seq<int>, deltas: seq<real>) {
    predicate Valid() {
      |counts| == |deltas| >= 1
    }
  }

  function RealSum(xs: seq<real>): real {
    if xs == [] then 0.0 else RealSum(xs[..|xs|-1]) + xs[|xs|-1]
  }

  // ---------------------------------------------------------------- one step of the code

  /** core_update_step_process_counters: the floor of the share, at least one thread, at most a socket. */
  function BaseCount(share: real, cores: nat): int {
    var n := share.Floor;
    var bumped := if n == 0 then n + 1 else n;
    if cores < bumped then cores else bumped
  }

  function BaseDelta(share: real, cores: nat): real {
    var n := share.Floor;
    if cores < (if n == 0 then n + 1 else n) then -1.0
    else if n == 0 then 0.0
    else share - n as real
  }

  /** sabo_search_step_max_delta over the first n processes: the largest claim, on a tie the fewest threads, on a
      further tie the last process. */
  function Neediest(g: Grant, n: nat): (p: nat)
    requires g.Valid() && 1 <= n <= |g.counts|
    ensures p < n
  {
    if n == 1 then 0
    else
      var p := Neediest(g, n - 1);
      if g.deltas[n-1] < g.deltas[p] then p
      else if g.deltas[n-1] > g.deltas[p] then n - 1
      else if g.counts[n-1] > g.counts[p] then p
      else n - 1
  }

  /** One more core for process p. */
  function GiveOne(g: Grant, p: nat, cores: nat): (r: Grant)
    requires g.Valid() && p < |g.counts|
    ensures r.Valid() && |r.counts| == |g.counts|
  {
    Grant(g.counts[p := g.counts[p] + 1],
          g.deltas[p := if cores < g.counts[p] + 1 then -1.0 else 0.0])
  }

  /** core_dispatch_unused_cores. */
  function Dispatched(g: Grant, remaining: int, cores: nat): (r: Grant)
    requires g.Valid()
    ensures r.Valid() && |r.counts| == |g.counts|
    decreases remaining
  {
    if remaining <= 0 then g
    else Dispatched(GiveOne(g, Neediest(g, |g.counts|), cores), remaining - 1, cores)
  }

  lemma {:induction false} NeediestIsLargest(g: Grant, n: nat)
    requires g.Valid() && 1 <= n <= |g.counts|
    ensures forall i :: 0 <= i < n ==>
      var p := Neediest(g, n);
      || g.deltas[i] < g.deltas[p]
      || (g.deltas[i] == g.deltas[p] && (g.counts[i] > g.counts[p] || (g.counts[i] == g.counts[p] && i <= p)))
  {
    if n > 1 {
      NeediestIsLargest(g, n - 1);
    }
  }

  // ---------------------------------------------------------------- conservation, for all inputs

  lemma {:induction false} DispatchedTotal(g: Grant, remaining: int, cores: nat)
    requires g.Valid()
    ensures Sum(Dispatched(g, remaining, cores).counts) == Sum(g.counts) + Max(0, remaining)
    decreases remaining
  {
    if remaining > 0 {
      var p := Neediest(g, |g.counts|);
      SumUpdate(g.counts, p, g.counts[p] + 1);
      DispatchedTotal(GiveOne(g, p, cores), remaining - 1, cores);
    }
  }

  function BaseGrant(shares: seq<real>, cores: nat): (g: Grant)
    ensures |g.counts| == |g.deltas| == |shares|
  {
    Grant(seq(|shares|, i requires 0 <= i < |shares| => BaseCount(shares[i], cores)),
          seq(|shares|, i requires 0 <= i < |shares| => BaseDelta(shares[i], cores)))
  }

  /** The whole step: floors, then the leftover cores one by one. */
  function StepGrant(shares: seq<real>, total: int, cores: nat): (g: Grant)
    requires |shares| >= 1
    ensures g.Valid() && |g.counts| == |shares|
  {
    var base := BaseGrant(shares, cores);
    Dispatched(base, total - Sum(base.counts), cores)
  }

  /** The processes whose share is below one thread, which the code rounds up (core/sabo.c:440-443). */
  function IdleCount(shares: seq<real>): nat {
    if shares == [] then 0
    else IdleCount(shares[..|shares|-1]) + if shares[|shares|-1].Floor == 0 then 1 else 0
  }

  /** Whole threads of the shares, no process above a socket. */
  function WholeThreads(shares: seq<real>, cores: nat): int {
    if shares == [] then 0
    else
      var n := shares[|shares|-1].Floor;
      WholeThreads(shares[..|shares|-1], cores) + if cores < n then cores else n
  }

  lemma {:induction false} BaseTotal(shares: seq<real>, cores: nat)
    requires cores >= 1
    ensures Sum(BaseGrant(shares, cores).counts) == WholeThreads(shares, cores) + IdleCount(shares)
  {
    if shares != [] {
      var k := |shares| - 1;
      BaseTotal(shares[..k], cores);
      assert BaseGrant(shares, cores).counts[..k] == BaseGrant(shares[..k], cores).counts;
    }
  }

  /** Exactly when a step hands out the cores of the node and no more, for all shares: when the near-idle processes,
      which get a whole thread each, are no more than the cores that rounding down leaves over. */
  lemma ConservationExactly(shares: seq<real>, total: int, cores: nat)
    requires |shares| >= 1 && cores >= 1
    ensures Sum(BaseGrant(shares, cores).counts) <= total <==> IdleCount(shares) <= total - WholeThreads(shares, cores)
    ensures Sum(StepGrant(shares, total, cores).counts) == total
      <==> IdleCount(shares) <= total - WholeThreads(shares, cores)
  {
    var base := BaseGrant(shares, cores);
    BaseTotal(shares, cores);
    DispatchedTotal(base, total - Sum(base.counts), cores);
  }

  // ---------------------------------------------------------------- largest remainder

  function Positive(x: real): real {
    if x > 0.0 then x else 0.0
  }

  function Claims(deltas: seq<real>): real {
    if deltas == [] then 0.0 else Claims(deltas[..|deltas|-1]) + Positive(deltas[|deltas|-1])
  }

  lemma {:induction false} ClaimsUpdate(deltas: seq<real>, p: nat, v: real)
    requires p < |deltas|
    ensures Claims(deltas[p := v]) == Claims(deltas) - Positive(deltas[p]) + Positive(v)
  {
    var k := |deltas| - 1;
    if p == k {
      assert deltas[p := v][..k] == deltas[..k];
    } else {
      assert deltas[p := v][..k] == deltas[..k][p := v];
      ClaimsUpdate(deltas[..k], p, v);
    }
  }

  lemma {:induction false} NoClaims(deltas: seq<real>)
    requires forall i :: 0 <= i < |deltas| ==> deltas[i] <= 0.0
    ensures Claims(deltas) == 0.0
  {
    if deltas != [] {
      NoClaims(deltas[..|deltas|-1]);
    }
  }

  /** At most one more core each, only to a process with a positive claim, and to larger claims first. */
  ghost predicate ByLargestRemainder(before: Grant, counts: seq<int>) {
    && |counts| == |before.counts| == |before.deltas|
    && (forall p :: 0 <= p < |counts| ==>
          || counts[p] == before.counts[p]
          || (counts[p] == before.counts[p] + 1 && before.deltas[p] > 0.0))
    && (forall p, r ::
          0 <= p < |counts| && 0 <= r < |counts| && counts[p] > before.counts[p] && counts[r] == before.counts[r] ==>
          before.deltas[p] >= before.deltas[r])
  }

  /** There are more positive claims than cores to dispatch, so the same process is never served twice. */
  lemma {:induction false} DispatchesLargestRemainders(g: Grant, remaining: int, cores: nat)
    requires g.Valid() && remaining >= 0
    requires forall p :: 0 <= p < |g.deltas| ==> g.deltas[p] < 1.0
    requires Claims(g.deltas) >= remaining as real
    ensures ByLargestRemainder(g, Dispatched(g, remaining, cores).counts)
    decreases remaining
  {
    if remaining > 0 {
      var p := Neediest(g, |g.counts|);
      var next := GiveOne(g, p, cores);
      NeediestIsLargest(g, |g.counts|);
      if g.deltas[p] <= 0.0 {
        NoClaims(g.deltas);
        assert false;
      }
      ClaimsUpdate(g.deltas, p, next.deltas[p]);
      DispatchesLargestRemainders(next, remaining - 1, cores);
    }
  }

  // ---------------------------------------------------------------- shares of at most a socket

  /** One thread and no claim for a share below one; otherwise the floor and the fraction. A fraction of zero may be
      marked -1. */
  ghost predicate FloorOf(count: int, delta: real, share: real) {
    if share < 1.0 then 0.0 <= share && count == 1 && delta == 0.0
    else
      && count == share.Floor
      && (delta == share - share.Floor as real || (delta == -1.0 && share == share.Floor as real))
  }

  ghost predicate FloorsOf(g: Grant, shares: seq<real>) {
    && |g.counts| == |g.deltas| == |shares| >= 1
    && forall p :: 0 <= p < |shares| ==> FloorOf(g.counts[p], g.deltas[p], shares[p])
  }

  lemma {:induction false} FractionsLeft(g: Grant, shares: seq<real>)
    requires FloorsOf(g, shares)
    ensures Claims(g.deltas) >= RealSum(shares) - Sum(g.counts) as real
    decreases |shares|
  {
    var k := |shares| - 1;
    var rest := Grant(g.counts[..k], g.deltas[..k]);
    assert FloorOf(g.counts[k], g.deltas[k], shares[k]);
    if k == 0 {
      assert Claims(rest.deltas) == 0.0 && RealSum(shares[..k]) == 0.0 && Sum(rest.counts) == 0;
    } else {
      FractionsLeft(rest, shares[..k]);
    }
  }

  /** The quota rule for one process: its share rounded down or up, and one thread for a share below one. */
  ghost predicate Quota(count: int, share: real) {
    if share < 1.0 then count == 1 else share.Floor <= count && count as real < share + 1.0
  }

  /** The quota rule and conservation: every process gets its quota, and the counts sum to the total unless the base
      counts are more already. */
  lemma QuotaAndConservation(g: Grant, shares: seq<real>, total: int, cores: nat)
    requires FloorsOf(g, shares) && RealSum(shares) == total as real
    ensures var counts := Dispatched(g, total - Sum(g.counts), cores).counts;
      && Sum(counts) == Max(total, Sum(g.counts))
      && ByLargestRemainder(g, counts)
      && (forall p :: 0 <= p < |shares| ==> Quota(counts[p], shares[p]))
      && (forall p :: 0 <= p < |shares| && shares[p] <= cores as real && cores >= 1 ==> 1 <= counts[p] <= cores)
  {
    hide Dispatched; hide Sum; hide Claims; hide RealSum;
    var counts := Dispatched(g, total - Sum(g.counts), cores).counts;
    FractionsLeft(g, shares);
    ClaimsNonNegative(g.deltas);
    DispatchedTotal(g, total - Sum(g.counts), cores);
    if total >= Sum(g.counts) {
      DispatchesLargestRemainders(g, total - Sum(g.counts), cores);
    } else {
      NothingLeft(g, total - Sum(g.counts), cores);
    }
    forall p | 0 <= p < |shares|
      ensures Quota(counts[p], shares[p])
      ensures shares[p] <= cores as real && cores >= 1 ==> 1 <= counts[p] <= cores
    {
      QuotaOfOne(g.counts[p], g.deltas[p], counts[p], shares[p], cores);
    }
  }

  lemma NothingLeft(g: Grant, remaining: int, cores: nat)
    requires g.Valid() && remaining <= 0
    ensures Dispatched(g, remaining, cores) == g
  {
  }

  lemma QuotaOfOne(base: int, delta: real, count: int, share: real, cores: nat)
    requires FloorOf(base, delta, share)
    requires count == base || (count == base + 1 && delta > 0.0)
    ensures Quota(count, share)
    ensures share <= cores as real && cores >= 1 ==> 1 <= count <= cores
  {
  }

  lemma {:induction false} ClaimsNonNegative(deltas: seq<real>)
    ensures Claims(deltas) >= 0.0
  {
    if deltas != [] {
      ClaimsNonNegative(deltas[..|deltas|-1]);
    }
  }

  // ---------------------------------------------------------------- optimality

  function Abs(x: real): real {
    if x < 0.0 then -x else x
  }

  /** Total absolute distance of whole thread counts from the shares. */
  function Deviation(counts: seq<int>, shares: seq<real>): real
    requires |counts| == |shares|
  {
    DeviationUpTo(counts, shares, |counts|)
  }

  function DeviationUpTo(counts: seq<int>, shares: seq<real>, n: nat): real
    requires n <= |counts| == |shares|
  {
    if n == 0 then 0.0 else DeviationUpTo(counts, shares, n - 1) + Abs(counts[n-1] as real - shares[n-1])
  }

  /** A threshold between the claims that were served and those that were not. */
  lemma {:induction false} Threshold(g: Grant, counts: seq<int>, n: nat) returns (theta: real)
    requires n <= |counts| == |g.counts| == |g.deltas|
    requires forall p :: 0 <= p < n ==> counts[p] == g.counts[p] || counts[p] == g.counts[p] + 1
    requires forall p :: 0 <= p < |counts| ==> g.deltas[p] < 1.0
    ensures 0.0 <= theta <= 1.0
    ensures forall p :: 0 <= p < n && counts[p] == g.counts[p] ==> g.deltas[p] <= theta
    ensures theta == 0.0 || exists p :: 0 <= p < n && counts[p] == g.counts[p] && g.deltas[p] == theta
  {
    if n == 0 {
      theta := 0.0;
    } else {
      theta := Threshold(g, counts, n - 1);
      if counts[n-1] == g.counts[n-1] && g.deltas[n-1] > theta {
        theta := g.deltas[n-1];
      }
    }
  }

  /** The product, kept apart so that the solver treats it as a linear term. */
  ghost function Times(a: real, b: real): real {
    a * b
  }

  lemma TimesFacts(a: real, b: real, c: real)
    ensures Times(a, b + c) == Times(a, b) + Times(a, c)
    ensures Times(a, 0.0) == 0.0 && Times(a, 1.0) == a && Times(a, -b) == -Times(a, b)
    ensures a >= 0.0 && b >= 0.0 ==> Times(a, b) >= 0.0
    ensures a <= 1.0 && b >= 0.0 ==> Times(a, b) <= b
    ensures Times(1.0 - 2.0 * a, b) == b - 2.0 * Times(a, b)
  {
  }

  /** For one process: leaving its count costs at least the common slope per thread moved. */
  lemma SlopeBound(share: real, count: int, other: int, theta: real)
    requires 0.0 <= theta <= 1.0
    requires
      || (count == share.Floor && share - share.Floor as real <= theta)
      || (count == share.Floor + 1 && share - share.Floor as real >= theta)
      || (share < 1.0 && count == 1 <= other)
    ensures Abs(other as real - share) - Abs(count as real - share)
         >= Times(1.0 - 2.0 * theta, (other - count) as real)
  {
    hide Times;
    var k := (other - count) as real;
    TimesFacts(theta, k, 0.0);
    if other > count {
      TimesFacts(theta, k - 1.0, 1.0);
    } else if other < count {
      TimesFacts(theta, -k, 0.0);
      TimesFacts(theta, -k - 1.0, 1.0);
    }
  }

  /** The threshold separates the processes that got an extra core from the others. */
  ghost predicate Separates(g: Grant, shares: seq<real>, counts: seq<int>, theta: real) {
    && |g.counts| == |g.deltas| == |shares| == |counts|
    && 0.0 <= theta <= 1.0
    && forall p :: 0 <= p < |counts| ==>
         || (counts[p] == shares[p].Floor && shares[p] - shares[p].Floor as real <= theta)
         || (counts[p] == shares[p].Floor + 1 && shares[p] - shares[p].Floor as real >= theta)
         || (shares[p] < 1.0 && counts[p] == 1)
  }

  /** Every process with a share below one has a thread. */
  ghost predicate ServesIdle(counts: seq<int>, shares: seq<real>) {
    |counts| == |shares| && forall p :: 0 <= p < |shares| && shares[p] < 1.0 ==> counts[p] >= 1
  }

  lemma {:induction false} DeviationBound(g: Grant, shares: seq<real>, counts: seq<int>, others: seq<int>, theta: real,
                                          n: nat)
    requires Separates(g, shares, counts, theta) && n <= |shares| && ServesIdle(others, shares)
    ensures DeviationUpTo(others, shares, n) - DeviationUpTo(counts, shares, n)
         >= Times(1.0 - 2.0 * theta, (Sum(others[..n]) - Sum(counts[..n])) as real)
  {
    hide Times; hide Sum; hide Abs;
    TimesFacts(1.0 - 2.0 * theta, 0.0, 0.0);
    if n == 0 {
      assert others[..0] == counts[..0];
    } else {
      DeviationBound(g, shares, counts, others, theta, n - 1);
      SlopeBound(shares[n-1], counts[n-1], others[n-1], theta);
      SumTake(others, n - 1);
      SumTake(counts, n - 1);
      TimesFacts(1.0 - 2.0 * theta,
                 (Sum(others[..n-1]) - Sum(counts[..n-1])) as real, (others[n-1] - counts[n-1]) as real);
    }
  }

  lemma SeparatedBy(g: Grant, shares: seq<real>, counts: seq<int>, theta: real)
    requires FloorsOf(g, shares) && ByLargestRemainder(g, counts) && 0.0 <= theta <= 1.0
    requires forall p :: 0 <= p < |counts| && counts[p] == g.counts[p] ==> g.deltas[p] <= theta
    requires theta == 0.0 || exists p :: 0 <= p < |counts| && counts[p] == g.counts[p] && g.deltas[p] == theta
    ensures Separates(g, shares, counts, theta)
  {
    forall p | 0 <= p < |counts|
      ensures
        || (counts[p] == shares[p].Floor && shares[p] - shares[p].Floor as real <= theta)
        || (counts[p] == shares[p].Floor + 1 && shares[p] - shares[p].Floor as real >= theta)
        || (shares[p] < 1.0 && counts[p] == 1)
    {
      assert FloorOf(g.counts[p], g.deltas[p], shares[p]);
    }
  }

  lemma ClaimsBelowOne(g: Grant, shares: seq<real>)
    requires FloorsOf(g, shares)
    ensures forall p :: 0 <= p < |g.deltas| ==> g.deltas[p] < 1.0
  {
    forall p | 0 <= p < |g.deltas| ensures g.deltas[p] < 1.0 {
      assert FloorOf(g.counts[p], g.deltas[p], shares[p]);
    }
  }

  /** No other whole thread counts with the same total, and a thread for every process with a share below one, are
      nearer to the shares. */
  lemma LargestRemainderIsNearest(g: Grant, shares: seq<real>, total: int, cores: nat, others: seq<int>)
    requires FloorsOf(g, shares) && RealSum(shares) == total as real && Sum(g.counts) <= total
    requires ServesIdle(others, shares) && Sum(others) == total
    ensures Deviation(Dispatched(g, total - Sum(g.counts), cores).counts, shares) <= Deviation(others, shares)
  {
    hide Times; hide Sum; hide Dispatched; hide DeviationUpTo; hide RealSum; hide FloorsOf; hide Separates; hide Quota;
    FloorsLength(g, shares);
    var counts := Dispatched(g, total - Sum(g.counts), cores).counts;
    QuotaAndConservation(g, shares, total, cores);
    ClaimsBelowOne(g, shares);
    var theta := Threshold(g, counts, |counts|);
    SeparatedBy(g, shares, counts, theta);
    DeviationBound(g, shares, counts, others, theta, |shares|);
    assert others[..|shares|] == others && counts[..|shares|] == counts;
    TimesFacts(1.0 - 2.0 * theta, 0.0, 0.0);
  }

  lemma FloorsLength(g: Grant, shares: seq<real>)
    requires FloorsOf(g, shares)
    ensures |g.counts| == |g.deltas| == |shares| >= 1
  {
  }
}
