/** Who gets which core of core_dispatch_unused_cores, told from the counts that result (core/sabo.c:476-495). */
module DispatchOrder {
  import opened Sums
  import opened Apportion
  import opened SocketCap
  import opened Distribution

  /** What process p claims while it holds `count` threads. */
  ghost function ClaimAt(g: Grant, p: nat, count: int, cores: nat): real
    requires g.Valid() && p < |g.counts|
  {
    if count == g.counts[p] then g.deltas[p] else if count > cores then -1.0 else 0.0
  }

  /** A claim goes before another one: the larger, on a tie the one with the fewer threads, on a further tie the higher
      rank. */
  ghost predicate Before(claim: real, count: int, p: nat, otherClaim: real, otherCount: int, r: nat) {
    || claim > otherClaim
    || (claim == otherClaim && (count < otherCount || (count == otherCount && p > r)))
  }

  ghost predicate Outranks(g: Grant, p: nat, count: int, r: nat, otherCount: int, cores: nat)
    requires g.Valid() && p < |g.counts| && r < |g.counts|
  {
    Before(ClaimAt(g, p, count, cores), count, p, ClaimAt(g, r, otherCount, cores), otherCount, r)
  }

  /** Nobody was served although another process's next claim went before. */
  ghost predicate InOrder(g: Grant, counts: seq<int>, cores: nat)
    requires g.Valid()
  {
    && |counts| == |g.counts|
    && (forall p :: 0 <= p < |counts| ==> counts[p] >= g.counts[p])
    && forall p, r :: 0 <= p < |counts| && 0 <= r < |counts| && p != r && counts[p] > g.counts[p] ==>
         Outranks(g, p, counts[p] - 1, r, counts[r], cores)
  }

  /** Claims do not rise when a process is served. */
  ghost predicate Declining(g: Grant, cores: nat) {
    && g.Valid()
    && forall p :: 0 <= p < |g.counts| ==> g.deltas[p] >= 0.0 || (g.deltas[p] == -1.0 && g.counts[p] >= cores)
  }

  lemma LaterClaims(g: Grant, p: nat, count: int, later: int, cores: nat)
    requires Declining(g, cores) && p < |g.counts| && g.counts[p] <= count < later
    ensures ClaimAt(g, p, later, cores) <= ClaimAt(g, p, count, cores)
  {
  }

  lemma NeediestOutranks(g: Grant, r: nat, count: int, cores: nat)
    requires Declining(g, cores) && r < |g.counts| && r != Neediest(g, |g.counts|) && count >= g.counts[r]
    ensures var best := Neediest(g, |g.counts|); Outranks(g, best, g.counts[best], r, count, cores)
  {
    NeediestIsLargest(g, |g.counts|);
    if count > g.counts[r] {
      LaterClaims(g, r, g.counts[r], count, cores);
    }
  }

  /** The dispatch serves claims in order, whatever the claims and however many cores are left. */
  lemma {:induction false} DispatchInOrder(g: Grant, remaining: int, cores: nat)
    requires Declining(g, cores)
    ensures InOrder(g, Dispatched(g, remaining, cores).counts, cores)
    decreases remaining
  {
    if remaining > 0 {
      var best := Neediest(g, |g.counts|);
      OneMore(g, best, cores);
      DispatchInOrder(GiveOne(g, best, cores), remaining - 1, cores);
      hide InOrder; hide Neediest; hide GiveOne;
      OneEarlier(g, Dispatched(g, remaining, cores).counts, cores);
    }
  }

  /** Counts in order after the neediest process has been served are in order from the beginning. */
  lemma OneEarlier(g: Grant, counts: seq<int>, cores: nat)
    requires Declining(g, cores) && InOrder(GiveOne(g, Neediest(g, |g.counts|), cores), counts, cores)
    ensures InOrder(g, counts, cores)
  {
    hide Neediest; hide GiveOne; hide Outranks;
    var best := Neediest(g, |g.counts|);
    var next := GiveOne(g, best, cores);
    OneMore(g, best, cores);
    forall p, r | 0 <= p < |counts| && 0 <= r < |counts| && p != r && counts[p] > g.counts[p]
      ensures Outranks(g, p, counts[p] - 1, r, counts[r], cores)
    {
      if counts[p] > next.counts[p] {
        SameClaims(g, best, p, counts[p] - 1, r, counts[r], cores);
      } else {
        NeediestOutranks(g, r, counts[r], cores);
      }
    }
  }

  lemma OneMore(g: Grant, best: nat, cores: nat)
    requires Declining(g, cores) && best < |g.counts|
    ensures var next := GiveOne(g, best, cores);
      && Declining(next, cores)
      && next.counts == g.counts[best := g.counts[best] + 1]
  {
  }

  /** A claim at a count that is still to come does not change when somebody is served. */
  lemma SameClaims(g: Grant, best: nat, p: nat, count: int, r: nat, otherCount: int, cores: nat)
    requires g.Valid() && best < |g.counts| && p < |g.counts| && r < |g.counts|
    requires var next := GiveOne(g, best, cores); count >= next.counts[p] && otherCount >= next.counts[r]
    ensures Outranks(GiveOne(g, best, cores), p, count, r, otherCount, cores)
      <==> Outranks(g, p, count, r, otherCount, cores)
  {
  }

  lemma InOrderAt(g: Grant, counts: seq<int>, cores: nat, p: nat, r: nat)
    requires g.Valid() && InOrder(g, counts, cores) && p < |g.counts| && r < |g.counts| && p != r
    ensures |counts| == |g.counts| && counts[p] >= g.counts[p] && counts[r] >= g.counts[r]
    ensures counts[p] > g.counts[p] ==> Outranks(g, p, counts[p] - 1, r, counts[r], cores)
  {
  }

  /** Two processes cannot each have been served before the other one's next claim. */
  lemma NoCycle(g: Grant, cores: nat, p: nat, more: int, fewer: int, r: nat, low: int, high: int)
    requires Declining(g, cores) && p < |g.counts| && r < |g.counts| && p != r
    requires g.counts[p] <= fewer < more && g.counts[r] <= low < high
    requires Outranks(g, p, more - 1, r, low, cores)
    ensures !Outranks(g, r, high - 1, p, fewer, cores)
  {
    if fewer < more - 1 {
      LaterClaims(g, p, fewer, more - 1, cores);
    }
    if low < high - 1 {
      LaterClaims(g, r, low, high - 1, cores);
    }
  }

  /** The order and the total leave no choice: they determine every count. */
  lemma OrderDecides(g: Grant, a: seq<int>, b: seq<int>, cores: nat)
    requires Declining(g, cores) && InOrder(g, a, cores) && InOrder(g, b, cores) && Sum(a) == Sum(b)
    ensures a == b
  {
    assert |a| == |b| == |g.counts|;
    hide InOrder; hide Outranks; hide Declining;
    if a != b {
      var p, r := Differ(a, b);
      InOrderAt(g, a, cores, p, r);
      InOrderAt(g, b, cores, r, p);
      NoCycle(g, cores, p, a[p], b[p], r, a[r], b[r]);
      assert false;
    }
  }

  /** Different counts with the same sum are larger in one place and smaller in another. */
  lemma Differ(a: seq<int>, b: seq<int>) returns (p: nat, r: nat)
    requires |a| == |b| && Sum(a) == Sum(b) && a != b
    ensures p < |a| && r < |a| && a[p] > b[p] && a[r] < b[r]
  {
    var k :| 0 <= k < |a| && a[k] != b[k];
    if forall i :: 0 <= i < |a| ==> a[i] <= b[i] {
      SumBelowAt(a, b, k);
      assert false;
    }
    if forall i :: 0 <= i < |a| ==> a[i] >= b[i] {
      SumBelowAt(b, a, k);
      assert false;
    }
    p :| 0 <= p < |a| && a[p] > b[p];
    r :| 0 <= r < |a| && a[r] < b[r];
  }

  lemma {:induction false} SumBelowAt(a: seq<int>, b: seq<int>, k: nat)
    requires |a| == |b| && k < |a| && a[k] < b[k] && forall i :: 0 <= i < |a| ==> a[i] <= b[i]
    ensures Sum(a) < Sum(b)
  {
    var n := |a| - 1;
    if k < n {
      SumBelowAt(a[..n], b[..n], k);
    } else {
      SumAtMostPointwise(a[..n], b[..n]);
    }
  }

  lemma {:induction false} SumAtMostPointwise(a: seq<int>, b: seq<int>)
    requires |a| == |b| && forall i :: 0 <= i < |a| ==> a[i] <= b[i]
    ensures Sum(a) <= Sum(b)
  {
    if a != [] {
      SumAtMostPointwise(a[..|a|-1], b[..|b|-1]);
    }
  }

  // ---------------------------------------------------------------- one step, told from the shares

  /** What a process with this share still claims while it holds `count` threads: its fraction until it is rounded up,
      nothing after that, and less than nothing beyond a socket or when its share was cut down to one. */
  function Wish(share: real, count: int, cores: nat): real {
    if share >= 1.0 && count == share.Floor && count <= cores then Fraction(share)
    else if count > cores || (count == cores && share.Floor > cores) then -1.0
    else 0.0
  }

  /** The threads that a process starts from: its whole threads, but at least one and at most a socket. */
  function Start(share: real, cores: nat): int {
    if share < 1.0 then 1 else if share.Floor > cores then cores else share.Floor
  }

  /** Nobody was served although another one's next wish went before. */
  ghost predicate WishesInOrder(shares: seq<real>, counts: seq<int>, cores: nat) {
    && |counts| == |shares|
    && (forall p :: 0 <= p < |shares| ==> counts[p] >= Start(shares[p], cores))
    && forall p, r :: 0 <= p < |shares| && 0 <= r < |shares| && p != r && counts[p] > Start(shares[p], cores) ==>
         WishBefore(shares, counts[p] - 1, p, counts[r], r, cores)
  }

  ghost predicate WishBefore(shares: seq<real>, count: int, p: nat, otherCount: int, r: nat, cores: nat)
    requires p < |shares| && r < |shares|
  {
    Before(Wish(shares[p], count, cores), count, p, Wish(shares[r], otherCount, cores), otherCount, r)
  }

  lemma BaseOrder(shares: seq<real>, counts: seq<int>, cores: nat)
    requires |shares| >= 1 && cores >= 1 && forall p :: 0 <= p < |shares| ==> shares[p] >= 0.0
    ensures InOrder(BaseGrant(shares, cores), counts, cores) <==> WishesInOrder(shares, counts, cores)
  {
    var g := BaseGrant(shares, cores);
    BaseWishes(shares, cores);
    hide BaseGrant; hide Start; hide Wish; hide ClaimAt;
    if |counts| == |shares| && forall p :: 0 <= p < |shares| ==> counts[p] >= g.counts[p] {
      forall p, r | 0 <= p < |shares| && 0 <= r < |shares| && p != r && counts[p] > g.counts[p]
        ensures Outranks(g, p, counts[p] - 1, r, counts[r], cores)
          <==> WishBefore(shares, counts[p] - 1, p, counts[r], r, cores)
      {
        assert ClaimAt(g, p, counts[p] - 1, cores) == Wish(shares[p], counts[p] - 1, cores);
        assert ClaimAt(g, r, counts[r], cores) == Wish(shares[r], counts[r], cores);
      }
    }
  }

  /** Exactly which counts a step ends with, for all shares: those that start from the whole threads, sum to the total
      unless the start is more already, and serve nobody while another one's next wish goes before. */
  lemma StepExactly(shares: seq<real>, total: int, cores: nat, counts: seq<int>)
    requires |shares| >= 1 && cores >= 1 && forall p :: 0 <= p < |shares| ==> shares[p] >= 0.0
    ensures counts == StepGrant(shares, total, cores).counts <==>
      && WishesInOrder(shares, counts, cores)
      && Sum(counts) == Max(total, WholeThreads(shares, cores) + IdleCount(shares))
  {
    hide Dispatched; hide Sum; hide WishesInOrder; hide InOrder;
    var g := BaseGrant(shares, cores);
    var left := total - Sum(g.counts);
    BaseTotal(shares, cores);
    BaseWishes(shares, cores);
    DispatchedTotal(g, left, cores);
    DispatchInOrder(g, left, cores);
    BaseOrder(shares, counts, cores);
    if InOrder(g, counts, cores) && Sum(counts) == Sum(g.counts) + Max(0, left) {
      OrderDecides(g, Dispatched(g, left, cores).counts, counts, cores);
    }
  }

  lemma BaseWishes(shares: seq<real>, cores: nat)
    requires |shares| >= 1 && cores >= 1 && forall p :: 0 <= p < |shares| ==> shares[p] >= 0.0
    ensures var g := BaseGrant(shares, cores);
      && Declining(g, cores)
      && forall p :: 0 <= p < |shares| ==>
           && g.counts[p] == Start(shares[p], cores)
           && forall count :: count >= g.counts[p] ==> ClaimAt(g, p, count, cores) == Wish(shares[p], count, cores)
  {
  }

  /** The cores left once every remainder is served go to the fewest threads: within the cap, whoever gets one without a
      claim, or a second one, is at most one thread ahead of everybody. */
  lemma LeftoversSpread(shares: seq<real>, total: int, cores: nat, p: nat, r: nat)
    requires |shares| >= 1 && cores >= 1 && (forall k :: 0 <= k < |shares| ==> shares[k] >= 0.0)
    requires p < |shares| && r < |shares| && StepGrant(shares, total, cores).counts[p] <= cores
    requires var count, start := StepGrant(shares, total, cores).counts[p], Start(shares[p], cores);
      count >= start + 2 || (count == start + 1 && (shares[p] < 1.0 || Fraction(shares[p]) == 0.0))
    ensures StepGrant(shares, total, cores).counts[r] >= StepGrant(shares, total, cores).counts[p] - 1
  {
    hide StepGrant; hide Sum;
    var counts := StepGrant(shares, total, cores).counts;
    if p != r {
      StepExactly(shares, total, cores, StepGrant(shares, total, cores).counts);
      assert WishBefore(shares, counts[p] - 1, p, counts[r], r, cores);
    }
  }

  // ---------------------------------------------------------------- the averages, told from the steps' sums

  /** What a rank still claims while it holds `count` threads, in parts of a thread: the remainder of its steps' sum
      until its average is rounded up, unless the average is a socket; nothing after that, and less than nothing
      beyond. */
  function AverageWish(sum: int, window: nat, count: int, cores: nat): int
    requires window >= 1
  {
    if count == sum / window then (if count == cores then 0 - window else sum % window)
    else if count > cores then 0 - window
    else 0
  }

  /** Nobody was served although another one's next wish went before. */
  ghost predicate AveragesInOrder(rows: seq<seq<int>>, window: nat, counts: seq<int>, cores: nat)
    requires window >= 1
  {
    && |counts| == |rows|
    && (forall p :: 0 <= p < |rows| ==> counts[p] >= Sum(rows[p]) / window)
    && forall p, r :: 0 <= p < |rows| && 0 <= r < |rows| && p != r && counts[p] > Sum(rows[p]) / window ==>
         AverageBefore(rows, window, counts[p] - 1, p, counts[r], r, cores)
  }

  ghost predicate AverageBefore(rows: seq<seq<int>>, window: nat, count: int, p: nat, otherCount: int, r: nat,
                                cores: nat)
    requires window >= 1 && p < |rows| && r < |rows|
  {
    Before(AverageWish(Sum(rows[p]), window, count, cores) as real, count, p,
           AverageWish(Sum(rows[r]), window, otherCount, cores) as real, otherCount, r)
  }

  lemma AverageClaim(rows: seq<seq<int>>, window: nat, cores: nat, p: nat, count: int)
    requires Matrix(rows, window) && p < |rows|
    ensures ClaimAt(MeanGrant(rows, cores), p, count, cores) * window as real
         == AverageWish(Sum(rows[p]), window, count, cores) as real
    ensures MeanGrant(rows, cores).counts[p] == Sum(rows[p]) / window
  {
    hide Sum; hide Mean;
    MeanParts(rows[p]);
    MeanGrantAt(rows, cores, p);
  }

  lemma ScaledOrder(a: real, b: real, factor: real)
    requires factor > 0.0
    ensures a > b <==> a * factor > b * factor
    ensures a == b <==> a * factor == b * factor
  {
  }

  lemma AverageOrderOfTwo(rows: seq<seq<int>>, window: nat, cores: nat, p: nat, count: int, r: nat, otherCount: int)
    requires Matrix(rows, window) && p < |rows| && r < |rows|
    ensures Outranks(MeanGrant(rows, cores), p, count, r, otherCount, cores)
      <==> AverageBefore(rows, window, count, p, otherCount, r, cores)
  {
    hide Sum; hide Mean; hide ClaimAt; hide AverageWish; hide MeanGrant;
    var g := MeanGrant(rows, cores);
    AverageClaim(rows, window, cores, p, count);
    AverageClaim(rows, window, cores, r, otherCount);
    ScaledOrder(ClaimAt(g, p, count, cores), ClaimAt(g, r, otherCount, cores), window as real);
  }

  lemma AverageOrder(rows: seq<seq<int>>, window: nat, counts: seq<int>, cores: nat)
    requires Matrix(rows, window)
    ensures InOrder(MeanGrant(rows, cores), counts, cores) <==> AveragesInOrder(rows, window, counts, cores)
  {
    hide Sum; hide Mean; hide MeanGrant; hide Outranks; hide AverageBefore;
    var g := MeanGrant(rows, cores);
    forall p | 0 <= p < |rows| ensures g.counts[p] == Sum(rows[p]) / window {
      AverageClaim(rows, window, cores, p, 0);
    }
    if |counts| == |rows| {
      forall p, r | 0 <= p < |rows| && 0 <= r < |rows|
        ensures Outranks(g, p, counts[p] - 1, r, counts[r], cores)
          <==> AverageBefore(rows, window, counts[p] - 1, p, counts[r], r, cores)
      {
        AverageOrderOfTwo(rows, window, cores, p, counts[p] - 1, r, counts[r]);
      }
    }
  }

  lemma MeansDecline(rows: seq<seq<int>>, cores: nat)
    requires |rows| >= 1 && forall p :: 0 <= p < |rows| ==> |rows[p]| >= 1
    ensures Declining(MeanGrant(rows, cores), cores)
  {
    hide Mean;
  }

  /** Whole averages of the rows. */
  function Quotients(rows: seq<seq<int>>, window: nat): (floors: seq<int>)
    requires window >= 1
    ensures |floors| == |rows| && forall p :: 0 <= p < |rows| ==> floors[p] == Sum(rows[p]) / window
  {
    seq(|rows|, p requires 0 <= p < |rows| => Sum(rows[p]) / window)
  }

  /** Exactly which counts the averages end with, for all counts of the steps: those that start from the whole averages,
      sum to the total unless the start is more already, and serve nobody while another one's next wish goes before. */
  lemma AveragesExactly(rows: seq<seq<int>>, window: nat, total: int, cores: nat, counts: seq<int>)
    requires Matrix(rows, window)
    ensures counts == WindowCounts(rows, total, cores) <==>
      AveragesInOrder(rows, window, counts, cores) && Sum(counts) == Max(total, Sum(Quotients(rows, window)))
  {
    hide Dispatched; hide Sum; hide AveragesInOrder; hide InOrder; hide Mean; hide MeanGrant;
    var g := MeanGrant(rows, cores);
    var left := total - Sum(g.counts);
    forall p | 0 <= p < |rows| ensures g.counts[p] == Quotients(rows, window)[p] {
      AverageClaim(rows, window, cores, p, 0);
    }
    assert g.counts == Quotients(rows, window);
    MeansDecline(rows, cores);
    DispatchedTotal(g, left, cores);
    DispatchInOrder(g, left, cores);
    AverageOrder(rows, window, counts, cores);
    if InOrder(g, counts, cores) && Sum(counts) == Sum(g.counts) + Max(0, left) {
      OrderDecides(g, Dispatched(g, left, cores).counts, counts, cores);
    }
  }
}
