/** When one window step of the division serves everybody within a socket, exactly and beforehand (core/sabo.c), on
    values and in exact arithmetic. */
module SocketCap {
  import opened Sums
  import opened Apportion

  ghost predicate Precedes(g: Grant, r: nat, p: nat)
    requires g.Valid() && r < |g.counts| && p < |g.counts|
  {
    || g.deltas[r] > g.deltas[p]
    || (g.deltas[r] == g.deltas[p] && (g.counts[r] < g.counts[p] || (g.counts[r] == g.counts[p] && r > p)))
  }

  /** How many of the first n processes come before process p in the order of sabo_search_step_max_delta. */
  ghost function Ahead(g: Grant, p: nat, n: nat): nat
    requires g.Valid() && p < |g.counts| && n <= |g.counts|
  {
    if n == 0 then 0 else Ahead(g, p, n - 1) + if Precedes(g, n - 1, p) then 1 else 0
  }

  ghost predicate WithinCap(counts: seq<int>, cores: nat) {
    forall p :: 0 <= p < |counts| ==> counts[p] <= cores
  }

  /** What base counts look like: at most a socket each, and a negative claim only at a whole socket. */
  ghost predicate Tidy(g: Grant, cores: nat) {
    && g.Valid() && WithinCap(g.counts, cores)
    && forall p :: 0 <= p < |g.counts| ==> g.deltas[p] >= 0.0 || g.counts[p] == cores
  }

  /** Every process that has a whole socket and still claims more is preceded by enough others. */
  ghost predicate Shielded(g: Grant, remaining: int, cores: nat)
    requires g.Valid()
  {
    forall p :: 0 <= p < |g.counts| && g.counts[p] == cores && g.deltas[p] > 0.0 ==>
      Ahead(g, p, |g.counts|) >= remaining
  }

  lemma {:induction false} NobodyAhead(g: Grant, p: nat, n: nat)
    requires g.Valid() && n <= |g.counts| && p == Neediest(g, |g.counts|)
    ensures Ahead(g, p, n) == 0
  {
    NeediestIsLargest(g, |g.counts|);
    if n > 0 {
      NobodyAhead(g, p, n - 1);
    }
  }

  /** Serving the neediest process moves everybody else with a claim up by one. */
  lemma {:induction false} AheadAfter(g: Grant, p: nat, cores: nat, n: nat)
    requires g.Valid() && p < |g.counts| && n <= |g.counts| && g.deltas[p] > 0.0
    ensures var best := Neediest(g, |g.counts|);
      p != best ==> Ahead(GiveOne(g, best, cores), p, n) == Ahead(g, p, n) - if best < n then 1 else 0
  {
    NeediestIsLargest(g, |g.counts|);
    if n > 0 {
      AheadAfter(g, p, cores, n - 1);
    }
  }

  lemma {:induction false} CountsGrow(g: Grant, remaining: int, cores: nat, p: nat)
    requires g.Valid() && p < |g.counts|
    ensures Dispatched(g, remaining, cores).counts[p] >= g.counts[p]
    decreases remaining
  {
    if remaining > 0 {
      CountsGrow(GiveOne(g, Neediest(g, |g.counts|), cores), remaining - 1, cores, p);
    }
  }

  /** A neediest process that already has a whole socket is served beyond it, and the condition says so. */
  lemma CapBroken(g: Grant, remaining: int, cores: nat)
    requires Tidy(g, cores) && remaining > 0 && g.counts[Neediest(g, |g.counts|)] == cores
    ensures !WithinCap(Dispatched(g, remaining, cores).counts, cores)
    ensures !(Sum(g.counts) + remaining <= |g.counts| * cores && Shielded(g, remaining, cores))
  {
    var best := Neediest(g, |g.counts|);
    CountsGrow(GiveOne(g, best, cores), remaining - 1, cores, best);
    assert Dispatched(g, remaining, cores).counts[best] > cores;
    if g.deltas[best] > 0.0 {
      NobodyAhead(g, best, |g.counts|);
    } else {
      NeediestIsLargest(g, |g.counts|);
      SumAtLeast(g.counts, cores);
    }
  }

  /** Serving a neediest process below a whole socket leaves the condition as it was. */
  lemma CapStep(g: Grant, remaining: int, cores: nat)
    requires Tidy(g, cores) && remaining > 0 && g.counts[Neediest(g, |g.counts|)] < cores
    ensures var next := GiveOne(g, Neediest(g, |g.counts|), cores);
      && Tidy(next, cores)
      && Sum(next.counts) == Sum(g.counts) + 1
      && (Shielded(next, remaining - 1, cores) <==> Shielded(g, remaining, cores))
  {
    hide Ahead; hide Neediest; hide Sum; hide Shielded;
    var best := Neediest(g, |g.counts|);
    SumUpdate(g.counts, best, g.counts[best] + 1);
    ShieldedStep(g, remaining, cores);
  }

  lemma ShieldedStep(g: Grant, remaining: int, cores: nat)
    requires g.Valid() && remaining > 0 && g.counts[Neediest(g, |g.counts|)] < cores
    ensures Shielded(GiveOne(g, Neediest(g, |g.counts|), cores), remaining - 1, cores)
      <==> Shielded(g, remaining, cores)
  {
    hide Ahead; hide Neediest;
    var best := Neediest(g, |g.counts|);
    var next := GiveOne(g, best, cores);
    assert next.deltas[best] <= 0.0;
    forall p | 0 <= p < |g.counts| && g.deltas[p] > 0.0 && p != best
      ensures next.counts[p] == g.counts[p] && next.deltas[p] == g.deltas[p]
      ensures Ahead(next, p, |g.counts|) == Ahead(g, p, |g.counts|) - 1
    {
      AheadAfter(g, p, cores, |g.counts|);
    }
  }

  /** Exactly when dispatching keeps everybody within a socket: there are enough places, and nobody with a whole socket
      and a claim is reached. */
  lemma {:induction false} CapOfDispatch(g: Grant, remaining: int, cores: nat)
    requires Tidy(g, cores) && remaining >= 0
    ensures WithinCap(Dispatched(g, remaining, cores).counts, cores) <==>
      remaining == 0 || (Sum(g.counts) + remaining <= |g.counts| * cores && Shielded(g, remaining, cores))
    decreases remaining
  {
    if remaining > 0 {
      hide Shielded; hide Tidy; hide Sum;
      var best := Neediest(g, |g.counts|);
      TidyFacts(g, cores, best);
      if g.counts[best] == cores {
        CapBroken(g, remaining, cores);
      } else {
        var next := GiveOne(g, best, cores);
        CapStep(g, remaining, cores);
        CapOfDispatch(next, remaining - 1, cores);
        if remaining == 1 {
          ShieldedFromNone(next, cores);
          TidyTotal(next, cores);
        }
      }
    }
  }

  lemma TidyFacts(g: Grant, cores: nat, p: nat)
    requires Tidy(g, cores) && p < |g.counts|
    ensures g.counts[p] <= cores
  {
  }

  lemma ShieldedFromNone(g: Grant, cores: nat)
    requires g.Valid()
    ensures Shielded(g, 0, cores)
  {
  }

  lemma TidyTotal(g: Grant, cores: nat)
    requires Tidy(g, cores)
    ensures Sum(g.counts) <= |g.counts| * cores
  {
    SumAtMost(g.counts, cores);
  }

  // ---------------------------------------------------------------- one step

  /** The part of a share above its whole threads. */
  function Fraction(share: real): (f: real)
    ensures 0.0 <= f < 1.0
  {
    share - share.Floor as real
  }

  /** Process r is served before process p, whose share is a little above a socket: the larger fraction, on a tie the
      fewer whole threads, on a further tie the higher rank. Near-idle processes and those cut down to a socket have no
      claim. */
  ghost predicate ServedBefore(shares: seq<real>, cores: nat, r: nat, p: nat)
    requires r < |shares| && p < |shares|
  {
    && shares[r].Floor != 0 && shares[r].Floor <= cores
    && (|| Fraction(shares[r]) > Fraction(shares[p])
        || (Fraction(shares[r]) == Fraction(shares[p])
            && (shares[r].Floor < shares[p].Floor || (shares[r].Floor == shares[p].Floor && r > p))))
  }

  ghost function CountBefore(shares: seq<real>, cores: nat, p: nat, n: nat): nat
    requires p < |shares| && n <= |shares|
  {
    if n == 0 then 0
    else CountBefore(shares, cores, p, n - 1) + if ServedBefore(shares, cores, n - 1, p) then 1 else 0
  }

  /** The leftover cores are no more than the places, and they run out before they reach a process whose share is a
      little above a socket. */
  ghost predicate CapKept(shares: seq<real>, total: int, cores: nat)
    requires |shares| >= 1
  {
    var left := total - WholeThreads(shares, cores) - IdleCount(shares);
    || left <= 0
    || (&& total <= |shares| * cores
        && forall p :: 0 <= p < |shares| && shares[p].Floor == cores && Fraction(shares[p]) > 0.0 ==>
             CountBefore(shares, cores, p, |shares|) >= left)
  }

  lemma {:induction false} AheadOfShare(shares: seq<real>, cores: nat, p: nat, n: nat)
    requires cores >= 1 && p < |shares| && n <= |shares| && shares[p].Floor == cores && Fraction(shares[p]) > 0.0
    ensures Ahead(BaseGrant(shares, cores), p, n) == CountBefore(shares, cores, p, n)
  {
    if n > 0 {
      AheadOfShare(shares, cores, p, n - 1);
      assert Precedes(BaseGrant(shares, cores), n - 1, p) <==> ServedBefore(shares, cores, n - 1, p);
    }
  }

  /** Exactly when no process of a step is granted more than a socket, for all shares. The dispatch loop never trips its
      assertion at core/sabo.c:486 in the same cases. */
  lemma CapExactly(shares: seq<real>, total: int, cores: nat)
    requires |shares| >= 1 && cores >= 1
    ensures WithinCap(StepGrant(shares, total, cores).counts, cores) <==> CapKept(shares, total, cores)
  {
    hide Ahead; hide Sum; hide CountBefore; hide IdleCount; hide WholeThreads;
    var base := BaseGrant(shares, cores);
    var left := total - Sum(base.counts);
    BaseTidy(shares, cores);
    BaseTotal(shares, cores);
    forall p | 0 <= p < |shares| && shares[p].Floor == cores && Fraction(shares[p]) > 0.0
      ensures Ahead(base, p, |shares|) == CountBefore(shares, cores, p, |shares|)
    {
      AheadOfShare(shares, cores, p, |shares|);
    }
    if left >= 0 {
      CapOfDispatch(base, left, cores);
    } else {
      NothingLeft(base, left, cores);
    }
  }

  lemma BaseTidy(shares: seq<real>, cores: nat)
    requires |shares| >= 1 && cores >= 1
    ensures Tidy(BaseGrant(shares, cores), cores)
    ensures var base := BaseGrant(shares, cores);
      forall p :: 0 <= p < |shares| ==>
        (base.counts[p] == cores && base.deltas[p] > 0.0 <==>
           shares[p].Floor == cores && Fraction(shares[p]) > 0.0)
  {
  }

  /** Every process has at least a thread and at most a socket, and all cores are handed out. */
  ghost predicate Served(counts: seq<int>, total: int, cores: nat) {
    Sum(counts) == total && forall p :: 0 <= p < |counts| ==> 1 <= counts[p] <= cores
  }

  /** What can be told from the shares beforehand. */
  ghost predicate Servable(shares: seq<real>, total: int, cores: nat) {
    && |shares| >= 1
    && (forall p :: 0 <= p < |shares| ==> shares[p] >= 0.0)
    && IdleCount(shares) <= total - WholeThreads(shares, cores)
    && CapKept(shares, total, cores)
  }

  /** Exactly when a step serves everybody: the near-idle processes, which get a whole thread each, are no more than the
      cores that rounding down leaves over, and the leftover cores do not break the cap. */
  lemma ServedExactly(shares: seq<real>, total: int, cores: nat)
    requires |shares| >= 1 && cores >= 1 && forall p :: 0 <= p < |shares| ==> shares[p] >= 0.0
    ensures Served(StepGrant(shares, total, cores).counts, total, cores) <==> Servable(shares, total, cores)
  {
    hide Sum; hide CapKept; hide IdleCount; hide WholeThreads; hide Dispatched;
    CapExactly(shares, total, cores);
    ConservationExactly(shares, total, cores);
    EverybodyServed(shares, total, cores);
  }

  /** In any case everybody gets a thread. */
  lemma EverybodyServed(shares: seq<real>, total: int, cores: nat)
    requires |shares| >= 1 && cores >= 1 && forall p :: 0 <= p < |shares| ==> shares[p] >= 0.0
    ensures forall p :: 0 <= p < |shares| ==> StepGrant(shares, total, cores).counts[p] >= 1
  {
    hide Sum; hide Dispatched;
    var base := BaseGrant(shares, cores);
    forall p | 0 <= p < |shares| ensures StepGrant(shares, total, cores).counts[p] >= 1 {
      CountsGrow(base, total - Sum(base.counts), cores, p);
    }
  }

  /** Shares of at most a socket that sum to the cores never break the cap. */
  lemma SharesWithinSocket(shares: seq<real>, total: int, cores: nat)
    requires |shares| >= 1 && cores >= 1 && RealSum(shares) == total as real
    requires forall p :: 0 <= p < |shares| ==> 0.0 <= shares[p] <= cores as real
    ensures CapKept(shares, total, cores)
  {
    hide Sum; hide RealSum; hide Dispatched; hide CapKept;
    BaseIsFloor(shares, cores);
    QuotaAndConservation(BaseGrant(shares, cores), shares, total, cores);
    CapExactly(shares, total, cores);
  }

  lemma BaseIsFloor(shares: seq<real>, cores: nat)
    requires |shares| >= 1 && cores >= 1 && forall p :: 0 <= p < |shares| ==> 0.0 <= shares[p] < cores as real + 1.0
    ensures FloorsOf(BaseGrant(shares, cores), shares)
  {
  }
}
