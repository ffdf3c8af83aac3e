/** The adjustment of the thread counts of one socket (core_adjust_list_num_threads in core/sabo.c), on values. */
module Adjust {
  import opened Sums

  /** The counts of a socket's processes and its free cores. */
  datatype Socket = Socket(counts: seq<int>, free: int)

  ghost predicate AscendingCounts(counts: seq<int>) {
    && (forall i :: 0 <= i < |counts| ==> counts[i] >= 1)
    && (forall i, j :: 0 <= i < j < |counts| ==> counts[i] <= counts[j])
  }

  function Shifted(counts: seq<int>, amount: int): (r: seq<int>)
    ensures |r| == |counts| && forall i :: 0 <= i < |r| ==> r[i] == counts[i] + amount
  {
    seq(|counts|, i requires 0 <= i < |counts| => counts[i] + amount)
  }

  /** One pass of the shrink loop from process i on: a process with one thread left ends the pass. */
  function ShrinkPass(s: Socket, i: nat): Socket
    requires i <= |s.counts|
    decreases |s.counts| - i
  {
    if i == |s.counts| || s.counts[i] == 1 then s
    else ShrinkPass(Socket(s.counts[i := s.counts[i] - 1], s.free + 1), i + 1)
  }

  function ShrinkPasses(s: Socket, m: nat): (r: Socket) {
    if m == 0 then s else ShrinkPass(ShrinkPasses(s, m - 1), 0)
  }

  /** The shrink loop ends after finitely many passes. */
  ghost predicate ShrinkEnds(s: Socket) {
    exists m: nat :: ShrinkPasses(s, m).free >= 0
  }

  /** m passes of the grow loop, which gives every process a thread in each. */
  function GrowPasses(s: Socket, m: nat): Socket {
    Socket(Shifted(s.counts, m), s.free - |s.counts| * m)
  }

  /** The shrink loop stops after its m-th pass, and the grow loop ends from there. */
  ghost predicate StopsAfter(s: Socket, m: nat) {
    && ShrinkPasses(s, m).free >= 0
    && (forall k: nat :: k < m ==> ShrinkPasses(s, k).free < 0)
    && exists g: nat :: GrowPasses(ShrinkPasses(s, m), g).free <= 0
  }

  /** core_adjust_list_num_threads comes to an end. */
  ghost predicate LoopsEnd(s: Socket) {
    exists m: nat :: StopsAfter(s, m)
  }

  /** What the caller can check beforehand: the smallest count leaves room for all whole rounds that are needed. */
  predicate Adjustable(counts: seq<int>, cores: int) {
    |counts| >= 1 && Sum(counts) - cores <= |counts| * (counts[0] - 1)
  }

  /** By how much the two loops move every process of the socket. */
  function Shift(total: int, cores: int, k: nat): int
    requires k >= 1
  {
    -((total - cores) / k)
  }

  /** The threads on a socket when both loops are done. */
  function Settled(total: int, cores: int, k: nat): int
    requires k >= 1
  {
    cores + (total - cores) % k
  }

  /** A smallest count above the overload leaves room for every round. */
  lemma AdjustableWithHeadroom(counts: seq<int>, cores: int)
    requires |counts| >= 1 && counts[0] >= 1 && counts[0] > Sum(counts) - cores
    ensures Adjustable(counts, cores)
  {
    MulMonotone(counts[0] - 1, 1, |counts|);
  }

  lemma {:induction false} FullPass(s: Socket, i: nat)
    requires i <= |s.counts| && forall j :: i <= j < |s.counts| ==> s.counts[j] > 1
    ensures var r := ShrinkPass(s, i);
      && r.free == s.free + |s.counts| - i
      && |r.counts| == |s.counts|
      && forall j :: 0 <= j < |s.counts| ==> r.counts[j] == s.counts[j] - if j < i then 0 else 1
    decreases |s.counts| - i
  {
    if i < |s.counts| {
      FullPass(Socket(s.counts[i := s.counts[i] - 1], s.free + 1), i + 1);
    }
  }

  lemma MulMonotone(k: nat, a: int, b: int)
    requires a <= b
    ensures k * a <= k * b
  {
  }

  /** All counts move together until the smallest one reaches 1; from then on a pass changes nothing. */
  lemma {:induction false} PassesMoveTogether(s: Socket, m: nat)
    requires |s.counts| >= 1 && AscendingCounts(s.counts)
    ensures var n := if m < s.counts[0] then m else s.counts[0] - 1;
      ShrinkPasses(s, m) == Socket(Shifted(s.counts, -n), s.free + |s.counts| * n)
  {
    if m == 0 {
      assert Shifted(s.counts, 0) == s.counts;
    } else {
      PassesMoveTogether(s, m - 1);
      var before := ShrinkPasses(s, m - 1);
      if m < s.counts[0] {
        FullPass(before, 0);
        assert ShrinkPass(before, 0).counts == Shifted(s.counts, 0 - m);
        assert |s.counts| * (m - 1) + |s.counts| == |s.counts| * m;
      }
    }
  }

  /** Exactly when the shrink loop ends, for a socket with at least one process. */
  lemma ShrinkEndsExactly(counts: seq<int>, cores: nat)
    requires |counts| >= 1 && AscendingCounts(counts)
    ensures ShrinkEnds(Socket(counts, cores - Sum(counts))) <==> Adjustable(counts, cores)
  {
    hide Sum; hide ShrinkPasses; hide AscendingCounts;
    var s := Socket(counts, cores - Sum(counts));
    MostFreed(s, 0);
    var most: nat := counts[0] - 1;
    MostFreed(s, most);
    if m: nat :| ShrinkPasses(s, m).free >= 0 {
      MostFreed(s, m);
    }
  }

  /** Passes free at most all but one thread of the smallest process from every process, and that many passes do. */
  lemma MostFreed(s: Socket, m: nat)
    requires |s.counts| >= 1 && AscendingCounts(s.counts)
    ensures s.counts[0] >= 1
    ensures ShrinkPasses(s, m).free <= s.free + |s.counts| * (s.counts[0] - 1)
    ensures m == s.counts[0] - 1 ==> ShrinkPasses(s, m).free == s.free + |s.counts| * (s.counts[0] - 1)
  {
    hide ShrinkPasses; hide Shifted;
    PassesMoveTogether(s, m);
    MulMonotone(|s.counts|, if m < s.counts[0] then m else s.counts[0] - 1, s.counts[0] - 1);
  }

  lemma {:induction false} FirstStop(s: Socket, m: nat) returns (first: nat)
    requires ShrinkPasses(s, m).free >= 0
    ensures ShrinkPasses(s, first).free >= 0 && forall k: nat :: k < first ==> ShrinkPasses(s, k).free < 0
    decreases m
  {
    if k: nat :| k < m && ShrinkPasses(s, k).free >= 0 {
      first := FirstStop(s, k);
    } else {
      first := m;
    }
  }

  lemma {:induction false} PassesKeepLength(s: Socket, m: nat)
    ensures |ShrinkPasses(s, m).counts| == |s.counts|
  {
    if m > 0 {
      PassesKeepLength(s, m - 1);
      PassKeepsLength(ShrinkPasses(s, m - 1), 0);
    }
  }

  lemma {:induction false} PassKeepsLength(s: Socket, i: nat)
    requires i <= |s.counts|
    ensures |ShrinkPass(s, i).counts| == |s.counts|
    decreases |s.counts| - i
  {
    if i < |s.counts| && s.counts[i] != 1 {
      PassKeepsLength(Socket(s.counts[i := s.counts[i] - 1], s.free + 1), i + 1);
    }
  }

  /** Exactly when the two loops end on a socket that has cores: there is a process on it, and the smallest count leaves
      room for the rounds that the overload needs. An empty socket loops for ever in the second loop. */
  lemma LoopsEndExactly(counts: seq<int>, cores: nat)
    requires AscendingCounts(counts) && cores >= 1
    ensures LoopsEnd(Socket(counts, cores - Sum(counts))) <==> Adjustable(counts, cores)
  {
    var s := Socket(counts, cores - Sum(counts));
    if |counts| >= 1 {
      ShrinkEndsExactly(counts, cores);
      if Adjustable(counts, cores) {
        var m: nat :| ShrinkPasses(s, m).free >= 0;
        m := FirstStop(s, m);
        PassesKeepLength(s, m);
        var g: nat := ShrinkPasses(s, m).free;
        MulMonotone(g, 1, |counts|);
        assert GrowPasses(ShrinkPasses(s, m), g).free <= 0;
        assert StopsAfter(s, m);
      }
    } else {
      forall m: nat ensures !StopsAfter(s, m) {
        EmptySocketSpins(s, m);
      }
    }
  }

  lemma {:induction false} EmptySocketSpins(s: Socket, m: nat)
    requires s.counts == [] && s.free >= 1
    ensures ShrinkPasses(s, m) == s && !StopsAfter(s, m)
  {
    if m > 0 {
      EmptySocketSpins(s, m - 1);
    }
    forall g: nat ensures GrowPasses(s, g).free > 0 {
      assert |s.counts| * g == 0;
    }
  }

  /** What the counts become when both loops end: every process moves by the same amount, and the socket ends at C plus
      the remainder of T - C, which is C exactly when the number of processes divides T - C. */
  function Adjusted(counts: seq<int>, cores: int): seq<int>
    requires |counts| >= 1
  {
    Shifted(counts, Shift(Sum(counts), cores, |counts|))
  }

  lemma {:induction false} SumShifted(counts: seq<int>, amount: int)
    ensures Sum(Shifted(counts, amount)) == Sum(counts) + |counts| * amount
  {
    if counts != [] {
      var k := |counts| - 1;
      SumShifted(counts[..k], amount);
      assert Shifted(counts, amount)[..k] == Shifted(counts[..k], amount);
      assert k * amount + amount == |counts| * amount;
    }
  }

  lemma DivModUnique(x: int, k: nat, q: int, r: int)
    requires k >= 1 && x == k * q + r && 0 <= r < k
    ensures q == x / k && r == x % k
  {
    var q', r' := x / k, x % k;
    assert x == k * q' + r';
    if q < q' {
      MulMonotone(k, q + 1, q');
    } else if q' < q {
      MulMonotone(k, q' + 1, q);
    }
  }

  lemma Split(x: int, k: nat)
    requires k >= 1
    ensures x == k * (x / k) + x % k
    ensures k * (-(x / k)) == x % k - x
  {
  }

  lemma QuotientBound(x: int, k: nat, bound: int)
    requires k >= 1 && x <= k * bound
    ensures x / k <= bound
  {
    Split(x, k);
    if x / k >= bound + 1 {
      MulMonotone(k, bound + 1, x / k);
    }
  }

  lemma TotalAfterAdjustment(counts: seq<int>, cores: int)
    requires |counts| >= 1
    ensures Sum(Adjusted(counts, cores)) == Settled(Sum(counts), cores, |counts|)
    ensures Sum(Adjusted(counts, cores)) == cores <==> (Sum(counts) - cores) % |counts| == 0
  {
    hide Sum; hide Shifted;
    var amount := Shift(Sum(counts), cores, |counts|);
    SumShifted(counts, amount);
    Split(Sum(counts) - cores, |counts|);
  }

  /** The adjustment leaves every process a thread. */
  lemma AdjustedKeepsThreads(counts: seq<int>, cores: int)
    requires AscendingCounts(counts) && Adjustable(counts, cores)
    ensures forall i :: 0 <= i < |counts| ==> Adjusted(counts, cores)[i] >= 1
  {
    QuotientBound(Sum(counts) - cores, |counts|, counts[0] - 1);
  }
}
