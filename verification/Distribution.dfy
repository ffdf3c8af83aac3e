/** From the elapsed times of a window to the thread counts that the placement starts from (core/sabo.c), on values.
    Row p of a matrix belongs to rank p, column w to window slot w. */
module Distribution {
  import opened Sums
  import opened Placement
  import opened Apportion
  import opened SocketCap

  ghost predicate Matrix<T>(rows: seq<seq<T>>, window: nat) {
    |rows| >= 1 && window >= 1 && forall p :: 0 <= p < |rows| ==> |rows[p]| == window
  }

  function Column<T>(rows: seq<seq<T>>, w: nat): (c: seq<T>)
    requires forall p :: 0 <= p < |rows| ==> w < |rows[p]|
    ensures |c| == |rows| && forall p :: 0 <= p < |rows| ==> c[p] == rows[p][w]
  {
    seq(|rows|, p requires 0 <= p < |rows| => rows[p][w])
  }

  /** The number of cores that each process's time is worth (core/sabo.c:432-433). */
  function Shares(times: seq<real>, total: int): (shares: seq<real>)
    requires RealSum(times) != 0.0
    ensures |shares| == |times|
  {
    Scaled(times, RealSum(times), total as real)
  }

  function Scale(time: real, sum: real, total: real): real
    requires sum != 0.0
  {
    time / sum * total
  }

  function Scaled(times: seq<real>, sum: real, total: real): (shares: seq<real>)
    requires sum != 0.0
    ensures |shares| == |times| && forall p :: 0 <= p < |times| ==> shares[p] == Scale(times[p], sum, total)
  {
    seq(|times|, p requires 0 <= p < |times| => Scale(times[p], sum, total))
  }

  lemma {:induction false} ScaledTotal(times: seq<real>, sum: real, total: real)
    requires sum != 0.0
    ensures RealSum(Scaled(times, sum, total)) == Scale(RealSum(times), sum, total)
  {
    hide Scale;
    ScaleAdd(0.0, 0.0, sum, total);
    if times != [] {
      var k := |times| - 1;
      ScaledTotal(times[..k], sum, total);
      assert Scaled(times, sum, total)[..k] == Scaled(times[..k], sum, total);
      ScaleAdd(RealSum(times[..k]), times[k], sum, total);
    }
  }

  lemma ScaleAdd(x: real, y: real, sum: real, total: real)
    requires sum != 0.0
    ensures Scale(x + y, sum, total) == Scale(x, sum, total) + Scale(y, sum, total)
    ensures Scale(0.0, sum, total) == 0.0
  {
  }

  lemma SharesTotal(times: seq<real>, total: int)
    requires RealSum(times) != 0.0
    ensures RealSum(Shares(times, total)) == total as real
  {
    hide RealSum; hide Scaled;
    ScaledTotal(times, RealSum(times), total as real);
  }

  /** The shares are in proportion to the times. */
  lemma SharesProportional(times: seq<real>, total: int)
    requires RealSum(times) != 0.0
    ensures forall p :: 0 <= p < |times| ==> Shares(times, total)[p] * RealSum(times) == times[p] * total as real
  {
    hide RealSum; hide Scale;
    forall p | 0 <= p < |times| ensures Shares(times, total)[p] * RealSum(times) == times[p] * total as real {
      Unscale(times[p], RealSum(times), total as real);
    }
  }

  lemma Unscale(time: real, sum: real, total: real)
    requires sum != 0.0
    ensures Scale(time, sum, total) * sum == time * total
  {
    var part := time / sum;
    assert part * sum == time;
    Reorder(part, sum, total);
  }

  lemma Reorder(a: real, b: real, c: real)
    ensures a * c * b == a * b * c
  {
  }

  /** No share is as much as a thread above a socket. */
  ghost predicate NearlyFits(shares: seq<real>, cores: nat) {
    |shares| >= 1 && forall p :: 0 <= p < |shares| ==> 0.0 <= shares[p] < cores as real + 1.0
  }

  /** One step whose shares are less than a thread above a socket: every count is its share rounded down or up, or one
      thread for a share below one, and not above a socket if the share is not. The cores are all handed out, and no
      more than them, exactly if the near-idle processes fit into what rounding down leaves over. */
  lemma StepGuarantees(shares: seq<real>, total: int, cores: nat)
    requires NearlyFits(shares, cores) && cores >= 1 && RealSum(shares) == total as real
    ensures var counts := StepGrant(shares, total, cores).counts;
      && (forall p :: 0 <= p < |shares| ==> Quota(counts[p], shares[p]))
      && (forall p :: 0 <= p < |shares| && shares[p] <= cores as real ==> 1 <= counts[p] <= cores)
      && (Sum(counts) == total <==> IdleCount(shares) <= total - WholeThreads(shares, cores))
  {
    hide Dispatched; hide RealSum; hide Sum; hide BaseGrant; hide FloorsOf; hide ByLargestRemainder; hide Quota;
    BaseIsFloor(shares, cores);
    QuotaAndConservation(BaseGrant(shares, cores), shares, total, cores);
    ConservationExactly(shares, total, cores);
  }

  /** Largest remainder, told from the shares: whoever is rounded up has no smaller fraction than whoever is not. */
  lemma LargerFractionsFirst(shares: seq<real>, total: int, cores: nat, p: nat, r: nat)
    requires NearlyFits(shares, cores) && cores >= 1 && RealSum(shares) == total as real
    requires p < |shares| && r < |shares| && shares[p] >= 1.0 && shares[r] >= 1.0
    requires StepGrant(shares, total, cores).counts[p] > shares[p].Floor
    requires StepGrant(shares, total, cores).counts[r] == shares[r].Floor
    ensures Fraction(shares[p]) >= Fraction(shares[r])
  {
    hide Dispatched; hide RealSum; hide Sum; hide BaseGrant; hide Quota;
    var g := BaseGrant(shares, cores);
    BaseIsFloor(shares, cores);
    QuotaAndConservation(g, shares, total, cores);
    assert FloorOf(g.counts[p], g.deltas[p], shares[p]) && FloorOf(g.counts[r], g.deltas[r], shares[r]);
  }

  /** And if they fit, no other whole counts with the same total that leave nobody without a thread are nearer to the
      shares. */
  lemma StepIsNearest(shares: seq<real>, total: int, cores: nat, others: seq<int>)
    requires NearlyFits(shares, cores) && cores >= 1 && RealSum(shares) == total as real
    requires IdleCount(shares) <= total - WholeThreads(shares, cores)
    requires ServesIdle(others, shares) && Sum(others) == total
    ensures Deviation(StepGrant(shares, total, cores).counts, shares) <= Deviation(others, shares)
  {
    hide Dispatched; hide RealSum; hide Sum; hide Deviation; hide ServesIdle;
    BaseIsFloor(shares, cores);
    ConservationExactly(shares, total, cores);
    LargestRemainderIsNearest(BaseGrant(shares, cores), shares, total, cores, others);
  }

  // ---------------------------------------------------------------- averages over the window

  function Mean(row: seq<int>): real
    requires |row| >= 1
  {
    Sum(row) as real / |row| as real
  }

  function Means(rows: seq<seq<int>>): (means: seq<real>)
    requires forall p :: 0 <= p < |rows| ==> |rows[p]| >= 1
    ensures |means| == |rows| && forall p :: 0 <= p < |rows| ==> means[p] == Mean(rows[p])
  {
    seq(|rows|, p requires 0 <= p < |rows| => Mean(rows[p]))
  }

  /** core_compute_step_process_avg for every process. */
  function MeanGrant(rows: seq<seq<int>>, cores: nat): (g: Grant)
    requires forall p :: 0 <= p < |rows| ==> |rows[p]| >= 1
    ensures |g.counts| == |g.deltas| == |rows|
  {
    Grant(seq(|rows|, p requires 0 <= p < |rows| => Mean(rows[p]).Floor),
          seq(|rows|, p requires 0 <= p < |rows| =>
            if cores == Mean(rows[p]).Floor then -1.0 else Mean(rows[p]) - Mean(rows[p]).Floor as real))
  }

  lemma MeanGrantAt(rows: seq<seq<int>>, cores: nat, p: nat)
    requires p < |rows| && forall r :: 0 <= r < |rows| ==> |rows[r]| >= 1
    ensures MeanGrant(rows, cores).counts[p] == Mean(rows[p]).Floor
    ensures MeanGrant(rows, cores).deltas[p]
      == if cores == Mean(rows[p]).Floor then -1.0 else Mean(rows[p]) - Mean(rows[p]).Floor as real
  {
  }

  /** core_compute_average_step_num_threads. */
  function WindowCounts(rows: seq<seq<int>>, total: int, cores: nat): (counts: seq<int>)
    requires |rows| >= 1 && forall p :: 0 <= p < |rows| ==> |rows[p]| >= 1
    ensures |counts| == |rows|
  {
    var g := MeanGrant(rows, cores);
    Dispatched(g, total - Sum(g.counts), cores).counts
  }

  lemma {:induction false} SumPointwise(xs: seq<int>, ys: seq<int>, zs: seq<int>)
    requires |xs| == |ys| == |zs| && forall i :: 0 <= i < |xs| ==> zs[i] == xs[i] + ys[i]
    ensures Sum(zs) == Sum(xs) + Sum(ys)
  {
    if xs != [] {
      var k := |xs| - 1;
      SumPointwise(xs[..k], ys[..k], zs[..k]);
    }
  }

  function PrefixTotals(rows: seq<seq<int>>, w: nat): (t: seq<int>)
    requires forall p :: 0 <= p < |rows| ==> w <= |rows[p]|
    ensures |t| == |rows| && forall p :: 0 <= p < |rows| ==> t[p] == Sum(rows[p][..w])
  {
    seq(|rows|, p requires 0 <= p < |rows| => Sum(rows[p][..w]))
  }

  /** Summing by rank and by window slot gives the same total. */
  lemma {:induction false} TotalsByColumn(rows: seq<seq<int>>, window: nat, total: int, w: nat)
    requires Matrix(rows, window) && w <= window
    requires forall v :: 0 <= v < window ==> Sum(Column(rows, v)) == total
    ensures Sum(PrefixTotals(rows, w)) == w * total
  {
    if w == 0 {
      assert PrefixTotals(rows, 0) == seq(|rows|, _ => 0);
      SumConstant(|rows|, 0);
    } else {
      TotalsByColumn(rows, window, total, w - 1);
      forall p | 0 <= p < |rows| ensures PrefixTotals(rows, w)[p] == PrefixTotals(rows, w-1)[p] + Column(rows, w-1)[p] {
        SumTake(rows[p], w - 1);
      }
      SumPointwise(PrefixTotals(rows, w - 1), Column(rows, w - 1), PrefixTotals(rows, w));
      assert (w - 1) * total + total == w * total;
    }
  }

  lemma {:induction false} QuotientTotal(xs: seq<int>, quotients: seq<real>, window: nat)
    requires window >= 1 && |quotients| == |xs|
    requires forall p :: 0 <= p < |xs| ==> quotients[p] == xs[p] as real / window as real
    ensures RealSum(quotients) == Sum(xs) as real / window as real
  {
    if xs != [] {
      QuotientTotal(xs[..|xs|-1], quotients[..|xs|-1], window);
    }
  }

  lemma MeansTotal(rows: seq<seq<int>>, window: nat, total: int)
    requires Matrix(rows, window)
    requires forall v :: 0 <= v < window ==> Sum(Column(rows, v)) == total
    ensures RealSum(Means(rows)) == total as real
  {
    TotalsByColumn(rows, window, total, window);
    var totals := PrefixTotals(rows, window);
    forall p | 0 <= p < |rows| ensures Means(rows)[p] == totals[p] as real / window as real {
      assert rows[p][..window] == rows[p];
    }
    QuotientTotal(totals, Means(rows), window);
    Divide(window, total);
  }

  lemma Divide(window: nat, total: int)
    requires window >= 1
    ensures (window * total) as real / window as real == total as real
  {
    assert (window * total) as real == window as real * total as real;
  }

  lemma MeanAtLeast(row: seq<int>, lo: int)
    requires |row| >= 1 && forall w :: 0 <= w < |row| ==> lo <= row[w]
    ensures lo as real <= Mean(row)
  {
    SumAtLeast(row, lo);
    Divide(|row|, lo);
    DivideMonotone((|row| * lo) as real, Sum(row) as real, |row| as real);
  }

  lemma MeanBounds(row: seq<int>, lo: int, hi: int)
    requires |row| >= 1 && forall w :: 0 <= w < |row| ==> lo <= row[w] <= hi
    ensures lo as real <= Mean(row) <= hi as real
  {
    MeanAtLeast(row, lo);
    SumAtMost(row, hi);
    Divide(|row|, hi);
    DivideMonotone(Sum(row) as real, (|row| * hi) as real, |row| as real);
  }

  lemma DivideMonotone(x: real, y: real, divisor: real)
    requires x <= y && divisor > 0.0
    ensures x / divisor <= y / divisor
  {
  }

  /** The mean in whole numbers: its floor is the quotient of the row's sum, and its fraction the remainder. */
  lemma MeanParts(row: seq<int>)
    requires |row| >= 1
    ensures Mean(row).Floor == Sum(row) / |row|
    ensures Fraction(Mean(row)) * |row| as real == (Sum(row) % |row|) as real
  {
    hide Sum;
    var n, q, r := |row|, Sum(row) / |row|, Sum(row) % |row|;
    assert Sum(row) == n * q + r;
    Divide(n, q);
    var fraction := r as real / n as real;
    assert (n * q + r) as real / n as real == (n * q) as real / n as real + fraction by {
      DivideSum((n * q) as real, r as real, n as real);
    }
    Proper(r as real, n as real);
  }

  lemma DivideSum(x: real, y: real, divisor: real)
    requires divisor != 0.0
    ensures (x + y) / divisor == x / divisor + y / divisor
  {
  }

  lemma Proper(x: real, divisor: real)
    requires 0.0 <= x < divisor
    ensures 0.0 <= x / divisor < 1.0 && x / divisor * divisor == x
  {
  }

  lemma MeanGrantFloors(rows: seq<seq<int>>, cores: nat)
    requires |rows| >= 1
    requires forall p :: 0 <= p < |rows| ==> |rows[p]| >= 1 && 1.0 <= Mean(rows[p]) <= cores as real
    ensures FloorsOf(MeanGrant(rows, cores), Means(rows))
  {
    hide Mean;
  }

  lemma MeansServed(rows: seq<seq<int>>, window: nat, total: int, cores: nat)
    requires Matrix(rows, window)
    requires forall v :: 0 <= v < window ==> Served(Column(rows, v), total, cores)
    ensures cores >= 1 && forall p :: 0 <= p < |rows| ==> 1.0 <= Mean(rows[p]) <= cores as real
    ensures FloorsOf(MeanGrant(rows, cores), Means(rows))
  {
    hide Mean; hide Sum;
    assert 1 <= Column(rows, 0)[0] <= cores;
    forall p | 0 <= p < |rows| ensures 1.0 <= Mean(rows[p]) <= cores as real {
      forall v | 0 <= v < window ensures 1 <= rows[p][v] <= cores {
        assert Column(rows, v)[p] == rows[p][v];
      }
      MeanBounds(rows[p], 1, cores);
    }
    MeanGrantFloors(rows, cores);
  }

  /** Averaging keeps the guarantees of the steps: the cores are all handed out, and each count is within one of its
      mean, between one thread and a socket. */
  lemma WindowGuarantees(rows: seq<seq<int>>, window: nat, total: int, cores: nat)
    requires Matrix(rows, window)
    requires forall v :: 0 <= v < window ==> Served(Column(rows, v), total, cores)
    ensures Served(WindowCounts(rows, total, cores), total, cores)
    ensures forall p :: 0 <= p < |rows| ==>
      -1.0 < WindowCounts(rows, total, cores)[p] as real - Mean(rows[p]) < 1.0
  {
    hide Mean; hide Sum; hide RealSum; hide Dispatched;
    MeansServed(rows, window, total, cores);
    MeansTotal(rows, window, total);
    FloorsAtMostMeans(rows, total, cores);
    hide MeanGrant;
    QuotaAndConservation(MeanGrant(rows, cores), Means(rows), total, cores);
  }

  /** Rounding the means down does not grant more than the total. */
  lemma FloorsAtMostMeans(rows: seq<seq<int>>, total: int, cores: nat)
    requires |rows| >= 1 && (forall p :: 0 <= p < |rows| ==> |rows[p]| >= 1) && RealSum(Means(rows)) == total as real
    ensures Sum(MeanGrant(rows, cores).counts) <= total
  {
    hide Mean;
    FloorsBelow(MeanGrant(rows, cores).counts, Means(rows));
  }

  lemma {:induction false} FloorsBelow(counts: seq<int>, shares: seq<real>)
    requires |counts| == |shares| && forall p :: 0 <= p < |counts| ==> counts[p] == shares[p].Floor
    ensures Sum(counts) as real <= RealSum(shares)
  {
    if counts != [] {
      FloorsBelow(counts[..|counts|-1], shares[..|shares|-1]);
    }
  }

  /** The count is the quotient of the steps' sum, or one more if there is a remainder. */
  ghost predicate Rounded(sum: int, window: nat, count: int)
    requires window >= 1
  {
    count == sum / window || (count == sum / window + 1 && sum % window > 0)
  }

  /** One rank's average under largest remainders. */
  lemma RoundedAverage(rows: seq<seq<int>>, cores: nat, counts: seq<int>, p: nat)
    requires |rows| >= 1 && (forall r :: 0 <= r < |rows| ==> |rows[r]| >= 1) && p < |rows|
    requires ByLargestRemainder(MeanGrant(rows, cores), counts)
    ensures Rounded(Sum(rows[p]), |rows[p]|, counts[p])
  {
    hide Mean; hide Sum;
    MeanParts(rows[p]);
    MeanGrantAt(rows, cores, p);
  }

  lemma LargerRemainder(rows: seq<seq<int>>, window: nat, cores: nat, counts: seq<int>, p: nat, r: nat)
    requires Matrix(rows, window) && p < |rows| == |counts| && r < |rows|
    requires ByLargestRemainder(MeanGrant(rows, cores), counts) && FloorsOf(MeanGrant(rows, cores), Means(rows))
    requires counts[p] > Sum(rows[p]) / window && counts[r] == Sum(rows[r]) / window
    ensures Sum(rows[p]) % window >= Sum(rows[r]) % window
  {
    hide Mean; hide Sum; hide ByLargestRemainder; hide FloorsOf; hide MeanGrant; hide Fraction;
    MeanParts(rows[p]);
    MeanParts(rows[r]);
    LargerFraction(rows, cores, counts, p, r);
    CompareParts(Fraction(Mean(rows[p])), Fraction(Mean(rows[r])), window,
                 Sum(rows[p]) % window, Sum(rows[r]) % window);
  }

  lemma CompareParts(a: real, b: real, window: nat, x: int, y: int)
    requires a >= b && a * window as real == x as real && b * window as real == y as real
    ensures x >= y
  {
    TimesMonotone(b, a, window as real);
  }

  lemma LargerFraction(rows: seq<seq<int>>, cores: nat, counts: seq<int>, p: nat, r: nat)
    requires |rows| >= 1 && (forall k :: 0 <= k < |rows| ==> |rows[k]| >= 1) && p < |rows| == |counts| && r < |rows|
    requires ByLargestRemainder(MeanGrant(rows, cores), counts) && FloorsOf(MeanGrant(rows, cores), Means(rows))
    requires counts[p] > Mean(rows[p]).Floor && counts[r] == Mean(rows[r]).Floor
    ensures Fraction(Mean(rows[p])) >= Fraction(Mean(rows[r]))
  {
    hide Mean; hide ByLargestRemainder; hide MeanGrant;
    var g := MeanGrant(rows, cores);
    MeanGrantAt(rows, cores, p);
    MeanGrantAt(rows, cores, r);
    assert FloorOf(g.counts[p], g.deltas[p], Means(rows)[p]) && FloorOf(g.counts[r], g.deltas[r], Means(rows)[r]);
    FirstServed(g, counts, p, r);
  }

  lemma FirstServed(g: Grant, counts: seq<int>, p: nat, r: nat)
    requires ByLargestRemainder(g, counts) && p < |counts| && r < |counts|
    requires counts[p] > g.counts[p] && counts[r] == g.counts[r]
    ensures g.deltas[p] >= g.deltas[r] && g.deltas[p] > 0.0
  {
  }

  /** What the averages give, in whole numbers: every count n of a window of w steps has its steps' sum between w(n-1)
      and w(n+1), and a rank whose count is rounded up has no smaller remainder than one whose count is not. */
  lemma AveragesInThreads(rows: seq<seq<int>>, window: nat, total: int, cores: nat)
    requires Matrix(rows, window)
    requires forall v :: 0 <= v < window ==> Served(Column(rows, v), total, cores)
    ensures var counts := WindowCounts(rows, total, cores);
      && (forall p :: 0 <= p < |rows| ==> Rounded(Sum(rows[p]), window, counts[p]))
      && (forall p :: 0 <= p < |rows| ==> window * (counts[p] - 1) < Sum(rows[p]) < window * (counts[p] + 1))
      && (forall p, r ::
            0 <= p < |rows| && 0 <= r < |rows|
            && counts[p] > Sum(rows[p]) / window && counts[r] == Sum(rows[r]) / window ==>
            Sum(rows[p]) % window >= Sum(rows[r]) % window)
  {
    hide Mean; hide Sum; hide RealSum; hide Dispatched; hide Quota; hide FloorsOf; hide ByLargestRemainder;
    hide MeanGrant; hide Rounded;
    var counts := WindowCounts(rows, total, cores);
    MeansServed(rows, window, total, cores);
    MeansTotal(rows, window, total);
    QuotaAndConservation(MeanGrant(rows, cores), Means(rows), total, cores);
    forall p | 0 <= p < |rows|
      ensures Rounded(Sum(rows[p]), window, counts[p])
      ensures window * (counts[p] - 1) < Sum(rows[p]) < window * (counts[p] + 1)
    {
      RoundedAverage(rows, cores, counts, p);
      RoundedBounds(Sum(rows[p]), window, counts[p]);
    }
    forall p, r | 0 <= p < |rows| && 0 <= r < |rows|
      && counts[p] > Sum(rows[p]) / window && counts[r] == Sum(rows[r]) / window
      ensures Sum(rows[p]) % window >= Sum(rows[r]) % window
    {
      LargerRemainder(rows, window, cores, counts, p, r);
    }
  }

  lemma TimesMonotone(a: real, b: real, factor: real)
    requires a <= b && factor >= 0.0
    ensures a * factor <= b * factor
  {
  }

  lemma RoundedBounds(sum: int, window: nat, count: int)
    requires window >= 1 && Rounded(sum, window, count)
    ensures window * (count - 1) < sum < window * (count + 1)
  {
    assert sum == window * (sum / window) + sum % window;
    if count == sum / window {
      assert window * (count + 1) == window * count + window && window * (count - 1) == window * count - window;
    } else {
      assert window * (count + 1) == window * (sum / window) + 2 * window;
      assert window * (count - 1) == window * (sum / window);
    }
  }

  /** The floors of the means are within a socket and within the total, and the leftover cores do not break the cap. */
  ghost predicate MeansServable(rows: seq<seq<int>>, total: int, cores: nat)
    requires |rows| >= 1 && forall p :: 0 <= p < |rows| ==> |rows[p]| >= 1
  {
    var g := MeanGrant(rows, cores);
    var left := total - Sum(g.counts);
    && WithinCap(g.counts, cores)
    && left >= 0
    && (left == 0 || (total <= |rows| * cores && Shielded(g, left, cores)))
  }

  /** Nobody ends below the floor of its mean, so everybody has a thread. */
  lemma CountsFromMeans(rows: seq<seq<int>>, total: int, cores: nat)
    requires |rows| >= 1 && forall p :: 0 <= p < |rows| ==> |rows[p]| >= 1 && Mean(rows[p]) >= 1.0
    ensures forall p :: 0 <= p < |rows| ==> WindowCounts(rows, total, cores)[p] >= Mean(rows[p]).Floor >= 1
  {
    hide Sum; hide Mean; hide Dispatched;
    var g := MeanGrant(rows, cores);
    forall p | 0 <= p < |rows| ensures WindowCounts(rows, total, cores)[p] >= Mean(rows[p]).Floor >= 1 {
      CountsGrow(g, total - Sum(g.counts), cores, p);
    }
  }

  /** Exactly when the averages serve everybody, for any counts of the steps: sums and caps may be broken in some step
      as long as the floors of the means are not too large. */
  lemma WindowServedExactly(rows: seq<seq<int>>, total: int, cores: nat)
    requires |rows| >= 1 && cores >= 1
    requires forall p :: 0 <= p < |rows| ==> |rows[p]| >= 1 && Mean(rows[p]) >= 1.0
    ensures Served(WindowCounts(rows, total, cores), total, cores) <==> MeansServable(rows, total, cores)
  {
    hide Sum; hide Mean; hide Dispatched; hide Shielded;
    var g := MeanGrant(rows, cores);
    var left := total - Sum(g.counts);
    DispatchedTotal(g, left, cores);
    CountsFromMeans(rows, total, cores);
    if WithinCap(g.counts, cores) && left >= 0 {
      CapOfDispatch(g, left, cores);
    }
  }

  // ---------------------------------------------------------------- the whole distribution

  ghost predicate Busy(times: seq<seq<real>>, window: nat) {
    Matrix(times, window) && forall w :: 0 <= w < window ==> RealSum(Column(times, w)) != 0.0
  }

  /** The window holds times, and in no step all of them are zero. */
  ghost predicate Measured(times: seq<seq<real>>, window: nat) {
    && Busy(times, window)
    && forall p, w :: 0 <= p < |times| && 0 <= w < window ==> times[p][w] >= 0.0
  }

  ghost function StepCounts(times: seq<seq<real>>, window: nat, total: int, cores: nat, w: nat): (counts: seq<int>)
    requires Busy(times, window) && w < window
    ensures |counts| == |times|
  {
    StepGrant(Shares(Column(times, w), total), total, cores).counts
  }

  /** Row p: what rank p gets in each window step (core_compute_step_num_threads). */
  ghost function StepRows(times: seq<seq<real>>, window: nat, total: int, cores: nat): (rows: seq<seq<int>>)
    requires Busy(times, window)
    ensures |rows| == |times| && forall p :: 0 <= p < |rows| ==>
      |rows[p]| == window && forall w :: 0 <= w < window ==> rows[p][w] == StepCounts(times, window, total, cores, w)[p]
  {
    seq(|times|, p requires 0 <= p < |times| =>
      seq(window, w requires 0 <= w < window => StepCounts(times, window, total, cores, w)[p]))
  }

  /** core_compute_new_threads_distribution. */
  ghost function NewCounts(times: seq<seq<real>>, window: nat, total: int, cores: nat): (counts: seq<int>)
    requires Busy(times, window)
    ensures |counts| == |times|
  {
    WindowCounts(StepRows(times, window, total, cores), total, cores)
  }

  /** In every step of the window everybody can be served. */
  ghost predicate ServableWindow(times: seq<seq<real>>, window: nat, total: int, cores: nat)
    requires Busy(times, window)
  {
    forall w :: 0 <= w < window ==> Servable(Shares(Column(times, w), total), total, cores)
  }

  lemma ScaleSign(time: real, sum: real, total: real)
    requires time >= 0.0 && sum > 0.0 && total >= 0.0
    ensures Scale(time, sum, total) >= 0.0
  {
    assert time / sum >= 0.0;
  }

  lemma {:induction false} TimesSum(times: seq<real>)
    requires forall p :: 0 <= p < |times| ==> times[p] >= 0.0
    ensures RealSum(times) >= 0.0
  {
    if times != [] {
      TimesSum(times[..|times|-1]);
    }
  }

  lemma SharesNonNegative(times: seq<real>, total: int)
    requires RealSum(times) != 0.0 && total >= 0 && forall p :: 0 <= p < |times| ==> times[p] >= 0.0
    ensures forall p :: 0 <= p < |times| ==> Shares(times, total)[p] >= 0.0
  {
    hide RealSum; hide Scale;
    TimesSum(times);
    forall p | 0 <= p < |times| ensures Shares(times, total)[p] >= 0.0 {
      ScaleSign(times[p], RealSum(times), total as real);
    }
  }

  lemma StepShares(times: seq<seq<real>>, window: nat, total: int, w: nat)
    requires Measured(times, window) && total >= 0 && w < window
    ensures forall p :: 0 <= p < |times| ==> Shares(Column(times, w), total)[p] >= 0.0
  {
    hide RealSum; hide Shares;
    SharesNonNegative(Column(times, w), total);
  }

  /** The distribution never leaves a core to spare: near-idle processes can only make it hand out too many. */
  lemma NoCoresToSpare(times: seq<seq<real>>, window: nat, total: int, cores: nat)
    requires Busy(times, window)
    ensures Sum(NewCounts(times, window, total, cores)) >= total
  {
    hide Sum; hide StepCounts; hide MeanGrant; hide Dispatched;
    var g := MeanGrant(StepRows(times, window, total, cores), cores);
    DispatchedTotal(g, total - Sum(g.counts), cores);
  }

  lemma StepColumn(times: seq<seq<real>>, window: nat, total: int, cores: nat, w: nat)
    requires Measured(times, window) && total >= 0 && cores >= 1 && w < window
    ensures var rows := StepRows(times, window, total, cores); var shares := Shares(Column(times, w), total);
      && (Served(Column(rows, w), total, cores) <==> Servable(shares, total, cores))
      && forall p :: 0 <= p < |rows| ==> rows[p][w] >= 1
  {
    hide RealSum; hide Sum; hide StepGrant; hide Shares; hide Servable;
    var shares := Shares(Column(times, w), total);
    StepShares(times, window, total, w);
    ServedExactly(shares, total, cores);
    EverybodyServed(shares, total, cores);
    assert Column(StepRows(times, window, total, cores), w) == StepCounts(times, window, total, cores, w);
  }

  /** Every step of the window serves everybody exactly when the shares say so beforehand, and then so do the
      averages. */
  lemma WindowServed(times: seq<seq<real>>, window: nat, total: int, cores: nat)
    requires Measured(times, window) && total >= 0 && cores >= 1
    ensures var rows := StepRows(times, window, total, cores);
      (forall w :: 0 <= w < window ==> Served(Column(rows, w), total, cores))
        <==> ServableWindow(times, window, total, cores)
    ensures ServableWindow(times, window, total, cores) ==>
      MeansServable(StepRows(times, window, total, cores), total, cores)
  {
    hide RealSum; hide StepCounts; hide WindowCounts; hide Shares; hide Mean; hide Served; hide Servable;
    hide MeansServable;
    var rows := StepRows(times, window, total, cores);
    forall w | 0 <= w < window
      ensures Served(Column(rows, w), total, cores) <==> Servable(Shares(Column(times, w), total), total, cores)
    {
      StepColumn(times, window, total, cores, w);
    }
    if ServableWindow(times, window, total, cores) {
      WindowGuarantees(rows, window, total, cores);
      MeansAtLeastOne(times, window, total, cores);
      WindowServedExactly(rows, total, cores);
    }
  }

  /** A window in which nobody's time is worth more than a socket, and the near-idle processes are no more than the
      cores that rounding down leaves over, can serve everybody: the shares of measured times sum to the cores. */
  lemma ModestWindow(times: seq<seq<real>>, window: nat, total: int, cores: nat)
    requires Measured(times, window) && total >= 0 && cores >= 1
    requires forall w :: 0 <= w < window ==> Modest(Shares(Column(times, w), total), total, cores)
    ensures ServableWindow(times, window, total, cores)
  {
    hide RealSum; hide Shares; hide CapKept; hide IdleCount; hide WholeThreads;
    forall w | 0 <= w < window ensures Servable(Shares(Column(times, w), total), total, cores) {
      var shares := Shares(Column(times, w), total);
      assert Modest(shares, total, cores);
      StepShares(times, window, total, w);
      SharesTotal(Column(times, w), total);
      SharesWithinSocket(shares, total, cores);
    }
  }

  /** No share is above a socket, and the near-idle processes fit into what rounding down leaves over. */
  ghost predicate Modest(shares: seq<real>, total: int, cores: nat) {
    && (forall p :: 0 <= p < |shares| ==> shares[p] <= cores as real)
    && IdleCount(shares) <= total - WholeThreads(shares, cores)
  }

  lemma MeansAtLeastOne(times: seq<seq<real>>, window: nat, total: int, cores: nat)
    requires Measured(times, window) && total >= 0 && cores >= 1
    ensures forall p :: 0 <= p < |times| ==> Mean(StepRows(times, window, total, cores)[p]) >= 1.0
  {
    hide RealSum; hide StepCounts; hide Mean; hide Shares;
    var rows := StepRows(times, window, total, cores);
    forall p | 0 <= p < |times| ensures Mean(rows[p]) >= 1.0 {
      forall w | 0 <= w < window ensures rows[p][w] >= 1 {
        StepColumn(times, window, total, cores, w);
      }
      MeanAtLeast(rows[p], 1);
    }
  }

  /** What a servable window gives to a rank is its steps' average, rounded: less than one thread from it on either
      side. */
  lemma NewCountsAreAverages(times: seq<seq<real>>, window: nat, total: int, cores: nat, p: nat)
    requires Measured(times, window) && total >= 0 && cores >= 1 && ServableWindow(times, window, total, cores)
    requires p < |times|
    ensures var n, sum := NewCounts(times, window, total, cores)[p], Sum(StepRows(times, window, total, cores)[p]);
      && Rounded(sum, window, n)
      && window * (n - 1) < sum < window * (n + 1)
  {
    hide RealSum; hide StepCounts; hide WindowCounts; hide Shares; hide Served; hide Servable; hide Sum; hide Rounded;
    var rows := StepRows(times, window, total, cores);
    forall w | 0 <= w < window ensures Served(Column(rows, w), total, cores) {
      StepColumn(times, window, total, cores, w);
    }
    AveragesInThreads(rows, window, total, cores);
  }

  /** Exactly when the distribution hands to the search what it needs: every process between one thread and a socket,
      all cores used and no more. */
  lemma DistributionIsFull(times: seq<seq<real>>, window: nat, numSockets: nat, cores: nat)
    requires numSockets >= 1 && cores >= 1 && numSockets * cores < 0x8000_0000 && Measured(times, window)
    ensures var counts := NewCounts(times, window, numSockets * cores, cores);
      (Demand(numSockets, cores, counts).Full() && forall p :: 0 <= p < |counts| ==> counts[p] <= cores)
        <==> MeansServable(StepRows(times, window, numSockets * cores, cores), numSockets * cores, cores)
  {
    hide RealSum; hide Sum; hide StepCounts; hide WindowCounts; hide Shares; hide Mean; hide MeansServable;
    hide StepRows; hide Measured;
    var total := numSockets * cores;
    StepRowsShape(times, window, total, cores);
    MeansAtLeastOne(times, window, total, cores);
    WindowServedExactly(StepRows(times, window, total, cores), total, cores);
  }

  /** Whatever was measured, everybody gets a thread. */
  lemma EverybodyCounted(times: seq<seq<real>>, window: nat, total: int, cores: nat)
    requires Measured(times, window) && total >= 0 && cores >= 1
    ensures forall p :: 0 <= p < |times| ==> NewCounts(times, window, total, cores)[p] >= 1
  {
    hide RealSum; hide StepCounts; hide WindowCounts; hide Mean;
    MeansAtLeastOne(times, window, total, cores);
    CountsFromMeans(StepRows(times, window, total, cores), total, cores);
  }

  lemma StepRowsShape(times: seq<seq<real>>, window: nat, total: int, cores: nat)
    requires Measured(times, window)
    ensures Matrix(StepRows(times, window, total, cores), window) && Busy(times, window)
  {
  }
}
