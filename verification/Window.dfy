/** The ring of elapsed times: which call each slot of the window belongs to. */
module Window {

  /** Slot j mod window holds the sum of call j, for the last `window` of the first n calls. */
  ghost predicate Ring(elapsed: seq<real>, history: seq<real>, n: nat, window: nat) {
    && window >= 1 && |elapsed| == window && n <= |history|
    && forall j {:trigger history[j]} :: 0 <= j < n && j >= n - window ==> elapsed[j % window] == history[j]
  }

  lemma ModDistinct(j: nat, n: nat, window: nat)
    requires window >= 1 && j < n < j + window
    ensures j % window != n % window
  {
    var q := n / window - j / window;
    assert n - j == window * q + n % window - j % window;
    MultipleBounds(window, q);
  }

  lemma MultipleBounds(window: nat, q: int)
    ensures q >= 1 ==> window * q >= window
    ensures q <= -1 ==> window * q <= 0 - window
    ensures q == 0 ==> window * q == 0
  {
  }

  /** Storing the sum of call n in slot n mod window keeps the ring. */
  lemma RingStep(elapsed: seq<real>, history: seq<real>, n: nat, window: nat, sum: real)
    requires Ring(elapsed, history, n, window) && |history| == n
    ensures Ring(elapsed[n % window := sum], history + [sum], n + 1, window)
  {
    forall j | 0 <= j < n + 1 && j >= n + 1 - window
      ensures elapsed[n % window := sum][j % window] == (history + [sum])[j]
    {
      if j < n {
        ModDistinct(j, n, window);
        assert elapsed[j % window] == history[j];
      }
    }
  }

  /** The last of the calls 0 to n that used slot w. */
  function LastCall(w: nat, n: nat, window: nat): int
    requires window >= 1
  {
    n - (n - w) % window
  }

  lemma LastCallFacts(w: nat, n: nat, window: nat)
    requires w < window <= n + 1
    ensures n - window < LastCall(w, n, window) <= n
    ensures LastCall(w, n, window) >= 0
    ensures LastCall(w, n, window) % window == w
  {
    var j, q := LastCall(w, n, window), (n - w) / window;
    assert n - w == window * q + (n - w) % window;
    assert j == w + window * q;
    ModOfSum(w, q, window);
  }

  lemma ModOfSum(w: nat, q: int, window: nat)
    requires w < window && w + window * q >= 0
    ensures (w + window * q) % window == w
  {
    var x := w + window * q;
    var d := x / window - q;
    assert x % window == w - window * d;
    MultipleBounds(window, d);
  }

  /** The row is exactly the sums of the last `window` of the calls 0 to n. */
  ghost predicate LastCalls(row: seq<real>, history: seq<real>, n: nat, window: nat) {
    && window >= 1 && |row| == window
    && forall w :: 0 <= w < window ==>
         0 <= LastCall(w, n, window) < |history| && row[w] == history[LastCall(w, n, window)]
  }

  /** Once `window` calls were made, every slot holds the sum of the last call that used it. */
  lemma FullRing(elapsed: seq<real>, history: seq<real>, n: nat, window: nat)
    requires Ring(elapsed, history, n + 1, window) && window <= n + 1
    ensures LastCalls(elapsed, history, n, window)
  {
    forall w | 0 <= w < window
      ensures 0 <= LastCall(w, n, window) <= n && elapsed[w] == history[LastCall(w, n, window)]
    {
      LastCallFacts(w, n, window);
      assert elapsed[LastCall(w, n, window) % window] == history[LastCall(w, n, window)];
    }
  }
}
