/** Which calls rebalance (core_skip_compute in core/sabo.c), over a whole run. */
module Schedule {

  /** core_skip_compute: whether the call at this step goes on to rebalance. */
  predicate Computes(step: nat, stepbal: nat, periodic: bool, window: nat)
    requires stepbal >= 1
  {
    && (if periodic then (step + 1) % stepbal == 0 else step == stepbal)
    && window <= step + 1
  }

  /** How many of the first n calls rebalance. */
  function Rebalances(n: nat, stepbal: nat, periodic: bool, window: nat): nat
    requires stepbal >= 1
  {
    if n == 0 then 0
    else Rebalances(n - 1, stepbal, periodic, window) + if Computes(n - 1, stepbal, periodic, window) then 1 else 0
  }

  lemma DivModOf(x: int, d: nat, q: int, r: int)
    requires d >= 1 && x == d * q + r && 0 <= r < d
    ensures x / d == q && x % d == r
  {
    var p := x / d;
    assert x == d * p + x % d;
    Apart(d, q, p);
    Apart(d, p, q);
  }

  lemma Apart(d: nat, a: int, b: int)
    requires d >= 1
    ensures a < b ==> d * a + d <= d * b
  {
    if a < b {
      assert d * b == d * a + d * (b - a);
      Grows(d, b - a);
    }
  }

  lemma Grows(d: nat, n: int)
    requires n >= 1
    ensures d * n >= d
  {
  }

  /** In periodic mode, after a call that rebalances exactly the one `stepbal` calls later is the next. */
  lemma NextPeriod(step: nat, stepbal: nat, window: nat)
    requires stepbal >= 1 && Computes(step, stepbal, true, window)
    ensures Computes(step + stepbal, stepbal, true, window)
    ensures forall s :: step < s < step + stepbal ==> !Computes(s, stepbal, true, window)
  {
    var q := (step + 1) / stepbal;
    assert step + 1 == stepbal * q;
    forall s | step < s <= step + stepbal ensures Computes(s, stepbal, true, window) <==> s == step + stepbal {
      InPeriod(stepbal, q, s - step);
    }
  }

  /** Of the steps after a full period only the last one of the next completes a period. */
  lemma InPeriod(stepbal: nat, q: int, k: nat)
    requires 1 <= k <= stepbal
    ensures (stepbal * q + k) % stepbal == if k == stepbal then 0 else k
  {
    if k == stepbal {
      assert stepbal * q + k == stepbal * (q + 1);
      DivModOf(stepbal * q + k, stepbal, q + 1, 0);
    } else {
      DivModOf(stepbal * q + k, stepbal, q, k);
    }
  }

  /** The first call that rebalances in periodic mode, when the window is no longer than a period. */
  lemma FirstPeriod(stepbal: nat, window: nat)
    requires 1 <= stepbal && window <= stepbal
    ensures Computes(stepbal - 1, stepbal, true, window)
    ensures forall s: nat :: s < stepbal - 1 ==> !Computes(s, stepbal, true, window)
  {
    InPeriod(stepbal, 0, stepbal);
    forall s: nat | s < stepbal - 1 ensures !Computes(s, stepbal, true, window) {
      InPeriod(stepbal, 0, s + 1);
    }
  }

  /** Otherwise one call at most rebalances, the one at step `stepbal`, and it does so if the window is full by then. */
  lemma OnlyOnce(step: nat, stepbal: nat, window: nat)
    requires stepbal >= 1
    ensures Computes(step, stepbal, false, window) <==> step == stepbal && window <= stepbal + 1
  {
  }

  /** The rebalancing calls among the first n: in periodic mode one for every full period that ends with a full window,
      otherwise one once step `stepbal` is over. */
  lemma {:induction false} RebalancesExactly(n: nat, stepbal: nat, periodic: bool, window: nat)
    requires stepbal >= 1 && window >= 1
    ensures Rebalances(n, stepbal, periodic, window) ==
      if periodic then (if n < window then 0 else n / stepbal - (window - 1) / stepbal)
      else if stepbal < n && window <= stepbal + 1 then 1 else 0
  {
    if n > 0 {
      RebalancesExactly(n - 1, stepbal, periodic, window);
      if periodic {
        NextQuotient(n - 1, stepbal);
      }
    }
  }

  lemma NextQuotient(x: nat, d: nat)
    requires d >= 1
    ensures (x + 1) / d == x / d + if (x + 1) % d == 0 then 1 else 0
  {
    var q, r := x / d, x % d;
    assert x == d * q + r;
    if r == d - 1 {
      DivModOf(x + 1, d, q + 1, 0);
    } else {
      DivModOf(x + 1, d, q, r + 1);
    }
  }
}
