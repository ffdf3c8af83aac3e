/** Sums of integer sequences, and the few facts the other modules need about them. */
module Sums {

  function Sum(xs: seq<int>): int {
    if xs == [] then 0 else Sum(xs[..|xs|-1]) + xs[|xs|-1]
  }

  function Max(a: int, b: int): int {
    if a < b then b else a
  }

  lemma {:induction false} SumUpdate(xs: seq<int>, i: nat, v: int)
    requires i < |xs|
    ensures Sum(xs[i := v]) == Sum(xs) - xs[i] + v
  {
    var ys := xs[i := v];
    if i == |xs| - 1 {
      assert ys[..|xs|-1] == xs[..|xs|-1];
    } else {
      assert ys[..|xs|-1] == xs[..|xs|-1][i := v];
      SumUpdate(xs[..|xs|-1], i, v);
    }
  }

  lemma {:induction false} SumAppend(xs: seq<int>, ys: seq<int>)
    ensures Sum(xs + ys) == Sum(xs) + Sum(ys)
  {
    if ys == [] {
      assert xs + ys == xs;
    } else {
      var zs := xs + ys;
      assert zs[..|zs|-1] == xs + ys[..|ys|-1];
      SumAppend(xs, ys[..|ys|-1]);
    }
  }

  lemma SumSnoc(xs: seq<int>, v: int)
    ensures Sum(xs + [v]) == Sum(xs) + v
  {
    assert (xs + [v])[..|xs|] == xs;
  }

  lemma SumNone(xs: seq<int>)
    ensures Sum(xs[..0]) == 0
  {
  }

  lemma SumTake(xs: seq<int>, n: nat)
    requires n < |xs|
    ensures Sum(xs[..n+1]) == Sum(xs[..n]) + xs[n]
  {
    assert xs[..n+1][..n] == xs[..n];
  }

  lemma {:induction false} SumConstant(n: nat, v: int)
    ensures Sum(seq(n, _ => v)) == n * v
  {
    var xs := seq(n, _ => v);
    if n > 0 {
      assert xs[..n-1] == seq(n - 1, _ => v);
      SumConstant(n - 1, v);
    }
  }

  lemma {:induction false} SumAtLeast(xs: seq<int>, v: int)
    requires forall i :: 0 <= i < |xs| ==> xs[i] >= v
    ensures Sum(xs) >= |xs| * v
  {
    if xs != [] {
      SumAtLeast(xs[..|xs|-1], v);
    }
  }

  lemma {:induction false} SumAtMost(xs: seq<int>, v: int)
    requires forall i :: 0 <= i < |xs| ==> xs[i] <= v
    ensures Sum(xs) <= |xs| * v
  {
    if xs != [] {
      SumAtMost(xs[..|xs|-1], v);
    }
  }

  lemma {:induction false} SumOfPrefix(xs: seq<int>, i: nat)
    requires i <= |xs|
    requires forall j :: 0 <= j < |xs| ==> xs[j] >= 0
    ensures 0 <= Sum(xs[..i]) <= Sum(xs)
  {
    if i == |xs| {
      assert xs[..i] == xs;
      SumAtLeast(xs, 0);
    } else {
      var ys := xs[..|xs|-1];
      assert ys[..i] == xs[..i];
      SumOfPrefix(ys, i);
    }
  }
}
