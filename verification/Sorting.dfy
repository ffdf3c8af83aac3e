/** The order that qsort puts processes in: a permutation that lists the keys in ascending order. */
module Sorting {
  import opened Sums

  ghost predicate Permutation(order: seq<nat>) {
    && (forall k :: 0 <= k < |order| ==> order[k] < |order|)
    && (forall j, k :: 0 <= j < k < |order| ==> order[j] != order[k])
    && (forall i: nat :: i < |order| ==> i in order)
  }

  ghost predicate Ascending(keys: seq<int>, order: seq<nat>) {
    && (forall k :: 0 <= k < |order| ==> order[k] < |keys|)
    && (forall j, k :: 0 <= j < k < |order| ==> keys[order[j]] <= keys[order[k]])
  }

  /** Equal keys keep their order. */
  ghost predicate Stable(keys: seq<int>, order: seq<nat>) {
    && (forall k :: 0 <= k < |order| ==> order[k] < |keys|)
    && (forall j, k :: 0 <= j < k < |order| && keys[order[j]] == keys[order[k]] ==> order[j] < order[k])
  }

  /** Where a key goes in an ascending order: behind the keys it does not undercut. */
  function Position(keys: seq<int>, order: seq<nat>, key: int): (pos: nat)
    requires Ascending(keys, order)
    ensures pos <= |order|
    ensures forall k :: 0 <= k < pos ==> keys[order[k]] <= key
    ensures forall k :: pos <= k < |order| ==> keys[order[k]] > key
  {
    if order == [] || keys[order[|order|-1]] <= key then |order|
    else Position(keys, order[..|order|-1], key)
  }

  function SortOrder(keys: seq<int>): (order: seq<nat>)
    ensures |order| == |keys| && forall k :: 0 <= k < |order| ==> order[k] < |keys|
    ensures Permutation(order) && Ascending(keys, order) && Stable(keys, order)
  {
    if keys == [] then []
    else
      var last := |keys| - 1;
      var rest := SortOrder(keys[..last]);
      var pos := Position(keys[..last], rest, keys[last]);
      InsertedSorted(keys, rest, pos);
      Inserted(rest, pos, last)
  }

  lemma InsertedSorted(keys: seq<int>, rest: seq<nat>, pos: nat)
    requires keys != [] && |rest| == |keys| - 1
    requires Permutation(rest) && Ascending(keys[..|keys|-1], rest) && Stable(keys[..|keys|-1], rest)
    requires pos == Position(keys[..|keys|-1], rest, keys[|keys|-1])
    ensures var order := Inserted(rest, pos, |keys| - 1);
      && |order| == |keys| && (forall k :: 0 <= k < |order| ==> order[k] < |keys|)
      && Permutation(order) && Ascending(keys, order) && Stable(keys, order)
  {
    InsertedPermutation(rest, pos);
    InsertedAscending(keys, rest, pos);
    InsertedStable(keys, rest, pos);
    hide Permutation; hide Stable;
  }

  function Inserted<T>(s: seq<T>, pos: nat, x: T): (r: seq<T>)
    requires pos <= |s|
    ensures |r| == |s| + 1
    ensures forall k :: 0 <= k < |r| ==> r[k] == if k < pos then s[k] else if k == pos then x else s[k-1]
  {
    s[..pos] + [x] + s[pos..]
  }

  lemma InsertedAscending(keys: seq<int>, rest: seq<nat>, pos: nat)
    requires keys != [] && Ascending(keys[..|keys|-1], rest)
    requires pos == Position(keys[..|keys|-1], rest, keys[|keys|-1])
    ensures Ascending(keys, Inserted(rest, pos, |keys| - 1))
  {
    assert forall k :: 0 <= k < |rest| ==> keys[rest[k]] == keys[..|keys|-1][rest[k]];
  }

  lemma InsertedStable(keys: seq<int>, rest: seq<nat>, pos: nat)
    requires keys != [] && Ascending(keys[..|keys|-1], rest) && Stable(keys[..|keys|-1], rest)
    requires pos == Position(keys[..|keys|-1], rest, keys[|keys|-1])
    ensures Stable(keys, Inserted(rest, pos, |keys| - 1))
  {
    assert forall k :: 0 <= k < |rest| ==> keys[rest[k]] == keys[..|keys|-1][rest[k]];
  }

  lemma InsertedPermutation(rest: seq<nat>, pos: nat)
    requires Permutation(rest) && pos <= |rest|
    ensures Permutation(Inserted(rest, pos, |rest|))
  {
    var order := Inserted(rest, pos, |rest|);
    forall i: nat | i < |order| ensures i in order {
      if i == |rest| {
        assert order[pos] == i;
      } else {
        assert i in rest;
        var k :| 0 <= k < |rest| && rest[k] == i;
        assert order[if k < pos then k else k + 1] == i;
      }
    }
  }

  /** The values picked in the given order. */
  function Pick<T>(values: seq<T>, order: seq<nat>): (picked: seq<T>)
    requires forall k :: 0 <= k < |order| ==> order[k] < |values|
    ensures |picked| == |order| && forall k :: 0 <= k < |order| ==> picked[k] == values[order[k]]
  {
    seq(|order|, k requires 0 <= k < |order| => values[order[k]])
  }

  lemma SumInserted(values: seq<int>, pos: nat, v: int)
    requires pos <= |values|
    ensures Sum(Inserted(values, pos, v)) == Sum(values) + v
  {
    assert values == values[..pos] + values[pos..];
    SumAppend(values[..pos], values[pos..]);
    SumAppend(values[..pos], [v]);
    SumAppend(values[..pos] + [v], values[pos..]);
  }

  lemma PickInserted<T>(values: seq<T>, rest: seq<nat>, pos: nat)
    requires values != [] && pos <= |rest| && forall k :: 0 <= k < |rest| ==> rest[k] < |values| - 1
    ensures Pick(values, Inserted(rest, pos, |values| - 1))
         == Inserted(Pick(values[..|values|-1], rest), pos, values[|values|-1])
  {
  }

  /** Sorting does not change a sum over all processes. */
  lemma {:induction false} SumOfPicked(keys: seq<int>, values: seq<int>)
    requires |values| == |keys|
    ensures Sum(Pick(values, SortOrder(keys))) == Sum(values)
  {
    if keys == [] {
      assert values == [];
    } else {
      var last := |keys| - 1;
      var rest := SortOrder(keys[..last]);
      var pos := Position(keys[..last], rest, keys[last]);
      SumOfPicked(keys[..last], values[..last]);
      SumInserted(Pick(values[..last], rest), pos, values[last]);
      PickInserted(values, rest, pos);
      assert Sum(values) == Sum(values[..last]) + values[last];
      assert SortOrder(keys) == Inserted(rest, pos, last);
    }
  }
}
