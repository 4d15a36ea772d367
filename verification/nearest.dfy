/** The running-minimum scan that every script writes out by hand:
    start from `Infinity` and `null`, and take an item only when its
    distance is strictly smaller than the best so far. */
module Nearest {
  import opened Geo

  /** `k` is the item the scan keeps: admitted, no farther than any other
      admitted item, and strictly nearer than every admitted item before it. */
  ghost predicate IsFirstNearest<T>(items: seq<T>, dist: T -> real, admit: T -> bool, k: nat)
  {
    && k < |items|
    && admit(items[k])
    && (forall i :: 0 <= i < |items| && admit(items[i]) ==> dist(items[k]) <= dist(items[i]))
    && (forall i :: 0 <= i < k && admit(items[i]) ==> dist(items[k]) < dist(items[i]))
  }

  /** Scans `items` in order and returns the index of the nearest admitted
      one, the first of them on ties, or `None` when nothing is admitted. */
  method NearestIndex<T>(items: seq<T>, dist: T -> real, admit: T -> bool) returns (best: Option<nat>)
    ensures best.None? <==> forall i :: 0 <= i < |items| ==> !admit(items[i])
    ensures best.Some? ==> IsFirstNearest(items, dist, admit, best.value)
  {
    best := None;
    var i := 0;
    while i < |items|
      invariant 0 <= i <= |items|
      invariant best.None? <==> forall j :: 0 <= j < i ==> !admit(items[j])
      invariant best.Some? ==> IsFirstNearest(items[..i], dist, admit, best.value)
    {
      var x := items[i];
      if admit(x) && (best.None? || dist(x) < dist(items[best.value])) {
        best := Some(i);
      }
      assert items[..i + 1] == items[..i] + [x];
      i := i + 1;
    }
    assert items[..i] == items;
  }

  /** Two indices that both satisfy the scan's contract are the same index:
      the contract fixes the result, ties included. */
  lemma FirstNearestIsUnique<T>(items: seq<T>, dist: T -> real, admit: T -> bool, j: nat, k: nat)
    requires IsFirstNearest(items, dist, admit, j)
    requires IsFirstNearest(items, dist, admit, k)
    ensures j == k
  {
  }
}
