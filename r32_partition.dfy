/**
 * partitionWithTwoPivots of the r32 sorter: backward 3-interval partitioning
 * of a[low..high) around the pivots a[pi1] <= a[pi2] taken from the sorted
 * five-element sample.
 */
module R32Partition {
  import opened SortSpec
  import opened Partitioning

  /**
   * One step of the partitioning loop on a[k]: `if (ak < pivot1) { while
   * (a[++lower] < pivot1); if (lower > k) { lower = k; break; } ... } else if
   * (ak > pivot2) { ... }`. `done` reports the break; the element at `stop`
   * bounds the left scan.
   */
  method TwoPivotStep(a: array<int>, low: int, end: int, p1: int, p2: int,
                      lower0: int, k: int, upper0: int, ghost stop: int) returns (lower: int, upper: int, done: bool)
    requires TwoPivotState(a[..], low, end, p1, p2, lower0, k + 1, upper0) && lower0 < k
    requires lower0 < stop <= k + 1 && stop < a.Length && a[stop] >= p1
    modifies a
    ensures done ==> lower == k && TwoPivotState(a[..], low, end, p1, p2, k, k + 1, upper)
    ensures !done ==> TwoPivotState(a[..], low, end, p1, p2, lower, k, upper) && lower < k && a[k] >= p1
    ensures multiset(a[..]) == multiset(old(a[..]))
    ensures SameOutside(a[..], old(a[..]), low + 1, end)
  {
    var ak := a[k];
    lower := lower0;
    upper := upper0;
    done := false;
    if ak < p1 {
      var l := ScanUp(a, lower, stop, p1);
      if l > k {
        LeftAll(a[..], low, end, p1, p2, lower, k, upper);
        lower := k;
        done := true;
        return;
      }
      upper := MoveLeft(a, low, end, p1, p2, lower, l, k, upper);
      lower := l;
    } else if ak > p2 {
      upper := MoveRight(a, low, end, p1, p2, lower, k, upper);
    } else {
      CentralGrow(a[..], low, end, p1, p2, lower, k, upper);
    }
    assert k < upper ==> a[k] >= p1;
  }

  /**
   * partitionWithTwoPivots: returns (lower, upper) with the pivots at lower and
   * upper, a[low..lower) < pivot1, a(lower..upper) between the pivots and
   * a(upper..high) > pivot2; the range is permuted and nothing outside it
   * changes. The ghost m is the middle sample element, which lies between the
   * pivots and stops the scans that have no other bound.
   */
  method PartitionWithTwoPivots(a: array<int>, low: int, high: int, pi1: int, pi2: int, ghost m: int)
      returns (lower: int, upper: int)
    requires 0 <= low < pi1 < m < pi2 < high - 1 && high <= a.Length
    requires a[pi1] <= a[m] <= a[pi2]
    modifies a
    ensures TwoPivotParts(a[..], low, high, lower, upper, old(a[pi1]), old(a[pi2]))
    ensures multiset(a[..]) == multiset(old(a[..]))
    ensures SameOutside(a[..], old(a[..]), low, high)
  {
    var end := high - 1;
    var pivot1, pivot2;
    lower, upper, pivot1, pivot2 := TwoPivotStart(a, low, high, pi1, pi2, m);
    ghost var a0 := a[..];
    lower, upper := TwoPivotLoop(a, low, end, pivot1, pivot2, lower, upper, m);
    ghost var b := a[..];
    PlacePivots(a, low, end, pivot1, pivot2, lower, upper);
    TwoPivotPerm(old(a[..]), a0, b, a[..], low, pi1, pi2, end);
    TwoPivotFrame(old(a[..]), a0, b, a[..], low, pi1, pi2, end);
  }

  /**
   * The partitioning loop of partitionWithTwoPivots: k runs down from upper
   * until it meets lower, and each a[k] goes to the left part, the right part
   * or stays in the middle; afterwards the unscanned range is empty.
   */
  method TwoPivotLoop(a: array<int>, low: int, end: int, pivot1: int, pivot2: int,
                      lower0: int, upper0: int, ghost m: int)
      returns (lower: int, upper: int)
    requires TwoPivotState(a[..], low, end, pivot1, pivot2, lower0, upper0, upper0)
    requires lower0 < m < upper0 && a[m] >= pivot1
    modifies a
    ensures TwoPivotState(a[..], low, end, pivot1, pivot2, lower, lower + 1, upper)
    ensures multiset(a[..]) == multiset(old(a[..])) && SameOutside(a[..], old(a[..]), low + 1, end)
  {
    lower, upper := lower0, upper0;
    var k := upper;
    ghost var stop := m;
    while k - 1 > lower
      invariant TwoPivotState(a[..], low, end, pivot1, pivot2, lower, k, upper)
      invariant lower < stop <= k && stop < a.Length && a[stop] >= pivot1
      invariant multiset(a[..]) == multiset(old(a[..])) && SameOutside(a[..], old(a[..]), low + 1, end)
      decreases k
    {
      k := k - 1;
      ghost var before := a[..];
      var done;
      lower, upper, done := TwoPivotStep(a, low, end, pivot1, pivot2, lower, k, upper, stop);
      SameOutsideTrans(a[..], before, old(a[..]), low + 1, end, low + 1, end);
      if done {
        return;
      }
      stop := k;
    }
  }
}
