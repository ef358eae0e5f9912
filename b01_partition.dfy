/**
 * partitionDualPivot of the b01 sorter. It is the r32 two-pivot partitioning
 * with a bounded left scan: the search for an element not smaller than
 * pivot1 stops at k, so it needs no sentinel.
 */
module B01Partition {
  import opened SortSpec
  import opened Partitioning

  /**
   * `while (lower < k) { if (a[++lower] >= pivot1) { ... break; } }`, the
   * search alone: the first index above lower0 whose element is not smaller
   * than the pivot, or k when there is none.
   */
  method ScanUpBounded(a: array<int>, lower0: int, k: int, pivot: int) returns (l: int)
    requires 0 <= lower0 < k < a.Length
    ensures lower0 < l <= k
    ensures AllLess(a[..], lower0 + 1, l, pivot)
    ensures a[l] >= pivot || (l == k && a[k] < pivot)
  {
    l := lower0 + 1;
    while l < k && a[l] < pivot
      invariant lower0 < l <= k
      invariant AllLess(a[..], lower0 + 1, l, pivot)
      decreases k - l
    {
      l := l + 1;
    }
  }

  /**
   * One step of the partitioning loop on a[k]. When the bounded left scan
   * finds nothing, lower reaches k and the loop ends with the unknown part
   * empty; the ghost c is then k + 1.
   */
  method DualPivotStep(a: array<int>, low: int, end: int, p1: int, p2: int,
                       lower0: int, k: int, upper0: int) returns (lower: int, upper: int, ghost c: int)
    requires TwoPivotState(a[..], low, end, p1, p2, lower0, k + 1, upper0) && lower0 < k
    modifies a
    ensures TwoPivotState(a[..], low, end, p1, p2, lower, c, upper)
    ensures (c == k && lower < k) || (c == k + 1 && lower == k)
    ensures multiset(a[..]) == multiset(old(a[..]))
    ensures SameOutside(a[..], old(a[..]), low + 1, end)
  {
    var ak := a[k];
    lower := lower0;
    upper := upper0;
    c := k;
    if ak < p1 {
      var l := ScanUpBounded(a, lower, k, p1);
      if a[l] >= p1 {
        upper := MoveLeft(a, low, end, p1, p2, lower, l, k, upper);
      } else {
        LeftAll(a[..], low, end, p1, p2, lower, k, upper);
        c := k + 1;
      }
      lower := l;
    } else if ak > p2 {
      upper := MoveRight(a, low, end, p1, p2, lower, k, upper);
    } else {
      CentralGrow(a[..], low, end, p1, p2, lower, k, upper);
    }
  }

  /**
   * partitionDualPivot: returns (lower, upper) with the pivots at lower and
   * upper, a[low..lower) < pivot1, a(lower..upper) between the pivots and
   * a(upper..high) > pivot2; the range is permuted and nothing outside it
   * changes. The ghost m is the middle sample element, which stops the two
   * skip scans at the start.
   */
  method PartitionDualPivot(a: array<int>, low: int, high: int, pi1: int, pi2: int, ghost m: int)
      returns (lower: int, upper: int)
    requires 0 <= low < pi1 < m < pi2 < high - 1 && high <= a.Length
    requires a[pi1] <= a[m] <= a[pi2]
    modifies a
    ensures TwoPivotParts(a[..], low, high, lower, upper, old(a[pi1]), old(a[pi2]))
    ensures multiset(a[..]) == multiset(old(a[..]))
    ensures SameOutside(a[..], old(a[..]), low, high)
  {
    var end := high - 1;
    var pivot1, pivot2;
    lower, upper, pivot1, pivot2 := TwoPivotStart(a, low, high, pi1, pi2, m);
    ghost var a0 := a[..];
    var k := upper;
    ghost var c := k;
    while k - 1 > lower
      invariant TwoPivotState(a[..], low, end, pivot1, pivot2, lower, c, upper)
      invariant c == k || (c == k + 1 && lower == k)
      invariant multiset(a[..]) == multiset(a0) && SameOutside(a[..], a0, low + 1, end)
      decreases k
    {
      k := k - 1;
      ghost var before := a[..];
      lower, upper, c := DualPivotStep(a, low, end, pivot1, pivot2, lower, k, upper);
      SameOutsideTrans(a[..], before, a0, low + 1, end, low + 1, end);
    }
    ghost var b := a[..];
    PlacePivots(a, low, end, pivot1, pivot2, lower, upper);
    TwoPivotPerm(old(a[..]), a0, b, a[..], low, pi1, pi2, end);
    TwoPivotFrame(old(a[..]), a0, b, a[..], low, pi1, pi2, end);
  }
}
