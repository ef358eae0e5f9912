/**
 * The partitioning steps shared by both sorter versions. Two-pivot
 * partitioning splits a[low..high) around pivot1 <= pivot2 into a left part
 * (< pivot1), a central part (between the pivots) and a right part
 * (> pivot2), scanning the unknown part backwards from the top; the pivots
 * end between the parts. One-pivot partitioning is the Dutch National Flag
 * split around a single pivot; it is the same code in both versions and is
 * modelled here once.
 *
 * While partitioning, a[low] (and, with two pivots, a[high - 1]) still hold
 * elements that were copied into the pivot places: they are holes reserved
 * for the pivots, which are written back at the end.
 */
module Partitioning {
  import opened SortSpec

  /**
   * `while (a[++i] < pivot);`: the first index above i0 whose element is not
   * smaller than the pivot. The element a[m] stops the scan.
   */
  method ScanUp(a: array<int>, i0: int, ghost m: int, pivot: int) returns (i: int)
    requires 0 <= i0 < m < a.Length && a[m] >= pivot
    ensures i0 < i <= m && a[i] >= pivot
    ensures AllLess(a[..], i0 + 1, i, pivot)
  {
    i := i0 + 1;
    while a[i] < pivot
      invariant i0 < i <= m
      invariant AllLess(a[..], i0 + 1, i, pivot)
      decreases m - i
    {
      i := i + 1;
    }
  }

  /**
   * `while (a[--i] > pivot);`: the first index below i0 whose element is not
   * larger than the pivot. The element a[m] stops the scan.
   */
  method ScanDown(a: array<int>, i0: int, ghost m: int, pivot: int) returns (i: int)
    requires 0 <= m < i0 <= a.Length && a[m] <= pivot
    ensures m <= i < i0 && a[i] <= pivot
    ensures AllGreater(a[..], i + 1, i0, pivot)
  {
    i := i0 - 1;
    while a[i] > pivot
      invariant m <= i < i0
      invariant AllGreater(a[..], i + 1, i0, pivot)
      decreases i - m
    {
      i := i - 1;
    }
  }

  // ---------------------------------------------------------------------------
  // Two pivots

  /**
   * The state of backward 3-interval partitioning on a[low..end], with the
   * parts (low, lower] < p1, [c, upper) between the pivots and
   * [upper, end) > p2; (lower, c) is still unknown.
   */
  ghost predicate TwoPivotState(s: seq<int>, low: int, end: int, p1: int, p2: int, lower: int, c: int, upper: int) {
    0 <= low <= lower < c <= upper <= end < |s| && p1 <= p2 &&
    AllLess(s, low + 1, lower + 1, p1) &&
    AllAtLeast(s, c, upper, p1) && AllAtMost(s, c, upper, p2) &&
    AllGreater(s, upper, end, p2)
  }

  /** An element between the pivots joins the central part where it is. */
  lemma CentralGrow(s: seq<int>, low: int, end: int, p1: int, p2: int, lower: int, k: int, upper: int)
    requires TwoPivotState(s, low, end, p1, p2, lower, k + 1, upper) && lower < k
    requires p1 <= s[k] <= p2
    ensures TwoPivotState(s, low, end, p1, p2, lower, k, upper)
  {
  }

  /** When the left scan finds no element to exchange, everything up to k joins the left part. */
  lemma LeftAll(s: seq<int>, low: int, end: int, p1: int, p2: int, lower: int, k: int, upper: int)
    requires TwoPivotState(s, low, end, p1, p2, lower, k + 1, upper) && lower < k
    requires AllLess(s, lower + 1, k + 1, p1)
    ensures TwoPivotState(s, low, end, p1, p2, k, k + 1, upper)
  {
  }

  /**
   * Moving a[k] < p1 to the left part, once the left scan stopped at lower
   * with a[lower] >= p1: `if (a[lower] > pivot2) { a[k] = a[--upper];
   * a[upper] = a[lower]; } else { a[k] = a[lower]; } a[lower] = ak;`.
   */
  method MoveLeft(a: array<int>, low: int, end: int, p1: int, p2: int,
                  ghost lower0: int, lower: int, k: int, upper0: int) returns (upper: int)
    requires TwoPivotState(a[..], low, end, p1, p2, lower0, k + 1, upper0)
    requires lower0 < lower < k && AllLess(a[..], lower0 + 1, lower, p1)
    requires a[lower] >= p1 && a[k] < p1
    modifies a
    ensures TwoPivotState(a[..], low, end, p1, p2, lower, k, upper)
    ensures multiset(a[..]) == multiset(old(a[..]))
    ensures SameOutside(a[..], old(a[..]), low + 1, end)
  {
    ghost var s := a[..];
    var ak := a[k];
    upper := upper0;
    if a[lower] > p2 {
      upper := upper - 1;
      a[k] := a[upper];
      a[upper] := a[lower];
      a[lower] := ak;
      MovedBig(s, a[..], low, end, p1, p2, lower0, lower, k, upper0);
    } else {
      a[k] := a[lower];
      a[lower] := ak;
      MovedCentral(s, a[..], low, end, p1, p2, lower0, lower, k, upper0);
    }
  }

  /** MoveLeft for a large a[lower]: it goes to the right part, the top central element to k. */
  lemma MovedBig(s: seq<int>, t: seq<int>, low: int, end: int, p1: int, p2: int, lower0: int, lower: int, k: int, upper0: int)
    requires TwoPivotState(s, low, end, p1, p2, lower0, k + 1, upper0)
    requires lower0 < lower < k && AllLess(s, lower0 + 1, lower, p1)
    requires s[lower] > p2 && s[k] < p1
    requires |t| == |s|
    requires forall j :: 0 <= j < |t| ==> t[j] == (if j == lower then s[k] else if j == upper0 - 1 then s[lower] else if j == k then s[upper0 - 1] else s[j])
    ensures TwoPivotState(t, low, end, p1, p2, lower, k, upper0 - 1)
    ensures multiset(t) == multiset(s)
    ensures SameOutside(t, s, low + 1, end)
  {
    forall j | low + 1 <= j < lower + 1 ensures t[j] < p1 {
      if j < lower && j > lower0 {
      }
    }
    forall j | upper0 - 1 <= j < end ensures t[j] > p2 {
    }
    CycleAt(s, t, k, upper0 - 1, lower);
    SameOutsideAt(t, s, low + 1, end);
  }

  /** MoveLeft for an a[lower] between the pivots: it is exchanged with a[k]. */
  lemma MovedCentral(s: seq<int>, t: seq<int>, low: int, end: int, p1: int, p2: int, lower0: int, lower: int, k: int, upper0: int)
    requires TwoPivotState(s, low, end, p1, p2, lower0, k + 1, upper0)
    requires lower0 < lower < k && AllLess(s, lower0 + 1, lower, p1)
    requires p1 <= s[lower] <= p2 && s[k] < p1
    requires |t| == |s|
    requires forall j :: 0 <= j < |t| ==> t[j] == (if j == lower then s[k] else if j == k then s[lower] else s[j])
    ensures TwoPivotState(t, low, end, p1, p2, lower, k, upper0)
    ensures multiset(t) == multiset(s)
    ensures SameOutside(t, s, low + 1, end)
  {
    forall j | low + 1 <= j < lower + 1 ensures t[j] < p1 {
      if j < lower && j > lower0 {
      }
    }
    SwapAt(s, t, lower, k);
    SameOutsideAt(t, s, low + 1, end);
  }

  /** Moving a[k] > p2 to the right part: `a[k] = a[--upper]; a[upper] = ak;`. */
  method MoveRight(a: array<int>, low: int, end: int, p1: int, p2: int,
                   lower: int, k: int, upper0: int) returns (upper: int)
    requires TwoPivotState(a[..], low, end, p1, p2, lower, k + 1, upper0) && lower < k
    requires a[k] > p2
    modifies a
    ensures TwoPivotState(a[..], low, end, p1, p2, lower, k, upper)
    ensures multiset(a[..]) == multiset(old(a[..]))
    ensures SameOutside(a[..], old(a[..]), low + 1, end)
  {
    ghost var s := a[..];
    var ak := a[k];
    upper := upper0 - 1;
    SwapPerm(s, k, upper);
    a[k] := a[upper];
    a[upper] := ak;
  }

  /**
   * The first part of two-pivot partitioning: the pivots are read, the first
   * and last elements are copied into their places, and the two skip scans
   * find the initial left and right parts.
   */
  method TwoPivotStart(a: array<int>, low: int, high: int, pi1: int, pi2: int, ghost m: int)
      returns (lower: int, upper: int, pivot1: int, pivot2: int)
    requires 0 <= low < pi1 < m < pi2 < high - 1 && high <= a.Length
    requires a[pi1] <= a[m] <= a[pi2]
    modifies a
    ensures pivot1 == old(a[pi1]) && pivot2 == old(a[pi2])
    ensures TwoPivotState(a[..], low, high - 1, pivot1, pivot2, lower, upper, upper)
    ensures lower < m < upper
    ensures forall x :: 0 <= x < a.Length ==> a[x] == (if x == pi1 then old(a[low]) else if x == pi2 then old(a[high - 1]) else old(a[x]))
  {
    var end := high - 1;
    upper := end;
    lower := low;
    pivot1 := a[pi1];
    pivot2 := a[pi2];
    a[pi1] := a[lower];
    a[pi2] := a[upper];
    lower := ScanUp(a, lower, m, pivot1);
    upper := ScanDown(a, upper, m, pivot2);
    lower := lower - 1;
    upper := upper + 1;
  }

  /** The whole permutation of two-pivot partitioning, from the copies at the start to the pivots written back. */
  lemma TwoPivotPerm(o: seq<int>, a0: seq<int>, b: seq<int>, f: seq<int>, low: int, pi1: int, pi2: int, end: int)
    requires 0 <= low < pi1 < pi2 < end < |o| == |a0|
    requires forall x :: 0 <= x < |a0| ==> a0[x] == (if x == pi1 then o[low] else if x == pi2 then o[end] else o[x])
    requires multiset(b) == multiset(a0) && SameOutside(b, a0, low + 1, end)
    requires multiset(f) == multiset(b[low := o[pi1]][end := o[pi2]])
    ensures multiset(f) == multiset(o)
  {
    assert b[..low + 1][low] == a0[..low + 1][low];
    assert b[end..][0] == a0[end..][0];
    PermOverwrite(b, a0, low, end, o[pi1], o[pi2]);
    HolesFilled(o, a0, low, pi1, pi2, end);
  }

  /** Filling the two holes with the pivots undoes the copies made at the start. */
  lemma HolesFilled(o: seq<int>, a0: seq<int>, low: int, pi1: int, pi2: int, end: int)
    requires 0 <= low < pi1 < pi2 < end < |o| == |a0|
    requires forall x :: 0 <= x < |a0| ==> a0[x] == (if x == pi1 then o[low] else if x == pi2 then o[end] else o[x])
    ensures multiset(a0[low := o[pi1]][end := o[pi2]]) == multiset(o)
  {
    var g := o[low := o[pi1]][pi1 := o[low]];
    SwapAt(o, g, low, pi1);
    SwapAt(g, a0[low := o[pi1]][end := o[pi2]], end, pi2);
  }

  /** The whole frame of two-pivot partitioning: nothing outside a[low..end] changes. */
  lemma TwoPivotFrame(o: seq<int>, a0: seq<int>, b: seq<int>, f: seq<int>, low: int, pi1: int, pi2: int, end: int)
    requires 0 <= low < pi1 < pi2 < end < |o| == |a0|
    requires forall x :: 0 <= x < |a0| ==> a0[x] == (if x == pi1 then o[low] else if x == pi2 then o[end] else o[x])
    requires SameOutside(b, a0, low + 1, end) && SameOutside(f, b, low, end + 1)
    ensures SameOutside(f, o, low, end + 1)
  {
    forall x | 0 <= x < |f| && !(low <= x < end + 1) ensures f[x] == o[x] {
      if x < low {
        assert f[..low][x] == b[..low][x] && b[..low + 1][x] == a0[..low + 1][x];
      } else {
        assert f[end + 1..][x - end - 1] == b[end + 1..][x - end - 1];
        assert b[end..][x - end] == a0[end..][x - end];
      }
    }
    SameOutsideAt(f, o, low, end + 1);
  }

  /**
   * The pivots exchanged into their final places:
   * `a[low] = a[lower]; a[lower] = pivot1; a[end] = a[upper]; a[upper] = pivot2;`.
   */
  method PlacePivots(a: array<int>, low: int, end: int, p1: int, p2: int, lower: int, upper: int)
    requires TwoPivotState(a[..], low, end, p1, p2, lower, lower + 1, upper)
    modifies a
    ensures TwoPivotParts(a[..], low, end + 1, lower, upper, p1, p2)
    ensures multiset(a[..]) == multiset(old(a[..])[low := p1][end := p2])
    ensures SameOutside(a[..], old(a[..]), low, end + 1)
  {
    ghost var s := a[..];
    a[low] := a[lower];
    a[lower] := p1;
    a[end] := a[upper];
    a[upper] := p2;
    Placed(s, a[..], low, end, p1, p2, lower, upper);
  }

  /** Writing the pivots back yields the three parts, and permutes the range with its two holes filled by the pivots. */
  lemma Placed(s: seq<int>, f: seq<int>, low: int, end: int, p1: int, p2: int, lower: int, upper: int)
    requires TwoPivotState(s, low, end, p1, p2, lower, lower + 1, upper)
    requires |f| == |s|
    requires forall x :: 0 <= x < |f| ==>
      f[x] == (if x == upper then p2 else if x == end then s[upper] else if x == lower then p1 else if x == low then s[lower] else s[x])
    ensures TwoPivotParts(f, low, end + 1, lower, upper, p1, p2)
    ensures multiset(f) == multiset(s[low := p1][end := p2])
    ensures SameOutside(f, s, low, end + 1)
  {
    PlacedPerm(s, f, low, end, p1, p2, lower, upper);
    SameOutsideAt(f, s, low, end + 1);
    forall j | low <= j < lower ensures f[j] < p1 {
      if j == low {
        assert s[lower] < p1;
      }
    }
    forall j | upper + 1 <= j < end + 1 ensures f[j] > p2 {
      if j == end {
        assert s[upper] > p2;
      }
    }
  }

  /** The pivot write-back exchanges the holes with a[lower] and a[upper]. */
  lemma PlacedPerm(s: seq<int>, f: seq<int>, low: int, end: int, p1: int, p2: int, lower: int, upper: int)
    requires 0 <= low <= lower < upper <= end < |s| == |f|
    requires forall x :: 0 <= x < |f| ==>
      f[x] == (if x == upper then p2 else if x == end then s[upper] else if x == lower then p1 else if x == low then s[lower] else s[x])
    ensures multiset(f) == multiset(s[low := p1][end := p2])
  {
    var w := s[low := p1][end := p2];
    var g := w[low := w[lower]][lower := w[low]];
    SwapAt(w, g, low, lower);
    SwapAt(g, f, end, upper);
  }

  /**
   * The result of two-pivot partitioning on a[low..high): the pivots at lower
   * and upper, everything before lower smaller than p1, everything between
   * them from p1 to p2, everything after upper larger than p2.
   */
  ghost predicate TwoPivotParts(s: seq<int>, low: int, high: int, lower: int, upper: int, p1: int, p2: int) {
    0 <= low <= lower < upper < high <= |s| &&
    s[lower] == p1 && s[upper] == p2 &&
    AllLess(s, low, lower, p1) &&
    AllAtLeast(s, lower + 1, upper, p1) && AllAtMost(s, lower + 1, upper, p2) &&
    AllGreater(s, upper + 1, high, p2)
  }

  // ---------------------------------------------------------------------------
  // One pivot

  /**
   * The state of Dutch National Flag partitioning on a[low..high): (low, lower]
   * < p, [c, upper) == p, [upper, high) > p; (lower, c) is still unknown.
   */
  ghost predicate OnePivotState(s: seq<int>, low: int, high: int, p: int, lower: int, c: int, upper: int) {
    0 <= low <= lower < c <= upper <= high <= |s| &&
    AllLess(s, low + 1, lower + 1, p) && AllEqual(s, c, upper, p) && AllGreater(s, upper, high, p)
  }

  /**
   * One step for an a[k] different from the pivot: `a[k] = pivot;` and then,
   * for a smaller a[k], `while (a[++lower] < pivot); if (a[lower] > pivot)
   * a[--upper] = a[lower]; a[lower] = ak;`, for a larger one
   * `a[--upper] = ak;`. The scan is stopped by the pivot just written at k.
   */
  method OnePivotMove(a: array<int>, low: int, high: int, p: int, lower0: int, k: int, upper0: int)
      returns (lower: int, upper: int, ghost c: int)
    requires OnePivotState(a[..], low, high, p, lower0, k + 1, upper0) && lower0 < k
    requires a[k] != p
    modifies a
    ensures OnePivotState(a[..], low, high, p, lower, c, upper)
    ensures (c == k && lower < k) || (c == k + 1 && lower == k)
    ensures multiset(a[..]) == multiset(old(a[..]))
    ensures SameOutside(a[..], old(a[..]), low + 1, high)
  {
    if a[k] < p {
      lower, upper, c := OnePivotLeft(a, low, high, p, lower0, k, upper0);
    } else {
      ghost var s := a[..];
      var ak := a[k];
      lower := lower0;
      a[k] := p;
      upper := upper0 - 1;
      a[upper] := ak;
      OnePivotRight(s, a[..], low, high, p, lower0, k, upper0);
      c := k;
    }
  }

  /** OnePivotMove for an a[k] smaller than the pivot. */
  method OnePivotLeft(a: array<int>, low: int, high: int, p: int, lower0: int, k: int, upper0: int)
      returns (lower: int, upper: int, ghost c: int)
    requires OnePivotState(a[..], low, high, p, lower0, k + 1, upper0) && lower0 < k
    requires a[k] < p
    modifies a
    ensures OnePivotState(a[..], low, high, p, lower, c, upper)
    ensures (c == k && lower < k) || (c == k + 1 && lower == k)
    ensures multiset(a[..]) == multiset(old(a[..]))
    ensures SameOutside(a[..], old(a[..]), low + 1, high)
  {
    ghost var s := a[..];
    var ak := a[k];
    upper := upper0;
    a[k] := p;
    ghost var s1 := a[..];
    lower := ScanUp(a, lower0, k, p);
    if a[lower] > p {
      upper := upper - 1;
      a[upper] := a[lower];
      a[lower] := ak;
      OnePivotBig(s, s1, a[..], low, high, p, lower0, lower, k, upper0);
      c := k;
    } else {
      a[lower] := ak;
      OnePivotEqual(s, s1, a[..], low, high, p, lower0, lower, k, upper0);
      c := if lower == k then k + 1 else k;
    }
  }

  /** A smaller a[k] exchanged with a larger a[lower], through the pivot place at upper - 1. */
  lemma OnePivotBig(s: seq<int>, s1: seq<int>, t: seq<int>, low: int, high: int, p: int, lower0: int, lower: int, k: int, upper0: int)
    requires OnePivotState(s, low, high, p, lower0, k + 1, upper0) && lower0 < lower <= k
    requires |s1| == |s| == |t| && forall x :: 0 <= x < |s1| ==> s1[x] == (if x == k then p else s[x])
    requires s[k] < p && s1[lower] > p && AllLess(s1, lower0 + 1, lower, p)
    requires forall x :: 0 <= x < |t| ==>
      t[x] == (if x == lower then s[k] else if x == upper0 - 1 then s[lower] else if x == k then p else s[x])
    ensures OnePivotState(t, low, high, p, lower, k, upper0 - 1) && lower < k
    ensures multiset(t) == multiset(s)
    ensures SameOutside(t, s, low + 1, high)
  {
    assert lower != k;
    if upper0 - 1 == k {
      SwapAt(s, t, lower, k);
    } else {
      assert s[upper0 - 1] == p;
      CycleAt(s, t, k, upper0 - 1, lower);
    }
    SameOutsideAt(t, s, low + 1, high);
    forall j | low + 1 <= j < lower + 1 ensures t[j] < p {
      if j < lower && j > lower0 {
        assert s1[j] < p;
      }
    }
  }

  /** A smaller a[k] exchanged with an a[lower] equal to the pivot (possibly the pivot just written at k). */
  lemma OnePivotEqual(s: seq<int>, s1: seq<int>, t: seq<int>, low: int, high: int, p: int, lower0: int, lower: int, k: int, upper0: int)
    requires OnePivotState(s, low, high, p, lower0, k + 1, upper0) && lower0 < lower <= k
    requires |s1| == |s| == |t| && forall x :: 0 <= x < |s1| ==> s1[x] == (if x == k then p else s[x])
    requires s[k] < p && s1[lower] == p && AllLess(s1, lower0 + 1, lower, p)
    requires forall x :: 0 <= x < |t| ==> t[x] == (if x == lower then s[k] else if x == k then p else s[x])
    ensures OnePivotState(t, low, high, p, lower, if lower == k then k + 1 else k, upper0)
    ensures multiset(t) == multiset(s)
    ensures SameOutside(t, s, low + 1, high)
  {
    if lower < k {
      SwapAt(s, t, lower, k);
    } else {
      assert t == s;
    }
    SameOutsideAt(t, s, low + 1, high);
    forall j | low + 1 <= j < lower + 1 ensures t[j] < p {
      if j < lower && j > lower0 {
        assert s1[j] < p;
      }
    }
  }

  /** A larger a[k] moved to the right part, through the pivot place at upper - 1. */
  lemma OnePivotRight(s: seq<int>, t: seq<int>, low: int, high: int, p: int, lower0: int, k: int, upper0: int)
    requires OnePivotState(s, low, high, p, lower0, k + 1, upper0) && lower0 < k
    requires s[k] > p && |t| == |s|
    requires forall x :: 0 <= x < |t| ==> t[x] == (if x == upper0 - 1 then s[k] else if x == k then p else s[x])
    ensures OnePivotState(t, low, high, p, lower0, k, upper0 - 1)
    ensures multiset(t) == multiset(s)
    ensures SameOutside(t, s, low + 1, high)
  {
    if upper0 - 1 == k {
      assert t == s;
    } else {
      assert s[upper0 - 1] == p;
      SwapAt(s, t, k, upper0 - 1);
    }
    SameOutsideAt(t, s, low + 1, high);
  }

  /**
   * The result of one-pivot partitioning on a[low..high): everything before
   * lower smaller than p, a[lower..upper) equal to p, everything from upper on
   * larger than p.
   */
  ghost predicate OnePivotParts(s: seq<int>, low: int, high: int, lower: int, upper: int, p: int) {
    0 <= low <= lower < upper <= high <= |s| &&
    AllLess(s, low, lower, p) && AllEqual(s, lower, upper, p) && AllGreater(s, upper, high, p)
  }

  /**
   * partitionWithOnePivot: Dutch National Flag partitioning of a[low..high)
   * around the pivot a[pi1], scanning the unknown part from the top; returns
   * the bounds of the part equal to the pivot. The result is a permutation
   * and nothing outside the range changes.
   */
  method PartitionWithOnePivot(a: array<int>, low: int, high: int, pi1: int, pi2: int) returns (lower: int, upper: int)
    requires 0 <= low <= pi1 < high <= a.Length
    modifies a
    ensures OnePivotParts(a[..], low, high, lower, upper, old(a[pi1]))
    ensures multiset(a[..]) == multiset(old(a[..]))
    ensures SameOutside(a[..], old(a[..]), low, high)
  {
    upper := high;
    lower := low;
    var pivot := a[pi1];
    a[pi1] := a[lower];
    ghost var a0 := a[..];
    lower, upper := OnePivotLoop(a, low, high, pivot);
    ghost var b := a[..];
    a[low] := a[lower];
    a[lower] := pivot;
    OnePivotDone(old(a[..]), a0, b, a[..], low, high, pi1, pivot, lower, upper);
  }

  /**
   * The partitioning loop of partitionWithOnePivot: k runs down from high
   * until it meets lower; every element other than the pivot goes to the left
   * or the right part, and afterwards the unscanned range is empty.
   */
  method OnePivotLoop(a: array<int>, low: int, high: int, pivot: int) returns (lower: int, upper: int)
    requires OnePivotState(a[..], low, high, pivot, low, high, high)
    modifies a
    ensures OnePivotState(a[..], low, high, pivot, lower, lower + 1, upper)
    ensures multiset(a[..]) == multiset(old(a[..])) && SameOutside(a[..], old(a[..]), low + 1, high)
  {
    lower, upper := low, high;
    var k := upper;
    ghost var c := k;
    while k - 1 > lower
      invariant OnePivotState(a[..], low, high, pivot, lower, c, upper)
      invariant c == k || (c == k + 1 && lower == k)
      invariant multiset(a[..]) == multiset(old(a[..])) && SameOutside(a[..], old(a[..]), low + 1, high)
      decreases k
    {
      k := k - 1;
      var ak := a[k];
      if ak != pivot {
        ghost var before := a[..];
        lower, upper, c := OnePivotMove(a, low, high, pivot, lower, k, upper);
        SameOutsideTrans(a[..], before, old(a[..]), low + 1, high, low + 1, high);
      } else {
        c := k;
      }
    }
  }

  /** Writing the pivot back completes the one-pivot partition and its permutation. */
  lemma OnePivotDone(o: seq<int>, a0: seq<int>, b: seq<int>, f: seq<int>, low: int, high: int, pi1: int, p: int, lower: int, upper: int)
    requires 0 <= low <= pi1 < high <= |o| && p == o[pi1]
    requires |a0| == |o| && forall x :: 0 <= x < |a0| ==> a0[x] == (if x == pi1 then o[low] else o[x])
    requires OnePivotState(b, low, high, p, lower, lower + 1, upper)
    requires multiset(b) == multiset(a0) && SameOutside(b, a0, low + 1, high)
    requires |f| == |b| && forall x :: 0 <= x < |f| ==> f[x] == (if x == lower then p else if x == low then b[lower] else b[x])
    ensures OnePivotParts(f, low, high, lower, upper, p)
    ensures multiset(f) == multiset(o) && SameOutside(f, o, low, high)
  {
    var w := b[low := p];
    SwapAt(w, f, low, lower);
    assert b[low] == a0[low];
    assert multiset(w) == multiset(a0[low := p]);
    SwapAt(o, a0[low := p], low, pi1);
    SameOutsideAt(f, o, low, high);
  }
}
