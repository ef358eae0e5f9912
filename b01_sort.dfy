/**
 * The sequential driver of the b01 sorter, `sort(null, a, bits, low, high)`,
 * and its depth calculator getDepth. The driver loop is that of the r32
 * sorter with the b01 thresholds, with bits growing by DELTA = 6 per level and
 * the heap-sort switch checked before the sample is taken; its partitioners
 * are partitionDualPivot and partitionSinglePivot.
 */
module B01Sort {
  import opened SortSpec
  import opened Partitioning
  import opened Sample
  import opened QuicksortSteps
  import InsertionSteps
  import B01Insertion
  import B01Partition
  import B01MergingSort
  import HeapSort

  /** Non-leftmost ranges below this size (plus bits) are sorted by mixed insertion sort. */
  const MAX_MIXED_INSERTION_SORT_SIZE: int := 65
  /** Ranges below this size are sorted by insertion sort. */
  const MAX_INSERTION_SORT_SIZE: int := 44
  /** Merging sort is tried on ranges above this size times bits. */
  const MIN_MERGING_SORT_SIZE: int := 512
  /** The growth of bits per level, `3 << 1`. */
  const DELTA: int := 6
  /** Heap sort takes over once bits exceeds this. */
  const MAX_RECURSION_DEPTH: int := 64 * DELTA

  /**
   * How often n can be divided by b (with Java's `>>`, which rounds down)
   * before the quotient is no longer positive.
   */
  function Log(b: int, n: int): (r: nat)
    requires b >= 2
    decreases if n > 0 then n else 0
  {
    if n / b > 0 then QuotientBelow(n, b); 1 + Log(b, n / b) else 0
  }

  /** Dividing a positive number by at least 2 makes it smaller. */
  lemma QuotientBelow(n: int, b: int)
    requires b >= 2 && n > 0
    ensures n / b < n
  {
    var q := n / b;
    assert q * b <= n && q >= 0;
    assert q * b == 2 * q + q * (b - 2) && q * (b - 2) >= 0;
  }

  /** The number of iterations of getDepth's loop: both shifts must leave a positive value. */
  function Levels(parallelism: int, size: int): (r: nat)
    decreases if parallelism > 0 then parallelism else 0
  {
    if parallelism / 8 > 0 && size / 4 > 0 then 1 + Levels(parallelism / 8, size / 4) else 0
  }

  /** The loop runs as long as both the parallelism and the size still have a factor to give. */
  lemma {:induction false} LevelsIsMin(parallelism: int, size: int)
    ensures Levels(parallelism, size) == Min(Log(8, parallelism), Log(4, size))
    decreases if parallelism > 0 then parallelism else 0
  {
    if parallelism / 8 > 0 && size / 4 > 0 {
      LevelsIsMin(parallelism / 8, size / 4);
    }
  }

  /**
   * getDepth: `while ((parallelism >>= 3) > 0 && (size >>= 2) > 0) depth -= 2;`.
   * The depth is minus twice the smaller of the two logarithms, so it is even
   * and never positive, and zero when the parallelism is below 8.
   */
  method GetDepth(parallelism: int, size: int) returns (depth: int)
    ensures depth == -2 * Min(Log(8, parallelism), Log(4, size))
    ensures depth <= 0 && depth % 2 == 0
    ensures parallelism < 8 ==> depth == 0
  {
    depth := 0;
    var p, s := parallelism, size;
    while true
      invariant depth == -2 * (Levels(parallelism, size) - Levels(p, s))
      decreases if p > 0 then p else 0
    {
      var p1 := p / 8;
      if p1 <= 0 {
        break;
      }
      var s1 := s / 4;
      if s1 <= 0 {
        break;
      }
      p, s := p1, s1;
      depth := depth - 2;
    }
    LevelsIsMin(parallelism, size);
  }

  /**
   * `sort(null, a, bits, low, high)`: sorts a[low..high). An odd `bits` marks
   * a part that is not the leftmost one, whose element before low is at most
   * every element of the range. The result is a permutation of the old
   * contents and nothing outside the range changes. The buffer allocation of
   * each merging-sort attempt may fail, which is a nondeterministic choice.
   */
  method Sort(a: array<int>, bits: int, low: int, high: int)
    requires 0 <= low <= high <= a.Length && 0 <= bits
    requires bits % 2 == 1 ==> HasSentinel(a[..], low, high)
    modifies a
    ensures SortedRange(a[..], low, high)
    ensures multiset(a[..]) == multiset(old(a[..]))
    ensures SameOutside(a[..], old(a[..]), low, high)
    decreases high - low, 2
  {
    var b, hi := bits, high;
    ghost var levels := 0;
    DriverStart(a[..], low, high, bits % 2 == 1);
    while true
      invariant 0 <= levels && b == bits + 2 * levels
      invariant DriverInv(a[..], old(a[..]), low, hi, high, bits % 2 == 1)
      decreases hi - low
    {
      ghost var s := a[..];
      SameParity(b, bits, levels);
      var done := TryDirectSorts(a, b, low, hi);
      if done {
        InvDone(s, a[..], old(a[..]), low, hi, high, bits % 2 == 1);
        return;
      }
      InvAfterPerm(s, a[..], old(a[..]), low, hi, high, bits % 2 == 1);
      b, levels := b + DELTA, levels + 3;
      if b > MAX_RECURSION_DEPTH {
        ghost var t := a[..];
        HeapSort.HeapSort(a, low, hi);
        InvDone(t, a[..], old(a[..]), low, hi, high, bits % 2 == 1);
        return;
      }
      ghost var u := a[..];
      var f := SortSample(a, low, hi);
      InvAfterPerm(u, a[..], old(a[..]), low, hi, high, bits % 2 == 1);
      ghost var t := a[..];
      var lower := SortParts(a, b, low, hi, f);
      InvLeftPart(t, a[..], old(a[..]), low, lower, hi, high, bits % 2 == 1);
      hi := lower;
    }
  }

  /**
   * The strategies of one iteration that sort a[low..high) without
   * partitioning: mixed insertion sort on a small part that is not the
   * leftmost one, insertion sort on a small part, and merging sort on a part
   * of more than MIN_MERGING_SORT_SIZE * bits elements. Returns whether the
   * range is sorted; when not, it has at least MAX_INSERTION_SORT_SIZE
   * elements. Either way the range is a permutation of its old contents.
   */
  method TryDirectSorts(a: array<int>, bits: int, low: int, high: int) returns (done: bool)
    requires 0 <= low <= high <= a.Length && 0 <= bits
    requires bits % 2 == 1 ==> HasSentinel(a[..], low, high)
    modifies a
    ensures done ==> SortedRange(a[..], low, high)
    ensures !done ==> high - low >= MAX_INSERTION_SORT_SIZE
    ensures multiset(a[..]) == multiset(old(a[..])) && SameOutside(a[..], old(a[..]), low, high)
  {
    var size := high - low;
    if size < MAX_MIXED_INSERTION_SORT_SIZE + bits && bits % 2 == 1 {
      B01Insertion.MixedInsertionSort(a, low, high);
      return true;
    }
    if size < MAX_INSERTION_SORT_SIZE {
      InsertionSteps.InsertionSort(a, low, high);
      return true;
    }
    if size > MIN_MERGING_SORT_SIZE * bits {
      var canAllocate: bool := *;
      ghost var cause;
      done, cause := B01MergingSort.TryMergingSort(a, low, high, canAllocate);
      return;
    }
    return false;
  }

  /**
   * The sample of the driver: five indices spread over a[low..high) by
   * `step = (size >> 3) * 3 + 3`, sorted in place by the reversed-order
   * network and the insertion of the middle element. Only the five slots
   * change, and they all lie strictly inside the range.
   */
  method SortSample(a: array<int>, low: int, high: int) returns (f: Five)
    requires 0 <= low && high - low >= MAX_INSERTION_SORT_SIZE && high <= a.Length
    modifies a
    ensures low < f.e1 < f.e2 < f.e3 < f.e4 < f.e5 < high - 1
    ensures SampleSorted(a[..], f)
    ensures multiset(a[..]) == multiset(old(a[..])) && SameOutside(a[..], old(a[..]), low, high)
  {
    var step := B01Step(high - low);
    B01SampleInside(low, high);
    f := Spread(low + step, high - 1 - step);
    B01SortSample(a, f);
    SlotsInside(old(a[..]), a[..], f, low, high);
  }

  /**
   * The partitioning part of one iteration on a[low..high), with the sample
   * f sorted: with two pivots when the five sample elements are distinct, and
   * with one pivot otherwise. Returns the end of the left part: a[lower..high)
   * is then sorted and above a[low..lower).
   */
  method SortParts(a: array<int>, bits: int, low: int, high: int, f: Five) returns (lower: int)
    requires 0 <= low < f.e1 < f.e2 < f.e3 < f.e4 < f.e5 < high - 1 && high <= a.Length && 0 <= bits
    requires SampleSorted(a[..], f)
    modifies a
    ensures low <= lower < high
    ensures SortedRange(a[..], lower, high) && Below(a[..], low, lower, high)
    ensures multiset(a[..]) == multiset(old(a[..])) && SameOutside(a[..], old(a[..]), low, high)
    decreases high - low, 1
  {
    if a[f.e1] < a[f.e2] && a[f.e2] < a[f.e3] && a[f.e3] < a[f.e4] && a[f.e4] < a[f.e5] {
      lower := SortTwoPivotParts(a, bits, low, high, f);
    } else {
      lower := SortOnePivotParts(a, bits, low, high, f);
    }
  }

  /**
   * Partitioning with the pivots a[e1] and a[e5], then sorting the middle
   * part and the right part recursively as parts that are not the leftmost
   * ones.
   */
  method SortTwoPivotParts(a: array<int>, bits: int, low: int, high: int, f: Five) returns (lower: int)
    requires 0 <= low < f.e1 < f.e3 < f.e5 < high - 1 && high <= a.Length && 0 <= bits
    requires a[f.e1] <= a[f.e3] <= a[f.e5]
    modifies a
    ensures low <= lower < high
    ensures SortedRange(a[..], lower, high) && Below(a[..], low, lower, high)
    ensures multiset(a[..]) == multiset(old(a[..])) && SameOutside(a[..], old(a[..]), low, high)
    decreases high - low, 0
  {
    ghost var s0 := a[..];
    var p1, p2 := a[f.e1], a[f.e5];
    var upper;
    lower, upper := B01Partition.PartitionDualPivot(a, low, high, f.e1, f.e5, f.e3);
    ghost var s1 := a[..];
    MiddleSentinel(s1, low, high, lower, upper, p1, p2);
    Sort(a, OrOne(bits), lower + 1, upper);
    ghost var s2 := a[..];
    RightSentinel(s1, s2, low, high, lower, upper, p1, p2);
    Sort(a, OrOne(bits), upper + 1, high);
    TwoPivotsSorted(s0, s1, s2, a[..], low, high, lower, upper, p1, p2);
  }

  /**
   * Partitioning with the pivot a[e3] (partitionSinglePivot), then sorting the
   * right part recursively; the central part holds only the pivot and is
   * sorted.
   */
  method SortOnePivotParts(a: array<int>, bits: int, low: int, high: int, f: Five) returns (lower: int)
    requires 0 <= low < f.e3 < high <= a.Length && 0 <= bits
    modifies a
    ensures low <= lower < high
    ensures SortedRange(a[..], lower, high) && Below(a[..], low, lower, high)
    ensures multiset(a[..]) == multiset(old(a[..])) && SameOutside(a[..], old(a[..]), low, high)
    decreases high - low, 0
  {
    ghost var s0 := a[..];
    var p := a[f.e3];
    var upper;
    lower, upper := PartitionWithOnePivot(a, low, high, f.e3, f.e3);
    ghost var s1 := a[..];
    PivotSentinel(s1, low, high, lower, upper, p);
    Sort(a, OrOne(bits), upper, high);
    OnePivotSorted(s0, s1, a[..], low, high, lower, upper, p);
  }

  /**
   * The sequential branch of `sort(a, parallelism, low, high)`: the driver
   * started with bits = 0 sorts a[low..high) as a permutation of its old
   * contents, leaving everything outside alone.
   */
  method SortRange(a: array<int>, low: int, high: int)
    requires 0 <= low <= high <= a.Length
    modifies a
    ensures SortedRange(a[..], low, high)
    ensures multiset(a[..]) == multiset(old(a[..]))
    ensures SameOutside(a[..], old(a[..]), low, high)
  {
    Sort(a, 0, low, high);
  }
}
