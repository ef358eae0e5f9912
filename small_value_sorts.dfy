/**
 * The front doors of the r32 sorter for `byte`, `char` and `short` arrays. A
 * byte range is sorted by counting sort when it has more than
 * MIN_BYTE_COUNTING_SORT_SIZE elements and by insertion sort otherwise. A
 * char or short range is sorted by counting sort when it is large and by a
 * dual-pivot quicksort otherwise; that quicksort falls back on counting sort,
 * not heap sort, once the recursion is too deep, and has neither mixed
 * insertion sort nor merging sort. Its partitioning, sample sorting and
 * insertion sort are the same code as for `int`.
 */
module SmallValueSorts {
  import opened SortSpec
  import opened Sample
  import opened QuicksortSteps
  import Partitioning
  import InsertionSteps
  import R32Partition
  import R32Sort
  import CountingSort

  /** Byte ranges above this size are sorted by counting sort. */
  const MIN_BYTE_COUNTING_SORT_SIZE: int := 32
  /** Char ranges above this size are sorted by counting sort. */
  const MIN_CHAR_COUNTING_SORT_SIZE: int := 2300
  /** Short ranges above this size are sorted by counting sort. */
  const MIN_SHORT_COUNTING_SORT_SIZE: int := 2300

  /** The size above which a char or a short range goes to counting sort. */
  function MinCountingSortSize(k: CountingSort.Kind): int
    requires k != CountingSort.Byte
  {
    if k == CountingSort.Char then MIN_CHAR_COUNTING_SORT_SIZE else MIN_SHORT_COUNTING_SORT_SIZE
  }

  /**
   * `sort(byte[] a, low, high)`: counting sort for a range of more than
   * MIN_BYTE_COUNTING_SORT_SIZE elements, insertion sort otherwise.
   */
  method SortBytes(a: array<int>, low: int, high: int)
    requires 0 <= low <= high <= a.Length && CountingSort.AllInType(CountingSort.Byte, a[..])
    modifies a
    ensures SortedRange(a[..], low, high)
    ensures multiset(a[..]) == multiset(old(a[..]))
    ensures SameOutside(a[..], old(a[..]), low, high)
  {
    if high - low > MIN_BYTE_COUNTING_SORT_SIZE {
      CountingSort.Sort(a, CountingSort.Byte, low, high);
    } else {
      InsertionSteps.InsertionSort(a, low, high);
    }
  }

  /**
   * `sort(char[] a, low, high)` and `sort(short[] a, low, high)`: counting
   * sort for a large range, otherwise the quicksort on the range as the
   * leftmost part, with bits 0.
   */
  method SortRange(a: array<int>, k: CountingSort.Kind, low: int, high: int)
    requires k != CountingSort.Byte && 0 <= low <= high <= a.Length && CountingSort.AllInType(k, a[..])
    modifies a
    ensures SortedRange(a[..], low, high)
    ensures multiset(a[..]) == multiset(old(a[..]))
    ensures SameOutside(a[..], old(a[..]), low, high)
  {
    if high - low > MinCountingSortSize(k) {
      CountingSort.Sort(a, k, low, high);
    } else {
      Quicksort(a, k, 0, low, high);
    }
  }

  /**
   * `sort(char[] a, bits, low, high)` and its short twin: the loop over the
   * left part a[low..hi), which sorts a small part by insertion sort, hands
   * the part to counting sort once bits, grown by 2 per level, exceeds
   * MAX_RECURSION_DEPTH, and otherwise sorts the five-element sample and
   * partitions with two pivots or one, recursing on the parts right of the
   * pivots.
   */
  method Quicksort(a: array<int>, k: CountingSort.Kind, bits: int, low: int, high: int)
    requires 0 <= low <= high <= a.Length && 0 <= bits && CountingSort.AllInType(k, a[..])
    modifies a
    ensures SortedRange(a[..], low, high)
    ensures multiset(a[..]) == multiset(old(a[..]))
    ensures SameOutside(a[..], old(a[..]), low, high)
    decreases high - low, 2
  {
    var b, hi := bits, high;
    DriverStart(a[..], low, high, false);
    while true
      invariant 0 <= b && CountingSort.AllInType(k, a[..])
      invariant DriverInv(a[..], old(a[..]), low, hi, high, false)
      decreases hi - low
    {
      ghost var s := a[..];
      var size := hi - low;
      if size < R32Sort.MAX_INSERTION_SORT_SIZE {
        InsertionSteps.InsertionSort(a, low, hi);
        InvDone(s, a[..], old(a[..]), low, hi, high, false);
        return;
      }
      b := b + 2;
      if b > R32Sort.MAX_RECURSION_DEPTH {
        CountingSort.Sort(a, k, low, hi);
        InvDone(s, a[..], old(a[..]), low, hi, high, false);
        return;
      }
      var f := R32Sort.SortSample(a, low, hi);
      InvAfterPerm(s, a[..], old(a[..]), low, hi, high, false);
      CountingSort.AllInTypePerm(k, s, a[..]);
      ghost var t := a[..];
      var lower := SortParts(a, k, b, low, hi, f);
      InvLeftPart(t, a[..], old(a[..]), low, lower, hi, high, false);
      CountingSort.AllInTypePerm(k, t, a[..]);
      hi := lower;
    }
  }

  /**
   * The partitioning part of one iteration on a[low..high), with the sample
   * f sorted: with two pivots when the five sample elements are distinct, and
   * with one pivot otherwise. Returns the end of the left part: a[lower..high)
   * is then sorted and above a[low..lower).
   */
  method SortParts(a: array<int>, k: CountingSort.Kind, bits: int, low: int, high: int, f: Five) returns (lower: int)
    requires 0 <= low < f.e1 < f.e2 < f.e3 < f.e4 < f.e5 < high - 1 && high <= a.Length && 0 <= bits
    requires SampleSorted(a[..], f) && CountingSort.AllInType(k, a[..])
    modifies a
    ensures low <= lower < high
    ensures SortedRange(a[..], lower, high) && Below(a[..], low, lower, high)
    ensures multiset(a[..]) == multiset(old(a[..])) && SameOutside(a[..], old(a[..]), low, high)
    decreases high - low, 1
  {
    if a[f.e1] < a[f.e2] && a[f.e2] < a[f.e3] && a[f.e3] < a[f.e4] && a[f.e4] < a[f.e5] {
      lower := SortTwoPivotParts(a, k, bits, low, high, f);
    } else {
      lower := SortOnePivotParts(a, k, bits, low, high, f);
    }
  }

  /**
   * Partitioning with the pivots a[e1] < a[e5], then sorting the middle part
   * and the right part recursively as parts that are not the leftmost ones.
   */
  method SortTwoPivotParts(a: array<int>, k: CountingSort.Kind, bits: int, low: int, high: int, f: Five) returns (lower: int)
    requires 0 <= low < f.e1 < f.e3 < f.e5 < high - 1 && high <= a.Length && 0 <= bits
    requires a[f.e1] <= a[f.e3] <= a[f.e5] && CountingSort.AllInType(k, a[..])
    modifies a
    ensures low <= lower < high
    ensures SortedRange(a[..], lower, high) && Below(a[..], low, lower, high)
    ensures multiset(a[..]) == multiset(old(a[..])) && SameOutside(a[..], old(a[..]), low, high)
    decreases high - low, 0
  {
    ghost var s0 := a[..];
    var p1, p2 := a[f.e1], a[f.e5];
    var upper;
    lower, upper := R32Partition.PartitionWithTwoPivots(a, low, high, f.e1, f.e5, f.e3);
    ghost var s1 := a[..];
    CountingSort.AllInTypePerm(k, s0, s1);
    Quicksort(a, k, OrOne(bits), lower + 1, upper);
    ghost var s2 := a[..];
    CountingSort.AllInTypePerm(k, s1, s2);
    Quicksort(a, k, OrOne(bits), upper + 1, high);
    TwoPivotsSorted(s0, s1, s2, a[..], low, high, lower, upper, p1, p2);
  }

  /**
   * Partitioning with the pivot a[e3], then sorting the right part
   * recursively; the central part holds only the pivot and is sorted.
   */
  method SortOnePivotParts(a: array<int>, k: CountingSort.Kind, bits: int, low: int, high: int, f: Five) returns (lower: int)
    requires 0 <= low < f.e3 < high <= a.Length && 0 <= bits && CountingSort.AllInType(k, a[..])
    modifies a
    ensures low <= lower < high
    ensures SortedRange(a[..], lower, high) && Below(a[..], low, lower, high)
    ensures multiset(a[..]) == multiset(old(a[..])) && SameOutside(a[..], old(a[..]), low, high)
    decreases high - low, 0
  {
    ghost var s0 := a[..];
    var p := a[f.e3];
    var upper;
    lower, upper := Partitioning.PartitionWithOnePivot(a, low, high, f.e3, f.e3);
    ghost var s1 := a[..];
    CountingSort.AllInTypePerm(k, s0, s1);
    Quicksort(a, k, OrOne(bits), upper, high);
    OnePivotSorted(s0, s1, a[..], low, high, lower, upper, p);
  }
}
