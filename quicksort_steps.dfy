/**
 * The loop of the dual-pivot quicksort drivers, shared by both revisions:
 * each iteration either sorts the whole remaining left part a[low..hi) and
 * returns, or partitions it, sorts the parts right of the pivots recursively
 * and goes on with the part left of them. What the loop keeps is the
 * invariant DriverInv: a[hi..high) is sorted, every element left of hi is at
 * most every element from hi on, and the whole range is a permutation of the
 * old one.
 */
module QuicksortSteps {
  import opened SortSpec
  import opened Partitioning
  import Sample

  /** `bits | 1` for a non-negative bits: the flag of a part that is not the leftmost one. */
  function OrOne(bits: int): (r: int)
    requires 0 <= bits
    ensures r % 2 == 1 && (r == bits || r == bits + 1)
    ensures bits % 2 == 1 ==> r == bits
  {
    if bits % 2 == 1 then bits else bits + 1
  }

  /** Growing bits by 2 per level keeps the flag bit. */
  lemma SameParity(b: int, bits: int, levels: int)
    requires 0 <= levels && b == bits + 2 * levels
    ensures b % 2 == bits % 2
  {
  }

  /**
   * The invariant of the driver loop on a[low..high) of s0, with the left part
   * still to sort being a[low..hi); `odd` is the flag of a non-leftmost range,
   * whose element before low is at most every element of the left part.
   */
  ghost predicate DriverInv(s: seq<int>, s0: seq<int>, low: int, hi: int, high: int, odd: bool) {
    0 <= low <= hi <= high <= |s| &&
    multiset(s) == multiset(s0) && SameOutside(s, s0, low, high) &&
    SortedRange(s, hi, high) && Below(s, low, hi, high) &&
    (odd ==> HasSentinel(s, low, hi))
  }

  /** Before the first iteration the left part is the whole range. */
  lemma DriverStart(s0: seq<int>, low: int, high: int, odd: bool)
    requires 0 <= low <= high <= |s0|
    requires odd ==> HasSentinel(s0, low, high)
    ensures DriverInv(s0, s0, low, high, high, odd)
  {
  }

  /** Permuting the left part in place keeps the invariant. */
  lemma InvAfterPerm(s: seq<int>, t: seq<int>, s0: seq<int>, low: int, hi: int, high: int, odd: bool)
    requires DriverInv(s, s0, low, hi, high, odd)
    requires multiset(t) == multiset(s) && SameOutside(t, s, low, hi)
    ensures DriverInv(t, s0, low, hi, high, odd)
  {
    SameOutsideTrans(t, s, s0, low, high, low, hi);
    assert t[hi..] == s[hi..];
    forall i, j | hi <= i < j < high ensures t[i] <= t[j] {
      assert t[i] == t[hi..][i - hi] && s[i] == s[hi..][i - hi];
      assert t[j] == t[hi..][j - hi] && s[j] == s[hi..][j - hi];
    }
    BelowAfter(s, t, low, hi, high, low, hi);
    if odd {
      SentinelAfter(s, t, low, hi, low, hi);
    }
  }

  /** Sorting the left part in place ends the driver with the whole range sorted. */
  lemma InvDone(s: seq<int>, t: seq<int>, s0: seq<int>, low: int, hi: int, high: int, odd: bool)
    requires DriverInv(s, s0, low, hi, high, odd)
    requires multiset(t) == multiset(s) && SameOutside(t, s, low, hi) && SortedRange(t, low, hi)
    ensures SortedRange(t, low, high)
    ensures multiset(t) == multiset(s0) && SameOutside(t, s0, low, high)
  {
    InvAfterPerm(s, t, s0, low, hi, high, odd);
    SortedConcat(t, low, hi, high);
  }

  /**
   * One partitioning iteration, which permutes a[low..hi) into a left part
   * a[low..lower) below the sorted a[lower..hi), keeps the invariant with
   * lower as the new end of the left part.
   */
  lemma InvLeftPart(s: seq<int>, t: seq<int>, s0: seq<int>, low: int, lower: int, hi: int, high: int, odd: bool)
    requires DriverInv(s, s0, low, hi, high, odd) && low <= lower <= hi
    requires multiset(t) == multiset(s) && SameOutside(t, s, low, hi)
    requires SortedRange(t, lower, hi) && Below(t, low, lower, hi)
    ensures DriverInv(t, s0, low, lower, high, odd)
  {
    InvAfterPerm(s, t, s0, low, hi, high, odd);
    SortedConcat(t, lower, hi, high);
  }

  /** The five sample slots lie in a[low..hi), so the sample sort permutes only inside the range. */
  lemma SlotsInside(s: seq<int>, t: seq<int>, f: Sample.Five, low: int, hi: int)
    requires 0 <= low <= f.e1 && f.e5 < hi <= |s|
    requires Sample.OnlySlots(t, s, f) && f.e1 < f.e2 < f.e3 < f.e4 < f.e5
    ensures SameOutside(t, s, low, hi)
  {
    assert t[..low] == s[..low];
    assert t[hi..] == s[hi..] by {
      forall x | 0 <= x < |s| - hi ensures t[hi..][x] == s[hi..][x] {
        assert t[hi + x] == s[hi + x];
      }
    }
  }

  /** After partitioning with two pivots, pivot1 is the sentinel of the middle part. */
  lemma MiddleSentinel(s1: seq<int>, low: int, hi: int, lower: int, upper: int, p1: int, p2: int)
    requires TwoPivotParts(s1, low, hi, lower, upper, p1, p2)
    ensures HasSentinel(s1, lower + 1, upper)
  {
  }

  /** Once the middle part is sorted in place, pivot2 is the sentinel of the right part. */
  lemma RightSentinel(s1: seq<int>, s2: seq<int>, low: int, hi: int, lower: int, upper: int, p1: int, p2: int)
    requires TwoPivotParts(s1, low, hi, lower, upper, p1, p2)
    requires SameOutside(s2, s1, lower + 1, upper)
    ensures HasSentinel(s2, upper + 1, hi)
  {
    assert s2[upper..] == s1[upper..];
    forall i | upper <= i < hi ensures s2[i] == s1[i] {
      assert s2[i] == s2[upper..][i - upper] && s1[i] == s1[upper..][i - upper];
    }
  }

  /** After partitioning with one pivot, the last copy of the pivot is the sentinel of the right part. */
  lemma PivotSentinel(s1: seq<int>, low: int, hi: int, lower: int, upper: int, p: int)
    requires OnePivotParts(s1, low, hi, lower, upper, p)
    ensures HasSentinel(s1, upper, hi)
  {
    assert s1[upper - 1] == p;
  }

  /**
   * After partitioning with two pivots and sorting the middle and the right
   * part, a[lower..hi) is sorted and above the left part a[low..lower).
   */
  lemma TwoPivotsSorted(s0: seq<int>, s1: seq<int>, s2: seq<int>, s3: seq<int>, low: int, hi: int, lower: int, upper: int, p1: int, p2: int)
    requires multiset(s1) == multiset(s0) && SameOutside(s1, s0, low, hi)
    requires TwoPivotParts(s1, low, hi, lower, upper, p1, p2) && p1 <= p2
    requires multiset(s2) == multiset(s1) && SameOutside(s2, s1, lower + 1, upper) && SortedRange(s2, lower + 1, upper)
    requires multiset(s3) == multiset(s2) && SameOutside(s3, s2, upper + 1, hi) && SortedRange(s3, upper + 1, hi)
    ensures SortedRange(s3, lower, hi) && Below(s3, low, lower, hi)
    ensures multiset(s3) == multiset(s0) && SameOutside(s3, s0, low, hi)
  {
    MiddleSorted(s1, s2, low, hi, lower, upper, p1, p2);
    RightSorted(s2, s3, low, hi, lower, upper, p1, p2);
    TwoPivotsAssembled(s3, low, lower, upper, hi, p1, p2);
    SameOutsideTrans(s2, s1, s0, low, hi, lower + 1, upper);
    SameOutsideTrans(s3, s2, s0, low, hi, upper + 1, hi);
  }

  /** Sorting the middle part keeps the split by the two pivots. */
  lemma MiddleSorted(s1: seq<int>, s2: seq<int>, low: int, hi: int, lower: int, upper: int, p1: int, p2: int)
    requires TwoPivotParts(s1, low, hi, lower, upper, p1, p2)
    requires multiset(s2) == multiset(s1) && SameOutside(s2, s1, lower + 1, upper)
    ensures TwoPivotParts(s2, low, hi, lower, upper, p1, p2)
  {
    BoundsAfter(s1, s2, lower + 1, upper, p1);
    BoundsAfter(s1, s2, lower + 1, upper, p2);
    SameOutsidePointwise(s2, s1, lower + 1, upper);
  }

  /** Sorting the right part keeps the split by the two pivots and the sorted middle part. */
  lemma RightSorted(s2: seq<int>, s3: seq<int>, low: int, hi: int, lower: int, upper: int, p1: int, p2: int)
    requires TwoPivotParts(s2, low, hi, lower, upper, p1, p2) && SortedRange(s2, lower + 1, upper)
    requires multiset(s3) == multiset(s2) && SameOutside(s3, s2, upper + 1, hi)
    ensures TwoPivotParts(s3, low, hi, lower, upper, p1, p2) && SortedRange(s3, lower + 1, upper)
  {
    BoundsAfter(s2, s3, upper + 1, hi, p2);
    SameOutsidePointwise(s3, s2, upper + 1, hi);
  }

  /**
   * A range split by two pivots, with the middle and the right part sorted,
   * is sorted from the first pivot on and that part lies above the left part.
   */
  lemma TwoPivotsAssembled(s: seq<int>, low: int, lower: int, upper: int, hi: int, p1: int, p2: int)
    requires 0 <= low <= lower < upper < hi <= |s| && s[lower] == p1 && s[upper] == p2 && p1 <= p2
    requires AllLess(s, low, lower, p1) && AllAtLeast(s, lower + 1, upper, p1) && AllAtMost(s, lower + 1, upper, p2)
    requires AllGreater(s, upper + 1, hi, p2)
    requires SortedRange(s, lower + 1, upper) && SortedRange(s, upper + 1, hi)
    ensures SortedRange(s, lower, hi) && Below(s, low, lower, hi)
  {
    forall i, j | lower <= i < j < hi ensures s[i] <= s[j] {
      if i == lower || j == upper || (i < upper < j) {
      } else if j < upper {
      } else {
      }
    }
  }

  /**
   * After partitioning with one pivot and sorting the right part, a[lower..hi)
   * is sorted and above the left part a[low..lower).
   */
  lemma OnePivotSorted(s0: seq<int>, s1: seq<int>, s2: seq<int>, low: int, hi: int, lower: int, upper: int, p: int)
    requires multiset(s1) == multiset(s0) && SameOutside(s1, s0, low, hi)
    requires OnePivotParts(s1, low, hi, lower, upper, p)
    requires multiset(s2) == multiset(s1) && SameOutside(s2, s1, upper, hi) && SortedRange(s2, upper, hi)
    ensures SortedRange(s2, lower, hi) && Below(s2, low, lower, hi)
    ensures multiset(s2) == multiset(s0) && SameOutside(s2, s0, low, hi)
  {
    BoundsAfter(s1, s2, upper, hi, p);
    assert s2[..upper] == s1[..upper];
    forall i | 0 <= i < upper ensures s2[i] == s1[i] {
      assert s2[i] == s2[..upper][i] && s1[i] == s1[..upper][i];
    }
    SameOutsideTrans(s2, s1, s0, low, hi, upper, hi);
  }
}
