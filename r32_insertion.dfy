/**
 * The mixed insertion sort of the r32 sorter, used on every small part of the
 * array but the leftmost one: simple insertion sort below 8 elements, and
 * otherwise pin insertion on a[low..end) followed by pair insertion on
 * a[end..high), with end = high - 6 * ((high - low) / 8). The pin of each step
 * is the next element taken from the top of the range down.
 */
module R32Insertion {
  import opened SortSpec
  import opened InsertionSteps

  /** The index where the pin phase of mixedInsertionSort ends and the pair phase starts. */
  function SplitEnd(low: int, high: int): (end: int)
    requires low <= high
    ensures low <= end <= high && (high - end) % 2 == 0
    ensures end == high <==> high - low < 8
    ensures high - low >= 8 ==> end - low >= 2
  {
    high - 3 * ((high - low) / 8 * 2)
  }

  /**
   * The pin of step k (p = high - (k - low)) never reaches below k - 1: it
   * stays inside the range and leaves a[low..k - 1) alone.
   */
  lemma PinStaysAbove(low: int, high: int, k: int)
    requires high - low >= 8 && low < k < SplitEnd(low, high)
    ensures k - 1 <= high - (k - low) < high
  {
    var n := high - low;
    var q := n / 8;
    assert n == 8 * q + n % 8;
  }

  /**
   * One step of the pin insertion part: a[k] is exchanged with the pin a[p] when
   * larger, and the smaller of the two is inserted into a[low..k).
   */
  method PinStep(a: array<int>, low: int, k: int, p: int, high: int)
    requires 0 < low < k < high && k - 1 <= p < high <= a.Length
    requires SortedRange(a[..], low, k) && HasSentinel(a[..], low, high)
    modifies a
    ensures SortedRange(a[..], low, k + 1) && HasSentinel(a[..], low, high)
    ensures multiset(a[..]) == multiset(old(a[..]))
    ensures SameOutside(a[..], old(a[..]), low, high)
  {
    var ai := PinExchangeStep(a, low, k, p, high);
    ghost var t := a[..];
    SortedAroundEnd(t, low, k);
    InsertDown(a, low, k, k + 1, ai);
    Reinserted(t[k := ai], a[..], old(a[..]), low, high, k + 1);
  }

  /**
   * The first half of a pin step, `if (ai > pin) { ai = pin; a[p] = a[i]; }`:
   * returns the element to insert; with it in the hole at k the range is a
   * permutation of the old one and a[low..k) is still sorted.
   */
  method PinExchangeStep(a: array<int>, low: int, k: int, p: int, high: int) returns (ai: int)
    requires 0 < low < k < high && k - 1 <= p < high <= a.Length
    requires SortedRange(a[..], low, k) && HasSentinel(a[..], low, high)
    modifies a
    ensures SortedRange(a[..], low, k) && a[low - 1] <= ai
    ensures multiset(a[..][k := ai]) == multiset(old(a[..]))
    ensures HasSentinel(a[..][k := ai], low, high)
    ensures SameOutside(a[..][k := ai], old(a[..]), low, high)
  {
    ai := a[k];
    var pin := a[p];
    if ai > pin {
      ai := pin;
      PinExchange(a[..], low, k, p, high);
      a[p] := a[k];
    } else {
      assert a[..][k := ai] == a[..];
    }
  }

  /** The pin insertion part: sorts a[low..end), exchanging with pins taken from the top down. */
  method PinPhase(a: array<int>, low: int, end: int, high: int)
    requires 0 < low && high - low >= 8 && end == SplitEnd(low, high) && high <= a.Length
    requires HasSentinel(a[..], low, high)
    modifies a
    ensures SortedRange(a[..], low, end) && HasSentinel(a[..], low, high)
    ensures multiset(a[..]) == multiset(old(a[..]))
    ensures SameOutside(a[..], old(a[..]), low, high)
  {
    var k := low;
    var p := high;
    while k + 1 < end
      invariant low <= k < end && p == high - (k - low)
      invariant SortedRange(a[..], low, k + 1) && HasSentinel(a[..], low, high)
      invariant multiset(a[..]) == multiset(old(a[..]))
      invariant SameOutside(a[..], old(a[..]), low, high)
    {
      k := k + 1;
      p := p - 1;
      PinStaysAbove(low, high, k);
      ghost var before := a[..];
      PinStep(a, low, k, p, high);
      SameOutsideTrans(a[..], before, old(a[..]), low, high, low, high);
    }
  }

  /**
   * mixedInsertionSort: sorts a[low..high) when the element before the range
   * is not larger than any element in it; the result is a permutation of the
   * old contents and nothing outside the range changes.
   */
  method MixedInsertionSort(a: array<int>, low: int, high: int)
    requires 0 < low <= high <= a.Length
    requires HasSentinel(a[..], low, high)
    modifies a
    ensures SortedRange(a[..], low, high)
    ensures multiset(a[..]) == multiset(old(a[..]))
    ensures SameOutside(a[..], old(a[..]), low, high)
  {
    var end := SplitEnd(low, high);
    if end == high {
      SimplePhase(a, low, high);
      return;
    }
    PinPhase(a, low, end, high);
    ghost var mid := a[..];
    PairPhase(a, low, end, high);
    SameOutsideTrans(a[..], mid, old(a[..]), low, high, low, high);
  }
}
