/**
 * The mixed insertion sort of the b01 sorter, used on every small part of the
 * array but the leftmost one: simple insertion sort below 32 elements, and
 * otherwise pin insertion on a[low..end) followed by pair insertion on
 * a[end..high), with end = high - 24 * ((high - low) / 32). Here the pin is the
 * single value a[end] read before the pin phase: each element larger than it
 * is exchanged with the next element from the top that is not larger.
 */
module B01Insertion {
  import opened SortSpec
  import opened InsertionSteps

  /** The index where the pin phase ends and the pair phase starts. */
  function SplitEnd(low: int, high: int): (end: int)
    requires low <= high
    ensures low <= end <= high && (high - end) % 2 == 0
    ensures end == high <==> high - low < 32
    ensures high - low >= 32 ==> end - low >= 8
  {
    high - 3 * ((high - low) / 32 * 8)
  }

  /**
   * `while (a[--p] > pin);`: the largest index below p0 whose element is not
   * larger than the pin; the sentinel a[low - 1] stops the scan.
   */
  method PinScan(a: array<int>, low: int, p0: int, pin: int) returns (p: int)
    requires 0 < low <= p0 <= a.Length
    requires a[low - 1] <= pin
    ensures low - 1 <= p < p0 && a[p] <= pin
    ensures AllGreater(a[..], p + 1, p0, pin)
  {
    p := p0 - 1;
    while a[p] > pin
      invariant low - 1 <= p < p0
      invariant AllGreater(a[..], p + 1, p0, pin)
      decreases p
    {
      p := p - 1;
    }
  }

  /**
   * A small element, a[k] < a[k - 1]: `a[i] = a[--i];` moves a[k - 1] up, then
   * the element is inserted from the hole at k - 1.
   */
  method SmallStep(a: array<int>, low: int, k: int, high: int)
    requires 0 < low < k < high <= a.Length
    requires SortedRange(a[..], low, k) && HasSentinel(a[..], low, high)
    requires a[k] < a[k - 1]
    modifies a
    ensures SortedRange(a[..], low, k + 1) && HasSentinel(a[..], low, high)
    ensures multiset(a[..]) == multiset(old(a[..]))
    ensures SameOutside(a[..], old(a[..]), low, high)
  {
    var ai := a[k];
    SmallShift(a[..], low, k, high);
    a[k] := a[k - 1];
    ghost var t := a[..];
    InsertDown(a, low, k - 1, k + 1, ai);
    Reinserted(t[k - 1 := ai], a[..], old(a[..]), low, high, k);
  }

  /** The state after the first move of a small element's insertion. */
  lemma SmallShift(s: seq<int>, low: int, k: int, high: int)
    requires 0 < low < k < high <= |s|
    requires SortedRange(s, low, k) && HasSentinel(s, low, high) && s[k] < s[k - 1]
    ensures SortedAround(s[k := s[k - 1]], low, k - 1, 1, k + 1)
    ensures AllAtLeast(s[k := s[k - 1]], k, k + 1, s[k])
    ensures multiset(s[k := s[k - 1]][k - 1 := s[k]]) == multiset(s)
    ensures SameOutside(s[k := s[k - 1]][k - 1 := s[k]], s, low, high)
    ensures HasSentinel(s[k := s[k - 1]][k - 1 := s[k]], low, high)
  {
    var t := s[k := s[k - 1]];
    forall x, y | low <= x < y < k + 1 && x != k - 1 && y != k - 1 ensures t[x] <= t[y] {
      if y == k && x < k - 1 {
        assert s[x] <= s[k - 1];
      }
    }
    SwapPerm(s, k - 1, k);
    assert t[k - 1 := s[k]] == s[k - 1 := s[k]][k := s[k - 1]];
    SentinelAfter(s, t[k - 1 := s[k]], low, high, low, high);
  }

  /**
   * A large element, a[k] > pin with the scan position p above k: the next
   * element from the top that is not larger than the pin is found; if it is
   * above k it is exchanged with a[k]; then the element in hand is inserted.
   */
  method LargeStep(a: array<int>, low: int, k: int, high: int, pin: int, p0: int) returns (p: int)
    requires 0 < low < k < p0 <= high <= a.Length
    requires SortedRange(a[..], low, k) && HasSentinel(a[..], low, high)
    requires a[low - 1] <= pin < a[k]
    modifies a
    ensures low - 1 <= p < p0
    ensures SortedRange(a[..], low, k + 1) && HasSentinel(a[..], low, high)
    ensures multiset(a[..]) == multiset(old(a[..]))
    ensures SameOutside(a[..], old(a[..]), low, high)
  {
    p := PinScan(a, low, p0, pin);
    var ai := LargeExchange(a, low, k, p, high);
    ghost var t := a[..];
    SortedAroundEnd(t, low, k);
    InsertDown(a, low, k, k + 1, ai);
    Reinserted(t[k := ai], a[..], old(a[..]), low, high, k + 1);
  }

  /**
   * `if (p > i) { ai = a[p]; a[p] = a[i]; }`: returns the element to insert;
   * with it in the hole at k the range is a permutation of the old one.
   */
  method LargeExchange(a: array<int>, low: int, k: int, p: int, high: int) returns (ai: int)
    requires 0 < low < k < high <= a.Length && low - 1 <= p < high
    requires SortedRange(a[..], low, k) && HasSentinel(a[..], low, high)
    requires p > k ==> a[p] < a[k]
    modifies a
    ensures SortedRange(a[..], low, k) && a[low - 1] <= ai
    ensures multiset(a[..][k := ai]) == multiset(old(a[..]))
    ensures HasSentinel(a[..][k := ai], low, high)
    ensures SameOutside(a[..][k := ai], old(a[..]), low, high)
  {
    ai := a[k];
    if p > k {
      ai := a[p];
      PinExchange(a[..], low, k, p, high);
      a[p] := a[k];
    } else {
      assert a[..][k := ai] == a[..];
    }
  }

  /** The pin insertion part: sorts a[low..end), moving elements larger than the pin towards the top. */
  method PinPhase(a: array<int>, low: int, end: int, high: int)
    requires 0 < low && high - low >= 32 && end == SplitEnd(low, high) && high <= a.Length
    requires HasSentinel(a[..], low, high)
    modifies a
    ensures SortedRange(a[..], low, end) && HasSentinel(a[..], low, high)
    ensures multiset(a[..]) == multiset(old(a[..]))
    ensures SameOutside(a[..], old(a[..]), low, high)
  {
    var pin := a[end];
    var k := low;
    var p := high;
    while k + 1 < end
      invariant low <= k < end && low - 1 <= p <= high
      invariant a[low - 1] <= pin
      invariant SortedRange(a[..], low, k + 1) && HasSentinel(a[..], low, high)
      invariant multiset(a[..]) == multiset(old(a[..]))
      invariant SameOutside(a[..], old(a[..]), low, high)
    {
      k := k + 1;
      ghost var before := a[..];
      var ai := a[k];
      if ai < a[k - 1] {
        SmallStep(a, low, k, high);
      } else if p > k && ai > pin {
        p := LargeStep(a, low, k, high, pin, p);
      } else {
        SortedExtend(a[..], low, k);
      }
      SameOutsideTrans(a[..], before, old(a[..]), low, high, low, high);
      assert a[..][..low] == old(a[..])[..low];
    }
  }

  /**
   * mixedInsertionSort: sorts a[low..high) when the element before the range
   * is not larger than any element in it; the result is a permutation of the
   * old contents and nothing outside the range changes.
   */
  method MixedInsertionSort(a: array<int>, low: int, high: int)
    requires 0 < low <= high <= a.Length
    requires HasSentinel(a[..], low, high)
    modifies a
    ensures SortedRange(a[..], low, high)
    ensures multiset(a[..]) == multiset(old(a[..]))
    ensures SameOutside(a[..], old(a[..]), low, high)
  {
    var end := SplitEnd(low, high);
    if end == high {
      SimplePhase(a, low, high);
    } else {
      PinPhase(a, low, end, high);
      ghost var mid := a[..];
      PairPhase(a, low, end, high);
      SameOutsideTrans(a[..], mid, old(a[..]), low, high, low, high);
    }
  }
}
