/**
 * The heap sort fallback of the dual-pivot quicksort, used when the recursion
 * gets too deep. A binary max-heap is laid out on a[low..high) with the root
 * at `low`; the children of node p are 2p - low + 1 and 2p - low + 2.
 * The same code is shared by both sorter versions of the model.
 */
module HeapSort {
  import opened SortSpec

  function LeftChild(low: int, p: int): int { 2 * p - low + 1 }

  /** Node i of the heap on s[low..high) is at least each of its children inside the range. */
  ghost predicate HeapAt(s: seq<int>, low: int, high: int, i: int)
    requires 0 <= low <= i && high <= |s|
  {
    (LeftChild(low, i) < high ==> s[LeftChild(low, i)] <= s[i]) &&
    (LeftChild(low, i) + 1 < high ==> s[LeftChild(low, i) + 1] <= s[i])
  }

  /** Every node of s[from..high) satisfies the heap order (nodes before `from` are unconstrained). */
  ghost predicate IsHeap(s: seq<int>, low: int, high: int, from: int)
    requires 0 <= low <= from && high <= |s|
  {
    forall i :: from <= i < high ==> HeapAt(s, low, high, i)
  }

  /** The root of a heap is its largest element. */
  lemma {:induction false} HeapRootMax(s: seq<int>, low: int, high: int, i: int)
    requires 0 <= low <= i < high <= |s|
    requires IsHeap(s, low, high, low)
    ensures s[i] <= s[low]
    decreases i
  {
    if i > low {
      var q := low + (i - low - 1) / 2;
      assert i == LeftChild(low, q) || i == LeftChild(low, q) + 1;
      assert HeapAt(s, low, high, q);
      HeapRootMax(s, low, high, q);
    }
  }

  /**
   * The state of pushDown with the hole at p: every other node of s[p0..high)
   * is in heap order and, below p0, the parent of the hole is larger than both
   * the sifted value and the children of the hole.
   */
  ghost predicate SiftState(s: seq<int>, low: int, high: int, p0: int, p: int, parent: int, value: int)
    requires 0 <= low <= p0 <= parent <= p < high <= |s|
  {
    (p != p0 ==> parent < p && (p == LeftChild(low, parent) || p == LeftChild(low, parent) + 1)) &&
    (forall i :: p0 <= i < high && i != p ==> HeapAt(s, low, high, i)) &&
    (p != p0 ==> value < s[parent]) &&
    (p != p0 && LeftChild(low, p) < high ==> s[LeftChild(low, p)] <= s[parent]) &&
    (p != p0 && LeftChild(low, p) + 1 < high ==> s[LeftChild(low, p) + 1] <= s[parent])
  }

  /** Moving the larger child k up into the hole keeps the sift state, with the hole now at k. */
  lemma SiftStep(s: seq<int>, low: int, high: int, p0: int, p: int, parent: int, value: int, k: int)
    requires 0 <= low <= p0 <= parent <= p < high <= |s|
    requires SiftState(s, low, high, p0, p, parent, value)
    requires k == LeftChild(low, p) || k == LeftChild(low, p) + 1
    requires k < high && value < s[k]
    requires LeftChild(low, p) + 1 < high ==> s[LeftChild(low, p)] <= s[k] && s[LeftChild(low, p) + 1] <= s[k]
    ensures SiftState(s[p := s[k]], low, high, p0, k, p, value)
  {
    var t := s[p := s[k]];
    assert HeapAt(s, low, high, k);
    forall i | p0 <= i < high && i != k ensures HeapAt(t, low, high, i) {
      if i != p {
        assert HeapAt(s, low, high, i);
      }
    }
  }

  /** Dropping the value into the hole once no child is larger completes the heap. */
  lemma SiftDone(s: seq<int>, low: int, high: int, p0: int, p: int, parent: int, value: int)
    requires 0 <= low <= p0 <= parent <= p < high <= |s|
    requires SiftState(s, low, high, p0, p, parent, value)
    requires LeftChild(low, p) < high ==> s[LeftChild(low, p)] <= value
    requires LeftChild(low, p) + 1 < high ==> s[LeftChild(low, p) + 1] <= value
    ensures IsHeap(s[p := value], low, high, p0)
  {
    var t := s[p := value];
    forall i | p0 <= i < high ensures HeapAt(t, low, high, i) {
      if i != p {
        assert HeapAt(s, low, high, i);
      }
    }
  }

  /**
   * pushDown: sifts `value` down from the hole at p0. On entry every node below
   * p0 is in heap order; on exit the heap order holds from p0 on, the range now
   * holds the old contents with a[p0] replaced by `value`, and nothing outside
   * [p0, high) is touched.
   */
  method PushDown(a: array<int>, p0: int, value: int, low: int, high: int)
    requires 0 <= low <= p0 < high <= a.Length
    requires IsHeap(a[..], low, high, p0 + 1)
    modifies a
    ensures IsHeap(a[..], low, high, p0)
    ensures multiset(a[..]) == multiset(old(a[..])[p0 := value])
    ensures SameOutside(a[..], old(a[..]), p0, high)
  {
    var p := p0;
    ghost var parent := p0;
    ghost var s := a[..];
    while true
      invariant p0 <= parent <= p < high
      invariant s == a[..]
      invariant SiftState(s, low, high, p0, p, parent, value)
      invariant multiset(s[p := value]) == multiset(old(a[..])[p0 := value])
      invariant SameOutside(s, old(a[..]), p0, high)
      decreases high - p
    {
      var k := 2 * p - low + 2; // the right child
      if k > high {
        break;
      }
      if k == high || a[k] < a[k - 1] {
        k := k - 1;
      }
      if a[k] <= value {
        break;
      }
      SiftStep(s, low, high, p0, p, parent, value, k);
      HoleMove(s, p, k, value);
      UpdateInside(s, old(a[..]), p0, high, p, s[k]);
      a[p] := a[k];
      s := s[p := s[k]];
      parent := p;
      p := k;
    }
    SiftDone(s, low, high, p0, p, parent, value);
    UpdateInside(s, old(a[..]), p0, high, p, value);
    a[p] := value;
  }

  /** The heap order on a range does not depend on the elements after it. */
  lemma HeapFrame(s: seq<int>, t: seq<int>, low: int, h: int, from: int)
    requires 0 <= low <= from && h <= |s| && h <= |t|
    requires IsHeap(s, low, h, from) && forall j :: 0 <= j < h ==> s[j] == t[j]
    ensures IsHeap(t, low, h, from)
  {
    forall i | from <= i < h ensures HeapAt(t, low, h, i) {
      assert HeapAt(s, low, h, i);
    }
  }

  /** A heap stays a heap when its last element is dropped. */
  lemma HeapShrink(s: seq<int>, low: int, h: int, from: int)
    requires 0 <= low <= from && h < |s|
    requires IsHeap(s, low, h + 1, from)
    ensures IsHeap(s, low, h, from)
  {
    forall i | from <= i < h ensures HeapAt(s, low, h, i) {
      assert HeapAt(s, low, h + 1, i);
    }
  }

  /**
   * heapSort: builds a heap on a[low..high) and then repeatedly moves its
   * maximum to the end of the shrinking heap; a[low..high) ends sorted and
   * permuted, the rest of the array unchanged.
   */
  method HeapSort(a: array<int>, low: int, high: int)
    requires 0 <= low <= high <= a.Length
    modifies a
    ensures SortedRange(a[..], low, high)
    ensures multiset(a[..]) == multiset(old(a[..]))
    ensures SameOutside(a[..], old(a[..]), low, high)
  {
    BuildHeap(a, low, high);
    var h := high;
    while h > low + 1
      invariant low <= h <= high
      invariant h > low ==> IsHeap(a[..], low, h, low)
      invariant SortedRange(a[..], h, high)
      invariant Below(a[..], low, h, high)
      invariant multiset(a[..]) == multiset(old(a[..]))
      invariant SameOutside(a[..], old(a[..]), low, high)
    {
      h := h - 1;
      ghost var before := a[..];
      ExtractMax(a, low, h, high);
      SameOutsideTrans(a[..], before, old(a[..]), low, high, low, h + 1);
    }
  }

  /** The first phase of heapSort: pushes down every inner node, last first. */
  method BuildHeap(a: array<int>, low: int, high: int)
    requires 0 <= low <= high <= a.Length
    modifies a
    ensures low < high ==> IsHeap(a[..], low, high, low)
    ensures multiset(a[..]) == multiset(old(a[..]))
    ensures SameOutside(a[..], old(a[..]), low, high)
  {
    var k := (low + high) / 2;
    while k > low
      invariant low <= k <= (low + high) / 2
      invariant IsHeap(a[..], low, high, k)
      invariant multiset(a[..]) == multiset(old(a[..]))
      invariant SameOutside(a[..], old(a[..]), low, high)
    {
      k := k - 1;
      ghost var before := a[..];
      PushDown(a, k, a[k], low, high);
      assert before[k := before[k]] == before;
      SameOutsideTrans(a[..], before, old(a[..]), low, high, k, high);
    }
  }

  /**
   * One step of the extraction phase: with a heap on a[low..h+1), the maximum moves
   * to a[h] and the heap shrinks to a[low..h).
   */
  method ExtractMax(a: array<int>, low: int, h: int, high: int)
    requires 0 <= low < h < high <= a.Length
    requires IsHeap(a[..], low, h + 1, low)
    requires SortedRange(a[..], h + 1, high) && Below(a[..], low, h + 1, high)
    modifies a
    ensures IsHeap(a[..], low, h, low)
    ensures SortedRange(a[..], h, high) && Below(a[..], low, h, high)
    ensures multiset(a[..]) == multiset(old(a[..]))
    ensures SameOutside(a[..], old(a[..]), low, h + 1)
  {
    ghost var A := a[..];
    forall i | low <= i < h + 1 ensures A[i] <= A[low] {
      HeapRootMax(A, low, h + 1, i);
    }
    var max := a[low];
    HeapShrink(A, low, h, low + 1);
    PushDown(a, low, a[h], low, h);
    ghost var B := a[..];
    a[h] := max;
    HeapFrame(B, a[..], low, h, low);
    ExtractPerm(A, B, low, h);
    // the elements now in the heap came from the old heap, so none exceeds max
    PermRange(B, A[low := A[h]], low, h);
    forall i | low <= i < h ensures B[i] <= max {
      var j := PermMember(A[low := A[h]], B, low, h, i);
    }
  }

  /** Moving the root to position h and a[h] into the heap is a permutation. */
  lemma ExtractPerm(A: seq<int>, B: seq<int>, low: int, h: int)
    requires 0 <= low < h < |A| == |B|
    requires multiset(B) == multiset(A[low := A[h]]) && B[h] == A[h]
    ensures multiset(B[h := A[low]]) == multiset(A)
  {
    calc {
      multiset(B[h := A[low]]);
      multiset(B) - multiset{A[h]} + multiset{A[low]};
      multiset(A[low := A[h]]) - multiset{A[h]} + multiset{A[low]};
      multiset(A);
    }
  }
}
