/**
 * The run merging of the b01 sorter: mergeRuns merges the runs of a range
 * between the array a and the buffer b and returns the array that holds the
 * result, chosen by `aim`; the sequential part of mergeParts merges a part of
 * a1 and a part of a2 into dst, where dst may be a2 itself when the second
 * part already stands right behind the place of the first.
 */
module B01Merging {
  import opened SortSpec
  import opened Merging
  import R32Merging

  /**
   * The state of the sequential mergeParts: x, the first part a1[lo10..hi1)
   * (a1 is never written), and y, the second part, of which a2[lo2..hi2) is
   * what is left, still intact; `out`, their merge so far, stands at
   * dst[k0..k). `alias` says whether dst is a2, and then the rest of the
   * first part fits exactly in front of the rest of the second.
   */
  ghost predicate InMerge(d: seq<int>, s1: seq<int>, s2: seq<int>, alias: bool, k0: int, k: int,
                          x: seq<int>, y: seq<int>, lo10: int, lo1: int, hi1: int, lo20: int, lo2: int, hi2: int,
                          out: seq<int>)
  {
    0 <= lo10 <= lo1 <= hi1 <= |s1| && 0 <= lo20 <= lo2 <= hi2 <= |s2| &&
    |x| == hi1 - lo10 && |y| == hi2 - lo20 && Sorted(x) && Sorted(y) &&
    (forall p :: lo1 <= p < hi1 ==> s1[p] == x[p - lo10]) &&
    (forall p :: lo2 <= p < hi2 ==> s2[p] == y[p - lo20]) &&
    MergeInv(out, x, y, lo1 - lo10, lo2 - lo20) && Written(d, k0, out) &&
    k == k0 + |out| && k + (hi1 - lo1) + (hi2 - lo2) <= |d| &&
    (alias ==> d == s2 && k + (hi1 - lo1) == lo2)
  }

  /** Writing below what is left of the second part leaves it intact. */
  lemma TailAfterWrite(s2: seq<int>, k: int, v: int, t2: seq<int>, y: seq<int>, lo20: int, lo2: int, hi2: int)
    requires 0 <= k < lo2 <= hi2 <= |s2| && 0 <= lo20 <= lo2 && hi2 - lo20 <= |y| && t2 == s2[k := v]
    requires forall p :: lo2 <= p < hi2 ==> s2[p] == y[p - lo20]
    ensures forall p :: lo2 <= p < hi2 ==> t2[p] == y[p - lo20]
  {
  }

  /** TakeLeft with the counts of taken elements written as InMerge writes them. */
  lemma TakeFirstAt(out: seq<int>, x: seq<int>, y: seq<int>, lo10: int, lo1: int, lo20: int, lo2: int, v: int)
    requires Sorted(x) && MergeInv(out, x, y, lo1 - lo10, lo2 - lo20) && lo1 - lo10 < |x| && x[lo1 - lo10] == v
    requires lo2 - lo20 < |y| ==> v <= y[lo2 - lo20]
    ensures MergeInv(out + [v], x, y, lo1 + 1 - lo10, lo2 - lo20)
  {
    TakeLeft(out, x, y, lo1 - lo10, lo2 - lo20);
  }

  /** TakeRight with the counts of taken elements written as InMerge writes them. */
  lemma TakeSecondAt(out: seq<int>, x: seq<int>, y: seq<int>, lo10: int, lo1: int, lo20: int, lo2: int, v: int)
    requires Sorted(y) && MergeInv(out, x, y, lo1 - lo10, lo2 - lo20) && lo2 - lo20 < |y| && y[lo2 - lo20] == v
    requires lo1 - lo10 < |x| ==> v <= x[lo1 - lo10]
    ensures MergeInv(out + [v], x, y, lo1 - lo10, lo2 + 1 - lo20)
  {
    TakeRight(out, x, y, lo1 - lo10, lo2 - lo20);
  }

  /**
   * Writing v, the head of the first part, at k, when it is not larger than
   * the head of the second, advances the merge; d2 is d after the write and
   * t2 the second source array after it.
   */
  lemma StepFirst(d: seq<int>, s1: seq<int>, s2: seq<int>, alias: bool, k0: int, k: int,
                  x: seq<int>, y: seq<int>, lo10: int, lo1: int, hi1: int, lo20: int, lo2: int, hi2: int,
                  out: seq<int>, v: int, d2: seq<int>, t2: seq<int>)
    requires InMerge(d, s1, s2, alias, k0, k, x, y, lo10, lo1, hi1, lo20, lo2, hi2, out) && lo1 < hi1
    requires v == s1[lo1] && (lo2 < hi2 ==> v <= s2[lo2])
    requires d2 == d[k := v] && t2 == (if alias then d2 else s2)
    ensures InMerge(d2, s1, t2, alias, k0, k + 1, x, y, lo10, lo1 + 1, hi1, lo20, lo2, hi2, out + [v])
  {
    assert x[lo1 - lo10] == v;
    assert lo2 < hi2 ==> y[lo2 - lo20] == s2[lo2];
    TakeFirstAt(out, x, y, lo10, lo1, lo20, lo2, v);
    WrittenStep(d, k0, k, out, v);
    if alias {
      TailAfterWrite(s2, k, v, t2, y, lo20, lo2, hi2);
    }
  }

  /**
   * Writing v, the head of the second part, at k, when it is not larger than
   * the head of the first, advances the merge; when dst is a2 the first part
   * is not used up, so the place written is below what is left of the second.
   */
  lemma StepSecond(d: seq<int>, s1: seq<int>, s2: seq<int>, alias: bool, k0: int, k: int,
                   x: seq<int>, y: seq<int>, lo10: int, lo1: int, hi1: int, lo20: int, lo2: int, hi2: int,
                   out: seq<int>, v: int, d2: seq<int>, t2: seq<int>)
    requires InMerge(d, s1, s2, alias, k0, k, x, y, lo10, lo1, hi1, lo20, lo2, hi2, out) && lo2 < hi2
    requires v == s2[lo2] && (lo1 < hi1 ==> v <= s1[lo1])
    requires alias ==> lo1 < hi1
    requires d2 == d[k := v] && t2 == (if alias then d2 else s2)
    ensures InMerge(d2, s1, t2, alias, k0, k + 1, x, y, lo10, lo1, hi1, lo20, lo2 + 1, hi2, out + [v])
  {
    assert y[lo2 - lo20] == v;
    assert lo1 < hi1 ==> x[lo1 - lo10] == s1[lo1];
    TakeSecondAt(out, x, y, lo10, lo1, lo20, lo2, v);
    WrittenStep(d, k0, k, out, v);
    if alias {
      TailAfterWrite(s2, k, v, t2, y, lo20, lo2 + 1, hi2);
    }
  }

  /** The step of either lemma: `first` says which head is written. */
  lemma StepEither(d: seq<int>, s1: seq<int>, s2: seq<int>, alias: bool, k0: int, k: int,
                   x: seq<int>, y: seq<int>, lo10: int, lo1: int, hi1: int, lo20: int, lo2: int, hi2: int,
                   out: seq<int>, first: bool, v: int, l1: int, l2: int, d2: seq<int>, t2: seq<int>)
    requires InMerge(d, s1, s2, alias, k0, k, x, y, lo10, lo1, hi1, lo20, lo2, hi2, out)
    requires first ==> lo1 < hi1 && v == s1[lo1] && (lo2 < hi2 ==> v <= s2[lo2]) && l1 == lo1 + 1 && l2 == lo2
    requires !first ==> lo2 < hi2 && v == s2[lo2] && (lo1 < hi1 ==> v <= s1[lo1]) && (alias ==> lo1 < hi1) &&
                        l1 == lo1 && l2 == lo2 + 1
    requires d2 == d[k := v] && t2 == (if alias then d2 else s2)
    ensures InMerge(d2, s1, t2, alias, k0, k + 1, x, y, lo10, l1, hi1, lo20, l2, hi2, out + [v])
  {
    if first {
      StepFirst(d, s1, s2, alias, k0, k, x, y, lo10, lo1, hi1, lo20, lo2, hi2, out, v, d2, t2);
    } else {
      StepSecond(d, s1, s2, alias, k0, k, x, y, lo10, lo1, hi1, lo20, lo2, hi2, out, v, d2, t2);
    }
  }

  /**
   * `dst[k++] = a1[lo1++]` when `first`, `dst[k++] = a2[lo2++]` otherwise:
   * the head written must not be larger than the other head, and when dst is
   * a2 the second head is written only while the first part lasts.
   */
  method Put(ghost alias: bool, dst: array<int>, k: int, a1: array<int>, lo1: int, hi1: int, a2: array<int>, lo2: int,
             hi2: int, ghost k0: int, ghost x: seq<int>, ghost y: seq<int>, ghost lo10: int, ghost lo20: int,
             ghost out: seq<int>, first: bool)
      returns (l1: int, l2: int, ghost v: int)
    requires alias == (dst == a2)
    requires dst != a1
    requires InMerge(dst[..], a1[..], a2[..], alias, k0, k, x, y, lo10, lo1, hi1, lo20, lo2, hi2, out)
    requires first ==> lo1 < hi1 && (lo2 < hi2 ==> a1[lo1] <= a2[lo2])
    requires !first ==> lo2 < hi2 && (lo1 < hi1 ==> a2[lo2] <= a1[lo1]) && (alias ==> lo1 < hi1)
    modifies dst
    ensures l1 == (if first then lo1 + 1 else lo1) && l2 == (if first then lo2 else lo2 + 1)
    ensures InMerge(dst[..], a1[..], a2[..], alias, k0, k + 1, x, y, lo10, l1, hi1, lo20, l2, hi2, out + [v])
    ensures forall p :: 0 <= p < dst.Length && p != k ==> dst[p] == old(dst[p])
  {
    ghost var d, s2 := dst[..], a2[..];
    var w := if first then a1[lo1] else a2[lo2];
    v := w;
    l1, l2 := if first then lo1 + 1 else lo1, if first then lo2 else lo2 + 1;
    dst[k] := w;
    assert dst[..] == d[k := w];
    assert a2[..] == if alias then dst[..] else s2;
    StepEither(d, a1[..], s2, alias, k0, k, x, y, lo10, lo1, hi1, lo20, lo2, hi2, out, first, w, l1, l2, dst[..], a2[..]);
  }

  /** One step of the merge loop: the smaller head is written, the head of the second part on a tie. */
  method MergeStep(ghost alias: bool, dst: array<int>, k: int, a1: array<int>, lo1: int, hi1: int, a2: array<int>,
                   lo2: int, hi2: int, ghost k0: int, ghost x: seq<int>, ghost y: seq<int>, ghost lo10: int,
                   ghost lo20: int, ghost out: seq<int>)
      returns (l1: int, l2: int, ghost out2: seq<int>)
    requires alias == (dst == a2)
    requires dst != a1 && lo1 < hi1 && lo2 < hi2
    requires InMerge(dst[..], a1[..], a2[..], alias, k0, k, x, y, lo10, lo1, hi1, lo20, lo2, hi2, out)
    modifies dst
    ensures InMerge(dst[..], a1[..], a2[..], alias, k0, k + 1, x, y, lo10, l1, hi1, lo20, l2, hi2, out2)
    ensures l1 + l2 == lo1 + lo2 + 1 && lo1 <= l1 && lo2 <= l2
    ensures forall p :: 0 <= p < dst.Length && p != k ==> dst[p] == old(dst[p])
  {
    ghost var v;
    l1, l2, v := Put(alias, dst, k, a1, lo1, hi1, a2, lo2, hi2, k0, x, y, lo10, lo20, out, a1[lo1] < a2[lo2]);
    out2 := out + [v];
  }

  /**
   * The merge loop of mergeParts, entered only when the parts overlap in value
   * (`a1[hi1 - 1] > a2[lo2]`), runs until one part is used up.
   */
  method MergeLoop(ghost alias: bool, dst: array<int>, k0: int, a1: array<int>, lo1: int, hi1: int, a2: array<int>, lo2: int, hi2: int,
                   ghost x: seq<int>, ghost y: seq<int>)
      returns (k: int, l1: int, l2: int, ghost out: seq<int>)
    requires alias == (dst == a2)
    requires dst != a1 && (lo2 < hi2 ==> 0 < hi1)
    requires InMerge(dst[..], a1[..], a2[..], alias, k0, k0, x, y, lo1, lo1, hi1, lo2, lo2, hi2, [])
    modifies dst
    ensures InMerge(dst[..], a1[..], a2[..], alias, k0, k, x, y, lo1, l1, hi1, lo2, l2, hi2, out)
    ensures l1 == hi1 || l2 == hi2 || a1[hi1 - 1] <= a2[l2]
    ensures forall p :: 0 <= p < dst.Length && !(k0 <= p < k) ==> dst[p] == old(dst[p])
  {
    k, l1, l2, out := k0, lo1, lo2, [];
    if lo2 < hi2 && a1[hi1 - 1] > a2[lo2] {
      while l1 < hi1 && l2 < hi2
        invariant InMerge(dst[..], a1[..], a2[..], alias, k0, k, x, y, lo1, l1, hi1, lo2, l2, hi2, out)
        invariant forall p :: 0 <= p < dst.Length && !(k0 <= p < k) ==> dst[p] == old(dst[p])
        decreases (hi1 - l1) + (hi2 - l2)
      {
        l1, l2, out := MergeStep(alias, dst, k, a1, l1, hi1, a2, l2, hi2, k0, x, y, lo1, lo2, out);
        k := k + 1;
      }
    }
  }

  /** The elements of a slice, by their index in the whole sequence. */
  lemma SliceAt(s: seq<int>, x: seq<int>, lo: int, hi: int)
    requires 0 <= lo <= hi <= |s| && x == s[lo..hi]
    ensures forall p :: lo <= p < hi ==> s[p] == x[p - lo]
  {
  }

  /** The head of what is left of the first part is not larger than its last element. */
  lemma FirstBelowLast(s1: seq<int>, x: seq<int>, lo10: int, lo1: int, hi1: int)
    requires 0 <= lo10 <= lo1 < hi1 <= |s1| && |x| == hi1 - lo10 && Sorted(x)
    requires forall p :: lo1 <= p < hi1 ==> s1[p] == x[p - lo10]
    ensures s1[lo1] <= x[hi1 - 1 - lo10]
  {
    assert s1[lo1] == x[lo1 - lo10];
  }

  /** One step of copying the rest of the first part. */
  method CopyStep(ghost alias: bool, dst: array<int>, k: int, a1: array<int>, lo1: int, hi1: int, a2: array<int>, lo2: int, hi2: int,
                  ghost k0: int, ghost x: seq<int>, ghost y: seq<int>, ghost lo10: int, ghost lo20: int,
                  ghost out: seq<int>)
      returns (ghost out2: seq<int>)
    requires alias == (dst == a2)
    requires dst != a1 && lo1 < hi1
    requires InMerge(dst[..], a1[..], a2[..], alias, k0, k, x, y, lo10, lo1, hi1, lo20, lo2, hi2, out)
    requires lo2 == hi2 || x[hi1 - 1 - lo10] <= y[lo2 - lo20]
    modifies dst
    ensures InMerge(dst[..], a1[..], a2[..], alias, k0, k + 1, x, y, lo10, lo1 + 1, hi1, lo20, lo2, hi2, out2)
    ensures forall p :: 0 <= p < dst.Length && p != k ==> dst[p] == old(dst[p])
  {
    FirstBelowLast(a1[..], x, lo10, lo1, hi1);
    ghost var v;
    var l1, l2;
    l1, l2, v := Put(alias, dst, k, a1, lo1, hi1, a2, lo2, hi2, k0, x, y, lo10, lo20, out, true);
    out2 := out + [v];
  }

  /**
   * `if (dst != a1 || k < lo1) while (lo1 < hi1) dst[k++] = a1[lo1++];`: the
   * rest of the first part, all below the rest of the second, is copied.
   */
  method CopyFirst(ghost alias: bool, dst: array<int>, k0: int, k: int, a1: array<int>, lo1: int, hi1: int, a2: array<int>, lo2: int,
                   hi2: int, ghost x: seq<int>, ghost y: seq<int>, ghost lo10: int, ghost lo20: int, ghost out: seq<int>)
      returns (k2: int, ghost out2: seq<int>)
    requires alias == (dst == a2)
    requires dst != a1
    requires InMerge(dst[..], a1[..], a2[..], alias, k0, k, x, y, lo10, lo1, hi1, lo20, lo2, hi2, out)
    requires lo1 == hi1 || lo2 == hi2 || x[hi1 - 1 - lo10] <= y[lo2 - lo20]
    modifies dst
    ensures InMerge(dst[..], a1[..], a2[..], alias, k0, k2, x, y, lo10, hi1, hi1, lo20, lo2, hi2, out2)
    ensures forall p :: 0 <= p < dst.Length && !(k <= p < k2) ==> dst[p] == old(dst[p])
  {
    k2, out2 := k, out;
    var l1 := lo1;
    if dst != a1 || k2 < l1 {
      while l1 < hi1
        invariant InMerge(dst[..], a1[..], a2[..], alias, k0, k2, x, y, lo10, l1, hi1, lo20, lo2, hi2, out2)
        invariant l1 == hi1 || lo2 == hi2 || x[hi1 - 1 - lo10] <= y[lo2 - lo20]
        invariant forall p :: 0 <= p < dst.Length && !(k <= p < k2) ==> dst[p] == old(dst[p])
      {
        out2 := CopyStep(alias, dst, k2, a1, l1, hi1, a2, lo2, hi2, k0, x, y, lo10, lo20, out2);
        k2, l1 := k2 + 1, l1 + 1;
      }
    }
  }

  /**
   * `if (dst != a2 || k < lo2) while (lo2 < hi2) dst[k++] = a2[lo2++];`: the
   * rest of the second part is copied, unless dst is a2, where it already
   * stands at k.
   */
  method CopySecond(ghost alias: bool, dst: array<int>, k0: int, k: int, a1: array<int>, hi1: int, a2: array<int>, lo2: int, hi2: int,
                    ghost x: seq<int>, ghost y: seq<int>, ghost lo10: int, ghost lo20: int, ghost out: seq<int>)
      returns (k2: int, l2: int, ghost out2: seq<int>)
    requires alias == (dst == a2)
    requires dst != a1
    requires InMerge(dst[..], a1[..], a2[..], alias, k0, k, x, y, lo10, hi1, hi1, lo20, lo2, hi2, out)
    modifies dst
    ensures InMerge(dst[..], a1[..], a2[..], alias, k0, k2, x, y, lo10, hi1, hi1, lo20, l2, hi2, out2)
    ensures l2 == hi2 || alias
    ensures forall p :: 0 <= p < dst.Length && !(k <= p < k2) ==> dst[p] == old(dst[p])
  {
    k2, l2, out2 := k, lo2, out;
    if dst != a2 || k2 < l2 {
      while l2 < hi2
        invariant InMerge(dst[..], a1[..], a2[..], alias, k0, k2, x, y, lo10, hi1, hi1, lo20, l2, hi2, out2)
        invariant forall p :: 0 <= p < dst.Length && !(k <= p < k2) ==> dst[p] == old(dst[p])
      {
        var l1;
        ghost var v;
        l1, l2, v := Put(alias, dst, k2, a1, hi1, hi1, a2, l2, hi2, k0, x, y, lo10, lo20, out2, false);
        k2, out2 := k2 + 1, out2 + [v];
      }
    }
  }

  /** The merge so far at d[k0..k), followed by the rest of y still in place at d[k..hi2), is written at d[k0..hi2). */
  lemma TailInPlace(d: seq<int>, k0: int, k: int, out: seq<int>, y: seq<int>, lo20: int, hi2: int)
    requires Written(d, k0, out) && k == k0 + |out| && 0 <= lo20 <= k <= hi2 && hi2 == lo20 + |y| <= |d|
    requires forall p :: k <= p < hi2 ==> d[p] == y[p - lo20]
    ensures Written(d, k0, out + y[k - lo20..])
  {
    var w := out + y[k - lo20..];
    forall p | k0 <= p < k0 + |w| ensures d[p] == w[p - k0] {
      if p >= k {
        assert w[p - k0] == y[k - lo20..][p - k];
      }
    }
  }

  /**
   * At the end of mergeParts the first part is used up, and the second one
   * is used up too or, when dst is a2, stands in place behind the output.
   */
  lemma EndWritten(d: seq<int>, s1: seq<int>, s2: seq<int>, alias: bool, k0: int, k: int,
                   x: seq<int>, y: seq<int>, lo10: int, hi1: int, lo20: int, lo2: int, hi2: int, out: seq<int>)
    requires InMerge(d, s1, s2, alias, k0, k, x, y, lo10, hi1, hi1, lo20, lo2, hi2, out)
    requires lo2 == hi2 || alias
    ensures Written(d, k0, out + y[lo2 - lo20..])
  {
    if alias {
      TailInPlace(d, k0, k, out, y, lo20, hi2);
    } else {
      assert out + y[lo2 - lo20..] == out;
    }
  }

  /** The merge so far, followed by the rest of y once x is used up, is sorted and a permutation of the two parts. */
  lemma MergedWhole(out: seq<int>, x: seq<int>, y: seq<int>, j: int, w: seq<int>)
    requires Sorted(x) && Sorted(y) && MergeInv(out, x, y, |x|, j) && w == out + y[j..]
    ensures |w| == |x| + |y| && Sorted(w) && multiset(w) == multiset(x) + multiset(y)
  {
    MergeDone(out, x, y, |x|, j);
    assert x[|x|..] + y[j..] == y[j..];
  }

  /**
   * The last copy of mergeParts, once the first part is used up. Returns the
   * merge that then stands at dst[k0..).
   */
  method CopySecondRest(ghost alias: bool, dst: array<int>, k0: int, k: int, a1: array<int>, hi1: int, a2: array<int>, lo2: int,
                        hi2: int, ghost x: seq<int>, ghost y: seq<int>, ghost lo10: int, ghost lo20: int,
                        ghost out: seq<int>)
      returns (ghost w: seq<int>)
    requires alias == (dst == a2)
    requires dst != a1
    requires InMerge(dst[..], a1[..], a2[..], alias, k0, k, x, y, lo10, hi1, hi1, lo20, lo2, hi2, out)
    modifies dst
    ensures |w| == |x| + |y| && Sorted(w) && multiset(w) == multiset(x) + multiset(y)
    ensures Written(dst[..], k0, w)
    ensures forall p :: 0 <= p < dst.Length && !(k <= p < k0 + |w|) ==> dst[p] == old(dst[p])
  {
    var k3, l3, out3 := CopySecond(alias, dst, k0, k, a1, hi1, a2, lo2, hi2, x, y, lo10, lo20, out);
    w := out3 + y[l3 - lo20..];
    EndWritten(dst[..], a1[..], a2[..], alias, k0, k3, x, y, lo10, hi1, lo20, l3, hi2, out3);
    MergedWhole(out3, x, y, l3 - lo20, w);
  }

  /**
   * The copies at the end of mergeParts, once the merge loop has stopped:
   * the rest of the first part, then the rest of the second unless it
   * already stands in place. Returns the merge that then stands at dst[k0..).
   */
  method CopyRests(ghost alias: bool, dst: array<int>, k0: int, k: int, a1: array<int>, lo1: int, hi1: int, a2: array<int>, lo2: int,
                   hi2: int, ghost x: seq<int>, ghost y: seq<int>, ghost lo10: int, ghost lo20: int,
                   ghost out: seq<int>)
      returns (ghost w: seq<int>)
    requires alias == (dst == a2)
    requires dst != a1
    requires InMerge(dst[..], a1[..], a2[..], alias, k0, k, x, y, lo10, lo1, hi1, lo20, lo2, hi2, out)
    requires lo1 == hi1 || lo2 == hi2 || x[hi1 - 1 - lo10] <= y[lo2 - lo20]
    modifies dst
    ensures |w| == |x| + |y| && Sorted(w) && multiset(w) == multiset(x) + multiset(y)
    ensures Written(dst[..], k0, w)
    ensures forall p :: 0 <= p < dst.Length && !(k <= p < k0 + |w|) ==> dst[p] == old(dst[p])
  {
    var k2, out2 := CopyFirst(alias, dst, k0, k, a1, lo1, hi1, a2, lo2, hi2, x, y, lo10, lo20, out);
    w := CopySecondRest(alias, dst, k0, k2, a1, hi1, a2, lo2, hi2, x, y, lo10, lo20, out2);
  }

  /**
   * The body of the sequential mergeParts: the merge loop, then the copies of
   * the rest of the first part and of the second. Returns the merge that now
   * stands at dst[k..).
   */
  method MergeSequential(dst: array<int>, k: int, a1: array<int>, lo1: int, hi1: int, a2: array<int>, lo2: int,
                         hi2: int, ghost x: seq<int>, ghost y: seq<int>)
      returns (ghost w: seq<int>)
    requires dst != a1 && (dst == a2 ==> lo2 == k + (hi1 - lo1))
    requires 0 <= lo1 <= hi1 <= a1.Length && 0 <= lo2 <= hi2 <= a2.Length && (lo2 < hi2 ==> 0 < hi1)
    requires 0 <= k && k + (hi1 - lo1) + (hi2 - lo2) <= dst.Length
    requires x == a1[lo1..hi1] && y == a2[lo2..hi2] && Sorted(x) && Sorted(y)
    modifies dst
    ensures |w| == |x| + |y| && Sorted(w) && multiset(w) == multiset(x) + multiset(y)
    ensures Written(dst[..], k, w)
    ensures forall p :: 0 <= p < dst.Length && !(k <= p < k + |w|) ==> dst[p] == old(dst[p])
  {
    MergeStart(x, y);
    SliceAt(a1[..], x, lo1, hi1);
    SliceAt(a2[..], y, lo2, hi2);
    ghost var alias := dst == a2;
    var k1, l1, l2, out1 := MergeLoop(alias, dst, k, a1, lo1, hi1, a2, lo2, hi2, x, y);
    w := CopyRests(alias, dst, k, k1, a1, l1, hi1, a2, l2, hi2, x, y, lo1, lo2, out1);
  }

  /**
   * mergeParts without the parallel part: merges the sorted a1[lo1..hi1) and
   * a2[lo2..hi2) into dst[k..e). dst is not a1; it may be a2 when the second
   * part starts right behind dst[k..k + (hi1 - lo1)). Nothing else of dst
   * changes.
   */
  method MergeParts(dst: array<int>, k: int, a1: array<int>, lo1: int, hi1: int, a2: array<int>, lo2: int, hi2: int,
                    ghost e: int, ghost x: seq<int>, ghost y: seq<int>, ghost d0: seq<int>)
    requires dst != a1 && (dst == a2 ==> lo2 == k + (hi1 - lo1))
    requires 0 <= lo1 <= hi1 <= a1.Length && 0 <= lo2 <= hi2 <= a2.Length && (lo2 < hi2 ==> 0 < hi1)
    requires 0 <= k && e == k + (hi1 - lo1) + (hi2 - lo2) <= dst.Length
    requires x == a1[lo1..hi1] && y == a2[lo2..hi2] && Sorted(x) && Sorted(y) && d0 == dst[..]
    modifies dst
    ensures Sorted(dst[k..e]) && multiset(dst[k..e]) == multiset(x) + multiset(y)
    ensures SameOutside(dst[..], d0, k, e)
  {
    ghost var w := MergeSequential(dst, k, a1, lo1, hi1, a2, lo2, hi2, x, y);
    assert dst[k..e] == w by {
      WrittenSlice(dst[..], k, w);
    }
    SameOutsideAt(dst[..], d0, k, e);
  }

  /**
   * Where mergeRuns leaves the merge of a0[l..h): sorted in place in sa when
   * inA, sorted in sb[l - offset..h - offset) otherwise, a permutation of
   * a0[l..h) either way.
   */
  ghost predicate Holds(inA: bool, sa: seq<int>, sb: seq<int>, offset: int, l: int, h: int, a0: seq<int>) {
    0 <= offset <= l <= h <= |sa| && h <= |a0| && h - offset <= |sb| &&
    (inA ==> Sorted(sa[l..h]) && multiset(sa[l..h]) == multiset(a0[l..h])) &&
    (!inA ==> Sorted(sb[l - offset..h - offset]) && multiset(sb[l - offset..h - offset]) == multiset(a0[l..h]))
  }

  /**
   * The outcome of mergeRuns on [l..h) of a0 (and [l - offset..h - offset)
   * of b0): the merge is where Holds says, and nothing else in a or b changed.
   */
  ghost predicate Merged(inA: bool, sa: seq<int>, sb: seq<int>, a0: seq<int>, b0: seq<int>, offset: int, l: int, h: int) {
    Holds(inA, sa, sb, offset, l, h, a0) && SameOutside(sa, a0, l, h) && SameOutside(sb, b0, l - offset, h - offset)
  }

  /** The first half stays where its merge left it while the second half is merged. */
  lemma FirstHalf(inA: bool, s1: seq<int>, a0: seq<int>, a1s: seq<int>, a2s: seq<int>, b1s: seq<int>, b2s: seq<int>,
                  offset: int, l: int, m: int, h: int, lo1: int, hi1: int)
    requires Holds(inA, a1s, b1s, offset, l, m, a0) && m <= h
    requires SameOutside(a2s, a1s, m, h) && SameOutside(b2s, b1s, m - offset, h - offset)
    requires s1 == (if inA then a2s else b2s)
    requires lo1 == (if inA then l else l - offset) && hi1 == (if inA then m else m - offset)
    ensures 0 <= lo1 <= hi1 <= |s1| && Sorted(s1[lo1..hi1]) && multiset(s1[lo1..hi1]) == multiset(a0[l..m])
  {
    if inA {
      SliceOutside(a2s, a1s, m, h, l, m);
    } else {
      SliceOutside(b2s, b1s, m - offset, h - offset, l - offset, m - offset);
    }
  }

  /** The second half, as its merge left it. */
  lemma SecondHalf(inA: bool, s2: seq<int>, a1s: seq<int>, a2s: seq<int>, b2s: seq<int>,
                   offset: int, m: int, h: int, lo2: int, hi2: int)
    requires Holds(inA, a2s, b2s, offset, m, h, a1s)
    requires s2 == (if inA then a2s else b2s)
    requires lo2 == (if inA then m else m - offset) && hi2 == (if inA then h else h - offset)
    ensures 0 <= lo2 <= hi2 <= |s2| && Sorted(s2[lo2..hi2]) && multiset(s2[lo2..hi2]) == multiset(a1s[m..h])
  {
  }

  /**
   * After both halves of a range were merged, each into a or into b:
   * merging them into [l..h) of a3 (or of b3) yields a permutation of
   * a0[l..h), and a and b changed only within the range.
   */
  lemma HalvesJoined(a0: seq<int>, a1: seq<int>, a2: seq<int>, a3: seq<int>,
                     b0: seq<int>, b1: seq<int>, b2: seq<int>, b3: seq<int>,
                     offset: int, l: int, m: int, h: int, x: seq<int>, y: seq<int>, r: seq<int>)
    requires 0 <= offset <= l <= m <= h <= |a0|
    requires SameOutside(a1, a0, l, m) && SameOutside(a2, a1, m, h) && SameOutside(a3, a2, l, h)
    requires SameOutside(b1, b0, l - offset, m - offset) && SameOutside(b2, b1, m - offset, h - offset)
    requires SameOutside(b3, b2, l - offset, h - offset)
    requires multiset(x) == multiset(a0[l..m]) && multiset(y) == multiset(a1[m..h])
    requires multiset(r) == multiset(x) + multiset(y)
    ensures multiset(r) == multiset(a0[l..h])
    ensures SameOutside(a3, a0, l, h) && SameOutside(b3, b0, l - offset, h - offset)
  {
    SliceOutside(a1, a0, l, m, m, h);
    R32Merging.HalvesPerm(a0, l, m, h, x, y, r);
    FramesJoin(a0, a1, a2, a3, l, m, h);
    FramesJoin(b0, b1, b2, b3, l - offset, m - offset, h - offset);
  }

  /**
   * The end of the merge of the two halves into d (a when inA, b otherwise):
   * the range is where Holds says it is, and a and b changed only there.
   */
  lemma Joined(inA: bool, d: seq<int>, d2: seq<int>, a3: seq<int>, b3: seq<int>,
               a0: seq<int>, a1s: seq<int>, a2s: seq<int>, b0: seq<int>, b1s: seq<int>, b2s: seq<int>,
               offset: int, l: int, m: int, h: int, k: int, e: int, x: seq<int>, y: seq<int>)
    requires 0 <= offset <= l <= m <= h <= |a0| && |a0| == |a2s| && h - offset <= |b2s|
    requires d2 == (if inA then a2s else b2s) && d == (if inA then a3 else b3)
    requires inA ==> b3 == b2s
    requires !inA ==> a3 == a2s
    requires k == (if inA then l else l - offset) && e == k + (h - l)
    requires 0 <= k <= e <= |d| && Sorted(d[k..e]) && multiset(d[k..e]) == multiset(x) + multiset(y)
    requires SameOutside(d, d2, k, e)
    requires SameOutside(a1s, a0, l, m) && SameOutside(a2s, a1s, m, h)
    requires SameOutside(b1s, b0, l - offset, m - offset) && SameOutside(b2s, b1s, m - offset, h - offset)
    requires multiset(x) == multiset(a0[l..m]) && multiset(y) == multiset(a1s[m..h])
    ensures Merged(inA, a3, b3, a0, b0, offset, l, h)
  {
    if inA {
      JoinedInA(a3, a0, a1s, a2s, b0, b1s, b2s, offset, l, m, h, x, y);
    } else {
      JoinedInB(b3, a0, a1s, a2s, b0, b1s, b2s, offset, l, m, h, x, y);
    }
  }

  /** Joined when the halves were merged into a. */
  lemma JoinedInA(a3: seq<int>, a0: seq<int>, a1s: seq<int>, a2s: seq<int>, b0: seq<int>, b1s: seq<int>, b2s: seq<int>,
                  offset: int, l: int, m: int, h: int, x: seq<int>, y: seq<int>)
    requires 0 <= offset <= l <= m <= h <= |a0| && |a0| == |a2s| && h - offset <= |b2s|
    requires h <= |a3| && Sorted(a3[l..h]) && multiset(a3[l..h]) == multiset(x) + multiset(y)
    requires SameOutside(a3, a2s, l, h)
    requires SameOutside(a1s, a0, l, m) && SameOutside(a2s, a1s, m, h)
    requires SameOutside(b1s, b0, l - offset, m - offset) && SameOutside(b2s, b1s, m - offset, h - offset)
    requires multiset(x) == multiset(a0[l..m]) && multiset(y) == multiset(a1s[m..h])
    ensures Holds(true, a3, b2s, offset, l, h, a0)
    ensures SameOutside(a3, a0, l, h) && SameOutside(b2s, b0, l - offset, h - offset)
  {
    HalvesJoined(a0, a1s, a2s, a3, b0, b1s, b2s, b2s, offset, l, m, h, x, y, a3[l..h]);
  }

  /** Joined when the halves were merged into b. */
  lemma JoinedInB(b3: seq<int>, a0: seq<int>, a1s: seq<int>, a2s: seq<int>, b0: seq<int>, b1s: seq<int>, b2s: seq<int>,
                  offset: int, l: int, m: int, h: int, x: seq<int>, y: seq<int>)
    requires 0 <= offset <= l <= m <= h <= |a0| && |a0| == |a2s| && h - offset <= |b2s|
    requires h - offset <= |b3| && Sorted(b3[l - offset..h - offset])
    requires multiset(b3[l - offset..h - offset]) == multiset(x) + multiset(y)
    requires SameOutside(b3, b2s, l - offset, h - offset)
    requires SameOutside(a1s, a0, l, m) && SameOutside(a2s, a1s, m, h)
    requires SameOutside(b1s, b0, l - offset, m - offset) && SameOutside(b2s, b1s, m - offset, h - offset)
    requires multiset(x) == multiset(a0[l..m]) && multiset(y) == multiset(a1s[m..h])
    ensures Holds(false, a2s, b3, offset, l, h, a0)
    ensures SameOutside(a2s, a0, l, h) && SameOutside(b3, b0, l - offset, h - offset)
  {
    HalvesJoined(a0, a1s, a2s, a2s, b0, b1s, b2s, b3, offset, l, m, h, x, y, b3[l - offset..h - offset]);
  }

  /**
   * The merge of the two halves in mergeRuns: a1 holds the first half
   * [l..m) of the range (at [l - offset..m - offset) when it is b), a2 the
   * second; they are merged into the other array than a1, which may be a2.
   * a0, a1s and a2s are a before, between and after the merges of the halves,
   * b0, b1s and b2s the same for b.
   */
  method MergeHalves(a: array<int>, b: array<int>, offset: int, l: int, m: int, h: int,
                     a1: array<int>, a2: array<int>,
                     ghost a0: seq<int>, ghost a1s: seq<int>, ghost a2s: seq<int>,
                     ghost b0: seq<int>, ghost b1s: seq<int>, ghost b2s: seq<int>)
      returns (dst: array<int>)
    requires a != b && (a1 == a || a1 == b) && (a2 == a || a2 == b)
    requires l < m && h <= a.Length && |a0| == a.Length && |b0| == b.Length
    requires a[..] == a2s && b[..] == b2s
    requires Merged(a1 == a, a1s, b1s, a0, b0, offset, l, m) && Merged(a2 == a, a2s, b2s, a1s, b1s, offset, m, h)
    modifies a, b
    ensures dst == (if a1 == a then b else a)
    ensures Merged(dst == a, a[..], b[..], a0, b0, offset, l, h)
  {
    dst := if a1 == a then b else a;
    var k := if a1 == a then l - offset else l;
    var lo1 := if a1 == b then l - offset else l;
    var hi1 := if a1 == b then m - offset else m;
    var lo2 := if a2 == b then m - offset else m;
    var hi2 := if a2 == b then h - offset else h;
    FirstHalf(a1 == a, a1[..], a0, a1s, a2s, b1s, b2s, offset, l, m, h, lo1, hi1);
    SecondHalf(a2 == a, a2[..], a1s, a2s, b2s, offset, m, h, lo2, hi2);
    ghost var x, y := a1[lo1..hi1], a2[lo2..hi2];
    ghost var e := k + (hi1 - lo1) + (hi2 - lo2);
    ghost var d2 := dst[..];
    MergeParts(dst, k, a1, lo1, hi1, a2, lo2, hi2, e, x, y, d2);
    Joined(dst == a, dst[..], d2, a[..], b[..], a0, a1s, a2s, b0, b1s, b2s, offset, l, m, h, k, e, x, y);
  }

  /**
   * The case of mergeRuns with a single run, which is sorted already: it
   * stays in a unless b is asked for, in which case it is copied there.
   */
  method SingleRun(a: array<int>, b: array<int>, offset: int, aim: int, run: seq<int>, lo: int, hi: int)
      returns (r: array<int>)
    requires a != b && RunsOk(run, lo, hi) && hi - lo == 1
    requires 0 <= offset <= run[lo] && run[hi] <= a.Length && run[hi] - offset <= b.Length
    requires RunsSorted(a[..], run, lo, hi)
    modifies b
    ensures r == (if aim >= 0 then a else b)
    ensures Merged(r == a, a[..], b[..], old(a[..]), old(b[..]), offset, run[lo], run[hi])
  {
    if aim >= 0 {
      OneRun(a[..], run, lo, hi);
      return a;
    }
    R32Merging.CopyRun(a, b, offset, run, lo, hi);
    assert old(a[run[lo]..run[hi]]) == old(a[..])[run[lo]..run[hi]];
    return b;
  }

  /**
   * mergeRuns without the parallel part: merges the sorted runs run[lo..hi]
   * of a[run[lo]..run[hi]) and returns the array that holds the result (see
   * Holds): a positive `aim` asks for a, a negative one for b, and zero for
   * either. Only the two ranges change.
   */
  method MergeRuns(a: array<int>, b: array<int>, offset: int, aim: int, run: seq<int>, lo: int, hi: int)
      returns (r: array<int>)
    requires a != b && RunsOk(run, lo, hi)
    requires 0 <= offset <= run[lo] && run[hi] <= a.Length && run[hi] - offset <= b.Length
    requires RunsSorted(a[..], run, lo, hi)
    modifies a, b
    ensures r == a || r == b
    ensures aim > 0 ==> r == a
    ensures aim < 0 ==> r == b
    ensures Merged(r == a, a[..], b[..], old(a[..]), old(b[..]), offset, run[lo], run[hi])
    decreases hi - lo
  {
    if hi - lo == 1 {
      r := SingleRun(a, b, offset, aim, run, lo, hi);
      return;
    }
    ghost var a0, b0 := a[..], b[..];
    var mi := FindMiddle(run, lo, hi);
    RunsSortedPart(a0, a0, run, lo, hi, lo, mi, 0, 0);
    var a1 := MergeRuns(a, b, offset, -aim, run, lo, mi);
    ghost var a1s, b1s := a[..], b[..];
    RunsSortedPart(a0, a1s, run, lo, hi, mi, hi, run[lo], run[mi]);
    var a2 := MergeRuns(a, b, offset, 0, run, mi, hi);
    r := MergeHalves(a, b, offset, run[lo], run[mi], run[hi], a1, a2, a0, a1s, a[..], b0, b1s, b[..]);
  }
}
