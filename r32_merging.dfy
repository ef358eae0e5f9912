/**
 * The run-merging sort of the r32 sorter: tryMergingSort finds the ascending
 * runs, mergeRuns merges them pairwise between the array and a buffer, and
 * the sequential part of mergeParts merges two sorted parts of one array into
 * another array.
 */
module R32Merging {
  import opened SortSpec
  import opened Merging

  /**
   * The state of a merge loop of mergeParts: x = src[lo10..hi1) and
   * y = src[lo20..hi2) are the sorted parts, src[lo1..hi1) and src[lo2..hi2)
   * what is left of them, and `out`, written at dst[k0..k), their merge so far.
   */
  ghost predicate InMerge(d: seq<int>, s: seq<int>, k0: int, k: int, x: seq<int>, y: seq<int>,
                          lo10: int, lo1: int, hi1: int, lo20: int, lo2: int, hi2: int, out: seq<int>)
  {
    0 <= lo10 <= lo1 <= hi1 <= |s| && 0 <= lo20 <= lo2 <= hi2 <= |s| &&
    x == s[lo10..hi1] && y == s[lo20..hi2] && Sorted(x) && Sorted(y) &&
    MergeInv(out, x, y, lo1 - lo10, lo2 - lo20) && Written(d, k0, out) &&
    k == k0 + |out| && k + (hi1 - lo1) + (hi2 - lo2) <= |d|
  }

  /** Writing the head of the left part at k, when it is not larger than the head of the right one, advances the merge. */
  lemma WriteLeft(d: seq<int>, s: seq<int>, k0: int, k: int, x: seq<int>, y: seq<int>,
                  lo10: int, lo1: int, hi1: int, lo20: int, lo2: int, hi2: int, out: seq<int>)
    requires InMerge(d, s, k0, k, x, y, lo10, lo1, hi1, lo20, lo2, hi2, out) && lo1 < hi1
    requires lo2 < hi2 ==> s[lo1] <= s[lo2]
    ensures InMerge(d[k := s[lo1]], s, k0, k + 1, x, y, lo10, lo1 + 1, hi1, lo20, lo2, hi2, out + [s[lo1]])
    ensures lo1 + 1 < hi1 ==> s[lo1] <= s[lo1 + 1]
  {
    assert x[lo1 - lo10] == s[lo1];
    assert lo1 + 1 < hi1 ==> x[lo1 + 1 - lo10] == s[lo1 + 1];
    assert lo2 < hi2 ==> y[lo2 - lo20] == s[lo2];
    TakeLeft(out, x, y, lo1 - lo10, lo2 - lo20);
    assert lo1 - lo10 + 1 == lo1 + 1 - lo10;
    WrittenStep(d, k0, k, out, s[lo1]);
  }

  /** Writing the head of the right part at k, when it is not larger than the head of the left one, advances the merge. */
  lemma WriteRight(d: seq<int>, s: seq<int>, k0: int, k: int, x: seq<int>, y: seq<int>,
                   lo10: int, lo1: int, hi1: int, lo20: int, lo2: int, hi2: int, out: seq<int>)
    requires InMerge(d, s, k0, k, x, y, lo10, lo1, hi1, lo20, lo2, hi2, out) && lo2 < hi2
    requires lo1 < hi1 ==> s[lo2] <= s[lo1]
    ensures InMerge(d[k := s[lo2]], s, k0, k + 1, x, y, lo10, lo1, hi1, lo20, lo2 + 1, hi2, out + [s[lo2]])
  {
    assert y[lo2 - lo20] == s[lo2];
    assert lo1 < hi1 ==> x[lo1 - lo10] == s[lo1];
    TakeRight(out, x, y, lo1 - lo10, lo2 - lo20);
    assert lo2 - lo20 + 1 == lo2 + 1 - lo20;
    WrittenStep(d, k0, k, out, s[lo2]);
  }

  /** `dst[k++] = src[lo1++]` inside the merge loops. */
  method PutLeft(dst: array<int>, src: array<int>, k: int, lo1: int, hi1: int, lo2: int, hi2: int,
                 ghost k0: int, ghost x: seq<int>, ghost y: seq<int>, ghost lo10: int, ghost lo20: int,
                 ghost out: seq<int>)
    requires dst != src
    requires InMerge(dst[..], src[..], k0, k, x, y, lo10, lo1, hi1, lo20, lo2, hi2, out)
    requires lo1 < hi1 && (lo2 < hi2 ==> src[lo1] <= src[lo2])
    modifies dst
    ensures InMerge(dst[..], src[..], k0, k + 1, x, y, lo10, lo1 + 1, hi1, lo20, lo2, hi2, out + [src[lo1]])
    ensures lo1 + 1 < hi1 ==> src[lo1] <= src[lo1 + 1]
    ensures forall p :: 0 <= p < dst.Length && p != k ==> dst[p] == old(dst[p])
  {
    ghost var d := dst[..];
    WriteLeft(d, src[..], k0, k, x, y, lo10, lo1, hi1, lo20, lo2, hi2, out);
    dst[k] := src[lo1];
    assert dst[..] == d[k := src[lo1]];
  }

  /** `dst[k++] = src[lo2++]` inside the merge loops. */
  method PutRight(dst: array<int>, src: array<int>, k: int, lo1: int, hi1: int, lo2: int, hi2: int,
                  ghost k0: int, ghost x: seq<int>, ghost y: seq<int>, ghost lo10: int, ghost lo20: int,
                  ghost out: seq<int>)
    requires dst != src
    requires InMerge(dst[..], src[..], k0, k, x, y, lo10, lo1, hi1, lo20, lo2, hi2, out)
    requires lo2 < hi2 && (lo1 < hi1 ==> src[lo2] <= src[lo1])
    modifies dst
    ensures InMerge(dst[..], src[..], k0, k + 1, x, y, lo10, lo1, hi1, lo20, lo2 + 1, hi2, out + [src[lo2]])
    ensures forall p :: 0 <= p < dst.Length && p != k ==> dst[p] == old(dst[p])
  {
    ghost var d := dst[..];
    WriteRight(d, src[..], k0, k, x, y, lo10, lo1, hi1, lo20, lo2, hi2, out);
    dst[k] := src[lo2];
    assert dst[..] == d[k := src[lo2]];
  }

  /** The first half of a merge round: `if (slo1 <= src[lo2]) dst[k++] = src[lo1++];`. */
  method LeftHalf(dst: array<int>, src: array<int>, k: int, lo1: int, hi1: int, lo2: int, hi2: int,
                  ghost k0: int, ghost x: seq<int>, ghost y: seq<int>, ghost lo10: int, ghost lo20: int,
                  ghost out: seq<int>)
      returns (k2: int, l1: int, ghost out2: seq<int>)
    requires dst != src
    requires InMerge(dst[..], src[..], k0, k, x, y, lo10, lo1, hi1, lo20, lo2, hi2, out)
    requires lo1 < hi1 && lo2 < hi2
    modifies dst
    ensures InMerge(dst[..], src[..], k0, k2, x, y, lo10, l1, hi1, lo20, lo2, hi2, out2)
    ensures if src[lo1] <= src[lo2] then l1 == lo1 + 1 && k2 == k + 1 else l1 == lo1 && k2 == k
    ensures l1 < hi1 ==> src[lo1] <= src[l1]
    ensures forall p :: 0 <= p < dst.Length && !(k <= p < k2) ==> dst[p] == old(dst[p])
  {
    k2, l1, out2 := k, lo1, out;
    if src[lo1] <= src[lo2] {
      PutLeft(dst, src, k, lo1, hi1, lo2, hi2, k0, x, y, lo10, lo20, out);
      k2, l1, out2 := k + 1, lo1 + 1, out + [src[lo1]];
    }
  }

  /** The second half of a merge round: `if (slo1 >= src[lo2]) dst[k++] = src[lo2++];`. */
  method RightHalf(dst: array<int>, src: array<int>, k: int, lo1: int, hi1: int, lo2: int, hi2: int,
                   slo1: int, ghost k0: int, ghost x: seq<int>, ghost y: seq<int>, ghost lo10: int, ghost lo20: int,
                   ghost out: seq<int>)
      returns (k2: int, l2: int, ghost out2: seq<int>)
    requires dst != src
    requires InMerge(dst[..], src[..], k0, k, x, y, lo10, lo1, hi1, lo20, lo2, hi2, out)
    requires lo2 < hi2 && (lo1 < hi1 ==> slo1 <= src[lo1])
    modifies dst
    ensures InMerge(dst[..], src[..], k0, k2, x, y, lo10, lo1, hi1, lo20, l2, hi2, out2)
    ensures if slo1 >= src[lo2] then l2 == lo2 + 1 && k2 == k + 1 else l2 == lo2 && k2 == k
    ensures forall p :: 0 <= p < dst.Length && !(k <= p < k2) ==> dst[p] == old(dst[p])
  {
    k2, l2, out2 := k, lo2, out;
    if slo1 >= src[lo2] {
      PutRight(dst, src, k, lo1, hi1, lo2, hi2, k0, x, y, lo10, lo20, out);
      k2, l2, out2 := k + 1, lo2 + 1, out + [src[lo2]];
    }
  }

  /**
   * One round of the merge loops of mergeParts: the head of the left part is
   * taken when not larger than the head of the right one, then the head of
   * the right part when not larger than the old head of the left one, so
   * that equal heads are both taken.
   */
  method MergeStep(dst: array<int>, src: array<int>, k: int, lo1: int, hi1: int, lo2: int, hi2: int,
                   ghost k0: int, ghost x: seq<int>, ghost y: seq<int>, ghost lo10: int, ghost lo20: int,
                   ghost out: seq<int>)
      returns (k2: int, l1: int, l2: int, ghost out2: seq<int>)
    requires dst != src
    requires InMerge(dst[..], src[..], k0, k, x, y, lo10, lo1, hi1, lo20, lo2, hi2, out)
    requires lo1 < hi1 && lo2 < hi2
    modifies dst
    ensures InMerge(dst[..], src[..], k0, k2, x, y, lo10, l1, hi1, lo20, l2, hi2, out2)
    ensures lo1 <= l1 <= lo1 + 1 && lo2 <= l2 <= lo2 + 1 && k < k2
    ensures l1 > lo1 ==> src[lo1] <= src[lo2]
    ensures l2 > lo2 ==> src[lo2] <= src[lo1]
    ensures forall p :: 0 <= p < dst.Length && !(k <= p < k2) ==> dst[p] == old(dst[p])
  {
    var slo1 := src[lo1];
    var k1;
    ghost var out1;
    k1, l1, out1 := LeftHalf(dst, src, k, lo1, hi1, lo2, hi2, k0, x, y, lo10, lo20, out);
    k2, l2, out2 := RightHalf(dst, src, k1, l1, hi1, lo2, hi2, slo1, k0, x, y, lo10, lo20, out1);
  }

  /** The head of what is left of each part is not larger than the part's last element. */
  lemma HeadsBelowLast(d: seq<int>, s: seq<int>, k0: int, k: int, x: seq<int>, y: seq<int>,
                       lo10: int, lo1: int, hi1: int, lo20: int, lo2: int, hi2: int, out: seq<int>)
    requires InMerge(d, s, k0, k, x, y, lo10, lo1, hi1, lo20, lo2, hi2, out)
    ensures lo1 < hi1 ==> s[lo1] <= s[hi1 - 1]
    ensures lo2 < hi2 ==> s[lo2] <= s[hi2 - 1]
  {
    if lo1 < hi1 {
      assert s[lo1] == x[lo1 - lo10] && s[hi1 - 1] == x[|x| - 1];
    }
    if lo2 < hi2 {
      assert s[lo2] == y[lo2 - lo20] && s[hi2 - 1] == y[|y| - 1];
    }
  }

  /**
   * The loop of mergeParts for a left part ending below the right one:
   * `while (lo1 < hi1)`. The right part is never used up first.
   */
  method MergeWhileLeft(dst: array<int>, src: array<int>, k0: int, lo1: int, hi1: int, lo2: int, hi2: int,
                        ghost x: seq<int>, ghost y: seq<int>, ghost lo10: int, ghost lo20: int)
      returns (k: int, l1: int, l2: int, ghost out: seq<int>)
    requires dst != src
    requires InMerge(dst[..], src[..], k0, k0, x, y, lo10, lo1, hi1, lo20, lo2, hi2, [])
    requires lo2 < hi2 && 0 < hi1 && src[hi1 - 1] < src[hi2 - 1]
    modifies dst
    ensures InMerge(dst[..], src[..], k0, k, x, y, lo10, l1, hi1, lo20, l2, hi2, out)
    ensures l1 == hi1
    ensures forall p :: 0 <= p < dst.Length && !(k0 <= p < k) ==> dst[p] == old(dst[p])
  {
    k, l1, l2, out := k0, lo1, lo2, [];
    while l1 < hi1
      invariant InMerge(dst[..], src[..], k0, k, x, y, lo10, l1, hi1, lo20, l2, hi2, out)
      invariant l2 < hi2
      invariant forall p :: 0 <= p < dst.Length && !(k0 <= p < k) ==> dst[p] == old(dst[p])
      decreases (hi1 - l1) + (hi2 - l2)
    {
      HeadsBelowLast(dst[..], src[..], k0, k, x, y, lo10, l1, hi1, lo20, l2, hi2, out);
      k, l1, l2, out := MergeStep(dst, src, k, l1, hi1, l2, hi2, k0, x, y, lo10, lo20, out);
    }
  }

  /**
   * The loop of mergeParts for a right part ending below the left one:
   * `while (lo2 < hi2)`. The left part is never used up first.
   */
  method MergeWhileRight(dst: array<int>, src: array<int>, k0: int, lo1: int, hi1: int, lo2: int, hi2: int,
                         ghost x: seq<int>, ghost y: seq<int>, ghost lo10: int, ghost lo20: int)
      returns (k: int, l1: int, l2: int, ghost out: seq<int>)
    requires dst != src
    requires InMerge(dst[..], src[..], k0, k0, x, y, lo10, lo1, hi1, lo20, lo2, hi2, [])
    requires lo1 < hi1 && 0 < hi2 && src[hi1 - 1] > src[hi2 - 1]
    modifies dst
    ensures InMerge(dst[..], src[..], k0, k, x, y, lo10, l1, hi1, lo20, l2, hi2, out)
    ensures l2 == hi2
    ensures forall p :: 0 <= p < dst.Length && !(k0 <= p < k) ==> dst[p] == old(dst[p])
  {
    k, l1, l2, out := k0, lo1, lo2, [];
    while l2 < hi2
      invariant InMerge(dst[..], src[..], k0, k, x, y, lo10, l1, hi1, lo20, l2, hi2, out)
      invariant l1 < hi1
      invariant forall p :: 0 <= p < dst.Length && !(k0 <= p < k) ==> dst[p] == old(dst[p])
      decreases (hi1 - l1) + (hi2 - l2)
    {
      HeadsBelowLast(dst[..], src[..], k0, k, x, y, lo10, l1, hi1, lo20, l2, hi2, out);
      k, l1, l2, out := MergeStep(dst, src, k, l1, hi1, l2, hi2, k0, x, y, lo10, lo20, out);
    }
  }

  /** The loop of mergeParts for parts ending with equal elements: `while (lo1 < hi1 && lo2 < hi2)`. */
  method MergeWhileBoth(dst: array<int>, src: array<int>, k0: int, lo1: int, hi1: int, lo2: int, hi2: int,
                        ghost x: seq<int>, ghost y: seq<int>, ghost lo10: int, ghost lo20: int)
      returns (k: int, l1: int, l2: int, ghost out: seq<int>)
    requires dst != src
    requires InMerge(dst[..], src[..], k0, k0, x, y, lo10, lo1, hi1, lo20, lo2, hi2, [])
    modifies dst
    ensures InMerge(dst[..], src[..], k0, k, x, y, lo10, l1, hi1, lo20, l2, hi2, out)
    ensures l1 == hi1 || l2 == hi2
    ensures forall p :: 0 <= p < dst.Length && !(k0 <= p < k) ==> dst[p] == old(dst[p])
  {
    k, l1, l2, out := k0, lo1, lo2, [];
    while l1 < hi1 && l2 < hi2
      invariant InMerge(dst[..], src[..], k0, k, x, y, lo10, l1, hi1, lo20, l2, hi2, out)
      invariant forall p :: 0 <= p < dst.Length && !(k0 <= p < k) ==> dst[p] == old(dst[p])
      decreases (hi1 - l1) + (hi2 - l2)
    {
      k, l1, l2, out := MergeStep(dst, src, k, l1, hi1, l2, hi2, k0, x, y, lo10, lo20, out);
    }
  }

  /**
   * When the sequential merge stops, with one part used up or the rests in
   * order, the output followed by the rests is the merge of the parts.
   */
  lemma FinishMerge(d: seq<int>, s: seq<int>, k0: int, k: int, x: seq<int>, y: seq<int>,
                    lo10: int, lo1: int, hi1: int, lo20: int, lo2: int, hi2: int, out: seq<int>)
    requires InMerge(d, s, k0, k, x, y, lo10, lo1, hi1, lo20, lo2, hi2, out)
    requires lo1 == hi1 || lo2 == hi2 || s[hi1 - 1] <= s[lo2]
    ensures Sorted(out + (s[lo1..hi1] + s[lo2..hi2]))
    ensures multiset(out + (s[lo1..hi1] + s[lo2..hi2])) == multiset(x) + multiset(y)
  {
    assert x[lo1 - lo10..] == s[lo1..hi1] && y[lo2 - lo20..] == s[lo2..hi2];
    if lo1 < hi1 && lo2 < hi2 {
      assert x[|x| - 1] == s[hi1 - 1] && y[lo2 - lo20] == s[lo2];
    }
    MergeDone(out, x, y, lo1 - lo10, lo2 - lo20);
  }

  /**
   * The sequential merge of mergeParts: when the parts overlap in value
   * (`src[hi1 - 1] > src[lo2]`), one of the three loops, chosen by comparing
   * the last elements of the parts, merges until a part is used up.
   */
  method MergeLoops(dst: array<int>, src: array<int>, k0: int, lo1: int, hi1: int, lo2: int, hi2: int,
                    ghost x: seq<int>, ghost y: seq<int>)
      returns (k: int, l1: int, l2: int, ghost out: seq<int>)
    requires dst != src
    requires InMerge(dst[..], src[..], k0, k0, x, y, lo1, lo1, hi1, lo2, lo2, hi2, [])
    modifies dst
    ensures InMerge(dst[..], src[..], k0, k, x, y, lo1, l1, hi1, lo2, l2, hi2, out)
    ensures Sorted(out + (src[l1..hi1] + src[l2..hi2]))
    ensures multiset(out + (src[l1..hi1] + src[l2..hi2])) == multiset(x) + multiset(y)
    ensures forall p :: 0 <= p < dst.Length && !(k0 <= p < k) ==> dst[p] == old(dst[p])
  {
    if lo1 < hi1 && lo2 < hi2 && src[hi1 - 1] > src[lo2] {
      if src[hi1 - 1] < src[hi2 - 1] {
        k, l1, l2, out := MergeWhileLeft(dst, src, k0, lo1, hi1, lo2, hi2, x, y, lo1, lo2);
      } else if src[hi1 - 1] > src[hi2 - 1] {
        k, l1, l2, out := MergeWhileRight(dst, src, k0, lo1, hi1, lo2, hi2, x, y, lo1, lo2);
      } else {
        k, l1, l2, out := MergeWhileBoth(dst, src, k0, lo1, hi1, lo2, hi2, x, y, lo1, lo2);
      }
    } else {
      k, l1, l2, out := k0, lo1, lo2, [];
    }
    FinishMerge(dst[..], src[..], k0, k, x, y, lo1, l1, hi1, lo2, l2, hi2, out);
  }

  /**
   * The two `System.arraycopy` calls at the end of mergeParts: what is left of
   * the left part goes to dst[k..), what is left of the right part behind it.
   */
  method CopyTails(dst: array<int>, src: array<int>, k: int, lo1: int, hi1: int, lo2: int, hi2: int)
    requires dst != src
    requires 0 <= lo1 <= hi1 <= src.Length && 0 <= lo2 <= hi2 <= src.Length
    requires 0 <= k && k + (hi1 - lo1) + (hi2 - lo2) <= dst.Length
    modifies dst
    ensures forall p :: k <= p < k + (hi1 - lo1) ==> dst[p] == src[p - k + lo1]
    ensures forall p :: k + (hi1 - lo1) <= p < k + (hi1 - lo1) + (hi2 - lo2) ==> dst[p] == src[p - (k + (hi1 - lo1)) + lo2]
    ensures forall p :: 0 <= p < dst.Length && !(k <= p < k + (hi1 - lo1) + (hi2 - lo2)) ==> dst[p] == old(dst[p])
  {
    if lo1 < hi1 {
      ArrayCopy(src, lo1, dst, k, hi1 - lo1);
    }
    if lo2 < hi2 {
      ArrayCopy(src, lo2, dst, k + hi1 - lo1, hi2 - lo2);
    }
  }

  /** The output written, followed by the two tails copied behind it, is the whole merge. */
  lemma TailsWritten(d1: seq<int>, d: seq<int>, s: seq<int>, k0: int, k: int, lo1: int, hi1: int, lo2: int, hi2: int,
                     out: seq<int>)
    requires 0 <= lo1 <= hi1 <= |s| && 0 <= lo2 <= hi2 <= |s|
    requires Written(d1, k0, out) && k == k0 + |out| && k + (hi1 - lo1) + (hi2 - lo2) <= |d| == |d1|
    requires forall p :: 0 <= p < |d| && !(k <= p < k + (hi1 - lo1) + (hi2 - lo2)) ==> d[p] == d1[p]
    requires forall p :: k <= p < k + (hi1 - lo1) ==> d[p] == s[p - k + lo1]
    requires forall p :: k + (hi1 - lo1) <= p < k + (hi1 - lo1) + (hi2 - lo2) ==> d[p] == s[p - (k + (hi1 - lo1)) + lo2]
    ensures Written(d, k0, out + (s[lo1..hi1] + s[lo2..hi2]))
  {
    var w := out + (s[lo1..hi1] + s[lo2..hi2]);
    forall p | k0 <= p < k0 + |w| ensures d[p] == w[p - k0] {
      if p < k {
        assert d[p] == d1[p];
      }
    }
  }

  /**
   * The body of the sequential mergeParts: the merge loops and then the
   * copies of the tails. Returns the merge that now stands at dst[k..).
   */
  method MergeSequential(dst: array<int>, k: int, src: array<int>, lo1: int, hi1: int, lo2: int, hi2: int,
                         ghost x: seq<int>, ghost y: seq<int>)
      returns (ghost w: seq<int>)
    requires dst != src
    requires 0 <= lo1 <= hi1 <= src.Length && 0 <= lo2 <= hi2 <= src.Length
    requires 0 <= k && k + (hi1 - lo1) + (hi2 - lo2) <= dst.Length
    requires x == src[lo1..hi1] && y == src[lo2..hi2] && Sorted(x) && Sorted(y)
    modifies dst
    ensures |w| == (hi1 - lo1) + (hi2 - lo2)
    ensures Sorted(w) && multiset(w) == multiset(x) + multiset(y)
    ensures Written(dst[..], k, w)
    ensures forall p :: 0 <= p < dst.Length && !(k <= p < k + (hi1 - lo1) + (hi2 - lo2)) ==> dst[p] == old(dst[p])
  {
    MergeStart(x, y);
    var k2, l1, l2, out := MergeLoops(dst, src, k, lo1, hi1, lo2, hi2, x, y);
    w := out + (src[l1..hi1] + src[l2..hi2]);
    ghost var d1 := dst[..];
    CopyTails(dst, src, k2, l1, hi1, l2, hi2);
    TailsWritten(d1, dst[..], src[..], k, k2, l1, hi1, l2, hi2, out);
  }

  /**
   * mergeParts without the parallel part: merges the sorted src[lo1..hi1) and
   * src[lo2..hi2) into dst[k..), leaving the rest of dst alone.
   */
  method MergeParts(dst: array<int>, k: int, src: array<int>, lo1: int, hi1: int, lo2: int, hi2: int,
                    ghost e: int, ghost x: seq<int>, ghost y: seq<int>, ghost d0: seq<int>)
    requires dst != src
    requires 0 <= lo1 <= hi1 <= src.Length && 0 <= lo2 <= hi2 <= src.Length
    requires 0 <= k && e == k + (hi1 - lo1) + (hi2 - lo2) <= dst.Length
    requires x == src[lo1..hi1] && y == src[lo2..hi2] && Sorted(x) && Sorted(y) && d0 == dst[..]
    modifies dst
    ensures Sorted(dst[k..e])
    ensures multiset(dst[k..e]) == multiset(x) + multiset(y)
    ensures SameOutside(dst[..], d0, k, e)
  {
    ghost var w := MergeSequential(dst, k, src, lo1, hi1, lo2, hi2, x, y);
    ghost var d := dst[..];
    assert dst[k..e] == w by {
      WrittenSlice(d, k, w);
    }
    SameOutsideAt(dst[..], d0, k, e);
  }

  /**
   * The last merge of mergeRuns with `aim`: both halves were merged into
   * b[l - offset..m - offset) and b[m - offset..h - offset), and are merged
   * back into a[l..h). a0, a1 and a2 are a before, between and after the two
   * halves, b0, b1 and b2 the same for b.
   */
  method MergeBack(a: array<int>, b: array<int>, offset: int, l: int, m: int, h: int,
                   ghost a0: seq<int>, ghost a1: seq<int>, ghost a2: seq<int>,
                   ghost b0: seq<int>, ghost b1: seq<int>, ghost b2: seq<int>)
    requires a != b && 0 <= offset <= l <= m <= h <= a.Length && h - offset <= b.Length
    requires a[..] == a2 && b[..] == b2
    requires |a0| == |a1| == a.Length && |b0| == |b1| == b.Length
    requires Sorted(b1[l - offset..m - offset]) && multiset(b1[l - offset..m - offset]) == multiset(a0[l..m])
    requires SameOutside(a1, a0, l, m) && SameOutside(b1, b0, l - offset, m - offset)
    requires Sorted(b2[m - offset..h - offset]) && multiset(b2[m - offset..h - offset]) == multiset(a1[m..h])
    requires SameOutside(a2, a1, m, h) && SameOutside(b2, b1, m - offset, h - offset)
    modifies a
    ensures Sorted(a[l..h]) && multiset(a[l..h]) == multiset(a0[l..h])
    ensures SameOutside(a[..], a0, l, h)
    ensures SameOutside(b[..], b0, l - offset, h - offset)
  {
    SliceOutside(b2, b1, m - offset, h - offset, l - offset, m - offset);
    MergeParts(a, l, b, l - offset, m - offset, m - offset, h - offset,
               h, b2[l - offset..m - offset], b2[m - offset..h - offset], a2);
    assert b[..] == b2;
    BackJoined(a0, a1, a2, a[..], b0, b1, b2, offset, l, m, h);
  }

  /**
   * After the last merge of MergeBack: a3[l..h) holds a0[l..h), a changed
   * only there, and b only in b[l - offset..h - offset).
   */
  lemma BackJoined(a0: seq<int>, a1: seq<int>, a2: seq<int>, a3: seq<int>, b0: seq<int>, b1: seq<int>, b2: seq<int>,
                   offset: int, l: int, m: int, h: int)
    requires 0 <= offset <= l <= m <= h <= |a0| == |a1| && h - offset <= |b0| == |b1| == |b2|
    requires SameOutside(a1, a0, l, m) && SameOutside(a2, a1, m, h) && SameOutside(a3, a2, l, h)
    requires SameOutside(b1, b0, l - offset, m - offset) && SameOutside(b2, b1, m - offset, h - offset)
    requires multiset(b1[l - offset..m - offset]) == multiset(a0[l..m])
    requires multiset(b2[m - offset..h - offset]) == multiset(a1[m..h])
    requires multiset(a3[l..h]) == multiset(b2[l - offset..m - offset]) + multiset(b2[m - offset..h - offset])
    ensures multiset(a3[l..h]) == multiset(a0[l..h])
    ensures SameOutside(a3, a0, l, h) && SameOutside(b2, b0, l - offset, h - offset)
  {
    SliceOutside(b2, b1, m - offset, h - offset, l - offset, m - offset);
    SliceOutside(a1, a0, l, m, m, h);
    HalvesPerm(a0, l, m, h, b2[l - offset..m - offset], b2[m - offset..h - offset], a3[l..h]);
    FramesJoin(b0, b1, b2, b2, l - offset, m - offset, h - offset);
    FramesJoin(a0, a1, a2, a3, l, m, h);
  }

  /** A range holding the elements of two parts x and y, when they hold those of s0[l..m) and s0[m..h). */
  lemma HalvesPerm(s0: seq<int>, l: int, m: int, h: int, x: seq<int>, y: seq<int>, r: seq<int>)
    requires 0 <= l <= m <= h <= |s0|
    requires multiset(x) == multiset(s0[l..m]) && multiset(y) == multiset(s0[m..h])
    requires multiset(r) == multiset(x) + multiset(y)
    ensures multiset(r) == multiset(s0[l..h])
  {
    assert s0[l..h] == s0[l..m] + s0[m..h];
  }

  /**
   * The last merge of mergeRuns without `aim`: both halves were merged in
   * place in a[l..m) and a[m..h), and are merged into b[l - offset..h - offset).
   * a0, a1 and a2 are a before, between and after the two halves, b0, b1 and
   * b2 the same for b.
   */
  method MergeOut(a: array<int>, b: array<int>, offset: int, l: int, m: int, h: int,
                  ghost a0: seq<int>, ghost a1: seq<int>, ghost a2: seq<int>,
                  ghost b0: seq<int>, ghost b1: seq<int>, ghost b2: seq<int>)
    requires a != b && 0 <= offset <= l <= m <= h <= a.Length && h - offset <= b.Length
    requires a[..] == a2 && b[..] == b2
    requires |a0| == |a1| == a.Length && |b0| == |b1| == b.Length
    requires Sorted(a1[l..m]) && multiset(a1[l..m]) == multiset(a0[l..m])
    requires SameOutside(a1, a0, l, m) && SameOutside(b1, b0, l - offset, m - offset)
    requires Sorted(a2[m..h]) && multiset(a2[m..h]) == multiset(a1[m..h])
    requires SameOutside(a2, a1, m, h) && SameOutside(b2, b1, m - offset, h - offset)
    modifies b
    ensures Sorted(b[l - offset..h - offset]) && multiset(b[l - offset..h - offset]) == multiset(a0[l..h])
    ensures SameOutside(a[..], a0, l, h)
    ensures SameOutside(b[..], b0, l - offset, h - offset)
  {
    SliceOutside(a2, a1, m, h, l, m);
    MergeParts(b, l - offset, a, l, m, m, h, h - offset, a2[l..m], a2[m..h], b2);
    assert a[..] == a2;
    OutJoined(a0, a1, a2, b0, b1, b2, b[..], offset, l, m, h);
  }

  /**
   * After the last merge of MergeOut: b3[l - offset..h - offset) holds a0[l..h),
   * b changed only there, and a only in a[l..h).
   */
  lemma OutJoined(a0: seq<int>, a1: seq<int>, a2: seq<int>, b0: seq<int>, b1: seq<int>, b2: seq<int>, b3: seq<int>,
                  offset: int, l: int, m: int, h: int)
    requires 0 <= offset <= l <= m <= h <= |a0| == |a1| == |a2| && h - offset <= |b0|
    requires multiset(a1[l..m]) == multiset(a0[l..m]) && SameOutside(a1, a0, l, m)
    requires multiset(a2[m..h]) == multiset(a1[m..h]) && SameOutside(a2, a1, m, h)
    requires SameOutside(b1, b0, l - offset, m - offset) && SameOutside(b2, b1, m - offset, h - offset)
    requires SameOutside(b3, b2, l - offset, h - offset)
    requires multiset(b3[l - offset..h - offset]) == multiset(a2[l..m]) + multiset(a2[m..h])
    ensures multiset(b3[l - offset..h - offset]) == multiset(a0[l..h])
    ensures SameOutside(a2, a0, l, h) && SameOutside(b3, b0, l - offset, h - offset)
  {
    SliceOutside(a2, a1, m, h, l, m);
    SliceOutside(a1, a0, l, m, m, h);
    HalvesPerm(a0, l, m, h, a2[l..m], a2[m..h], b3[l - offset..h - offset]);
    FramesJoin(a0, a1, a2, a2, l, m, h);
    FramesJoin(b0, b1, b2, b3, l - offset, m - offset, h - offset);
  }

  /** The base case of mergeRuns without `aim`: a single run is sorted already and is copied to b. */
  method CopyRun(a: array<int>, b: array<int>, offset: int, run: seq<int>, lo: int, hi: int)
    requires a != b && RunsOk(run, lo, hi) && hi - lo == 1
    requires 0 <= offset <= run[lo] && run[hi] <= a.Length && run[hi] - offset <= b.Length
    requires RunsSorted(a[..], run, lo, hi)
    modifies b
    ensures Sorted(b[run[lo] - offset..run[hi] - offset])
    ensures multiset(b[run[lo] - offset..run[hi] - offset]) == multiset(old(a[run[lo]..run[hi]]))
    ensures SameOutside(b[..], old(b[..]), run[lo] - offset, run[hi] - offset)
  {
    var l, h := run[lo], run[hi];
    OneRun(a[..], run, lo, hi);
    ArrayCopy(a, l, b, l - offset, h - l);
    assert l - offset + (h - l) == h - offset;
  }

  /**
   * mergeRuns: merges the sorted runs run[lo..hi] of a[run[lo]..run[hi]),
   * into a itself when `aim`, into b[run[lo] - offset..run[hi] - offset)
   * otherwise. Only the two ranges change.
   */
  method MergeRuns(a: array<int>, b: array<int>, offset: int, aim: bool, run: seq<int>, lo: int, hi: int)
    requires a != b && RunsOk(run, lo, hi)
    requires 0 <= offset <= run[lo] && run[hi] <= a.Length && run[hi] - offset <= b.Length
    requires RunsSorted(a[..], run, lo, hi)
    modifies a, b
    ensures aim ==> Sorted(a[run[lo]..run[hi]]) && multiset(a[run[lo]..run[hi]]) == multiset(old(a[run[lo]..run[hi]]))
    ensures !aim ==> Sorted(b[run[lo] - offset..run[hi] - offset]) &&
                     multiset(b[run[lo] - offset..run[hi] - offset]) == multiset(old(a[run[lo]..run[hi]]))
    ensures SameOutside(a[..], old(a[..]), run[lo], run[hi])
    ensures SameOutside(b[..], old(b[..]), run[lo] - offset, run[hi] - offset)
  {
    if aim {
      MergeRunsBack(a, b, offset, run, lo, hi);
    } else {
      MergeRunsOut(a, b, offset, run, lo, hi);
    }
  }

  /**
   * mergeRuns with `aim`: the result ends in a[run[lo]..run[hi]). A single run
   * is left where it is; otherwise both halves are merged into b and then
   * merged back into a.
   */
  method MergeRunsBack(a: array<int>, b: array<int>, offset: int, run: seq<int>, lo: int, hi: int)
    requires a != b && RunsOk(run, lo, hi)
    requires 0 <= offset <= run[lo] && run[hi] <= a.Length && run[hi] - offset <= b.Length
    requires RunsSorted(a[..], run, lo, hi)
    modifies a, b
    ensures Sorted(a[run[lo]..run[hi]]) && multiset(a[run[lo]..run[hi]]) == multiset(old(a[run[lo]..run[hi]]))
    ensures SameOutside(a[..], old(a[..]), run[lo], run[hi])
    ensures SameOutside(b[..], old(b[..]), run[lo] - offset, run[hi] - offset)
    decreases hi - lo
  {
    if hi - lo == 1 {
      OneRun(a[..], run, lo, hi);
      return;
    }
    ghost var a0, b0 := a[..], b[..];
    var mi := FindMiddle(run, lo, hi);
    RunsSortedPart(a0, a0, run, lo, hi, lo, mi, 0, 0);
    MergeRunsOut(a, b, offset, run, lo, mi);
    ghost var a1, b1 := a[..], b[..];
    RunsSortedPart(a0, a1, run, lo, hi, mi, hi, run[lo], run[mi]);
    MergeRunsOut(a, b, offset, run, mi, hi);
    MergeBack(a, b, offset, run[lo], run[mi], run[hi], a0, a1, a[..], b0, b1, b[..]);
  }

  /**
   * mergeRuns without `aim`: the result ends in b[run[lo] - offset..run[hi] - offset).
   * A single run is copied; otherwise both halves are merged in place in a and
   * then merged into b.
   */
  method MergeRunsOut(a: array<int>, b: array<int>, offset: int, run: seq<int>, lo: int, hi: int)
    requires a != b && RunsOk(run, lo, hi)
    requires 0 <= offset <= run[lo] && run[hi] <= a.Length && run[hi] - offset <= b.Length
    requires RunsSorted(a[..], run, lo, hi)
    modifies a, b
    ensures Sorted(b[run[lo] - offset..run[hi] - offset])
    ensures multiset(b[run[lo] - offset..run[hi] - offset]) == multiset(old(a[run[lo]..run[hi]]))
    ensures SameOutside(a[..], old(a[..]), run[lo], run[hi])
    ensures SameOutside(b[..], old(b[..]), run[lo] - offset, run[hi] - offset)
    decreases hi - lo
  {
    if hi - lo == 1 {
      CopyRun(a, b, offset, run, lo, hi);
      return;
    }
    ghost var a0, b0 := a[..], b[..];
    var mi := FindMiddle(run, lo, hi);
    RunsSortedPart(a0, a0, run, lo, hi, lo, mi, 0, 0);
    MergeRunsBack(a, b, offset, run, lo, mi);
    ghost var a1, b1 := a[..], b[..];
    RunsSortedPart(a0, a1, run, lo, hi, mi, hi, run[lo], run[mi]);
    MergeRunsBack(a, b, offset, run, mi, hi);
    MergeOut(a, b, offset, run[lo], run[mi], run[hi], a0, a1, a[..], b0, b1, b[..]);
  }
}
