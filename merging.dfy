/**
 * The pieces of the run-merging sort shared by both sorter versions: the run
 * table, the split of a run interval into two halves, the array copy used for
 * tails and single runs, and the splice that composes the steps of a merge.
 */
module Merging {
  import opened SortSpec

  /** run[lo..hi] are strictly increasing start indices: each run [run[i], run[i + 1]) is non-empty. */
  ghost predicate RunsOk(run: seq<int>, lo: int, hi: int) {
    0 <= lo < hi < |run| && forall i, j :: lo <= i < j <= hi ==> run[i] < run[j]
  }

  /** Every run of run[lo..hi] is sorted in s. */
  ghost predicate RunsSorted(s: seq<int>, run: seq<int>, lo: int, hi: int)
    requires RunsOk(run, lo, hi) && 0 <= run[lo] && run[hi] <= |s|
  {
    forall i :: lo <= i < hi ==> Sorted(s[run[i]..run[i + 1]])
  }

  /**
   * The runs of a sub-interval lo2..hi2 of the table stay sorted when the
   * array changes only outside [run[lo2], run[hi2]).
   */
  lemma RunsSortedPart(s: seq<int>, t: seq<int>, run: seq<int>, lo: int, hi: int, lo2: int, hi2: int, l: int, h: int)
    requires RunsOk(run, lo, hi) && lo <= lo2 < hi2 <= hi && 0 <= run[lo] && run[hi] <= |s|
    requires RunsSorted(s, run, lo, hi)
    requires SameOutside(t, s, l, h) && (h <= run[lo2] || run[hi2] <= l)
    ensures RunsOk(run, lo2, hi2) && RunsSorted(t, run, lo2, hi2)
  {
    forall i | lo2 <= i < hi2 ensures Sorted(t[run[i]..run[i + 1]]) {
      assert run[lo2] <= run[i] < run[i + 1] <= run[hi2];
      SliceOutside(t, s, l, h, run[i], run[i + 1]);
    }
  }

  /** A single run is sorted. */
  lemma OneRun(s: seq<int>, run: seq<int>, lo: int, hi: int)
    requires RunsOk(run, lo, hi) && hi - lo == 1 && 0 <= run[lo] && run[hi] <= |s|
    requires RunsSorted(s, run, lo, hi)
    ensures Sorted(s[run[lo]..run[hi]])
  {
    assert hi == lo + 1;
  }

  /**
   * Merging two halves, each a permutation of a half of o[l..h), gives a
   * permutation of o[l..h).
   */
  lemma HalvesMerged(o: seq<int>, l: int, m: int, h: int, p: seq<int>, q: seq<int>, r: seq<int>)
    requires 0 <= l <= m <= h <= |o|
    requires multiset(r) == multiset(p) + multiset(q)
    requires multiset(p) == multiset(o[l..m]) && multiset(q) == multiset(o[m..h])
    ensures multiset(r) == multiset(o[l..h])
  {
    assert o[l..h] == o[l..m] + o[m..h];
  }

  /** Three changes inside [l, m), [m, h) and [l, h) of a range change it only inside [l, h). */
  lemma FramesJoin(s0: seq<int>, s1: seq<int>, s2: seq<int>, s3: seq<int>, l: int, m: int, h: int)
    requires l <= m <= h
    requires SameOutside(s1, s0, l, m) && SameOutside(s2, s1, m, h) && SameOutside(s3, s2, l, h)
    ensures SameOutside(s3, s0, l, h)
  {
    SameOutsideTrans(s1, s0, s0, l, h, l, m);
    SameOutsideTrans(s2, s1, s0, l, h, m, h);
    SameOutsideTrans(s3, s2, s0, l, h, l, h);
  }

  /**
   * A merge of two sorted parts that are already in order, the last element
   * of the first not larger than the head of the second, is the two parts
   * copied one after the other: whatever a merge writes for them, the result
   * is the same as copying both.
   */
  lemma InOrderCopied(w: seq<int>, x: seq<int>, y: seq<int>)
    requires Sorted(x) && Sorted(y) && (x == [] || y == [] || x[|x| - 1] <= y[0])
    requires Sorted(w) && multiset(w) == multiset(x) + multiset(y)
    ensures w == x + y
  {
    MergeIsSortedPerm(x, y, w);
    MergeInOrder(x, y);
  }

  /**
   * `int mi = lo, rmi = (run[lo] + run[hi]) >>> 1; while (run[++mi + 1] <= rmi);`:
   * the first run boundary after lo whose successor is beyond the middle
   * position. It always splits the interval into two non-empty halves.
   */
  method FindMiddle(run: seq<int>, lo: int, hi: int) returns (mi: int)
    requires RunsOk(run, lo, hi) && hi - lo >= 2 && 0 <= run[lo]
    ensures lo < mi < hi
    ensures run[mi + 1] > (run[lo] + run[hi]) / 2
    ensures forall j :: lo + 1 < j <= mi ==> run[j] <= (run[lo] + run[hi]) / 2
  {
    var rmi := (run[lo] + run[hi]) / 2;
    mi := lo + 1;
    while run[mi + 1] <= rmi
      invariant lo < mi < hi
      invariant forall j :: lo + 1 < j <= mi ==> run[j] <= rmi
      decreases hi - mi
    {
      mi := mi + 1;
    }
  }

  /** `System.arraycopy(src, from, dst, to, n)` for two different arrays. */
  method ArrayCopy(src: array<int>, from: int, dst: array<int>, to: int, n: int)
    requires src != dst && 0 <= n && 0 <= from && from + n <= src.Length && 0 <= to && to + n <= dst.Length
    modifies dst
    ensures dst[to..to + n] == src[from..from + n]
    ensures forall j :: to <= j < to + n ==> dst[j] == src[j - to + from]
    ensures forall j :: 0 <= j < dst.Length && !(to <= j < to + n) ==> dst[j] == old(dst[j])
    ensures SameOutside(dst[..], old(dst[..]), to, to + n)
  {
    var i := 0;
    while i < n
      invariant 0 <= i <= n
      invariant forall j :: to <= j < to + i ==> dst[j] == src[j - to + from]
      invariant forall j :: 0 <= j < dst.Length && !(to <= j < to + i) ==> dst[j] == old(dst[j])
    {
      dst[to + i] := src[from + i];
      i := i + 1;
    }
    assert dst[to..to + n] == src[from..from + n];
    SameOutsideAt(dst[..], old(dst[..]), to, to + n);
  }

  /**
   * The progress of a merge of the sorted x and y: `out` is what was written
   * so far, made of x[..i] and y[..j], sorted, and not larger than the next
   * element of either part.
   */
  ghost predicate MergeInv(out: seq<int>, x: seq<int>, y: seq<int>, i: int, j: int) {
    0 <= i <= |x| && 0 <= j <= |y| && |out| == i + j &&
    Sorted(out) && multiset(out) == multiset(x[..i]) + multiset(y[..j]) &&
    (|out| > 0 && i < |x| ==> out[|out| - 1] <= x[i]) &&
    (|out| > 0 && j < |y| ==> out[|out| - 1] <= y[j])
  }

  /** The output of a merge so far stands at d[k0..k0 + |out|). */
  ghost predicate Written(d: seq<int>, k0: int, out: seq<int>) {
    0 <= k0 && k0 + |out| <= |d| && forall p :: k0 <= p < k0 + |out| ==> d[p] == out[p - k0]
  }

  /** Nothing has been merged yet. */
  lemma MergeStart(x: seq<int>, y: seq<int>)
    ensures MergeInv([], x, y, 0, 0)
  {
    assert x[..0] == [] && y[..0] == [];
  }

  /** Taking the next element of x, when it is not larger than the next of y, keeps the merge in progress. */
  lemma TakeLeft(out: seq<int>, x: seq<int>, y: seq<int>, i: int, j: int)
    requires Sorted(x) && MergeInv(out, x, y, i, j) && i < |x|
    requires j < |y| ==> x[i] <= y[j]
    ensures MergeInv(out + [x[i]], x, y, i + 1, j)
  {
    assert x[..i + 1] == x[..i] + [x[i]];
    var o := out + [x[i]];
    forall p, q | 0 <= p < q < |o| ensures o[p] <= o[q] {
      if q == |out| && p < |out| - 1 {
        assert out[p] <= out[|out| - 1];
      }
    }
  }

  /** Taking the next element of y, when it is not larger than the next of x, keeps the merge in progress. */
  lemma TakeRight(out: seq<int>, x: seq<int>, y: seq<int>, i: int, j: int)
    requires Sorted(y) && MergeInv(out, x, y, i, j) && j < |y|
    requires i < |x| ==> y[j] <= x[i]
    ensures MergeInv(out + [y[j]], x, y, i, j + 1)
  {
    assert y[..j + 1] == y[..j] + [y[j]];
    var o := out + [y[j]];
    forall p, q | 0 <= p < q < |o| ensures o[p] <= o[q] {
      if q == |out| && p < |out| - 1 {
        assert out[p] <= out[|out| - 1];
      }
    }
  }

  /** The rests of two sorted parts, when one is empty or the two are in order, are sorted together. */
  lemma RestsSorted(x: seq<int>, y: seq<int>, i: int, j: int)
    requires Sorted(x) && Sorted(y) && 0 <= i <= |x| && 0 <= j <= |y|
    requires i == |x| || j == |y| || x[|x| - 1] <= y[j]
    ensures Sorted(x[i..] + y[j..])
  {
    var r := x[i..] + y[j..];
    forall p, q | 0 <= p < q < |r| ensures r[p] <= r[q] {
      if p < |x| - i <= q {
        assert r[p] == x[i + p] <= x[|x| - 1];
        assert r[q] == y[j + q - (|x| - i)] >= y[j];
      } else if q < |x| - i {
        assert r[p] == x[i + p] && r[q] == x[i + q];
      } else {
        assert r[p] == y[j + p - (|x| - i)] && r[q] == y[j + q - (|x| - i)];
      }
    }
  }

  /** A sorted output followed by sorted rests not below its last element is sorted. */
  lemma OutThenRests(out: seq<int>, r: seq<int>, x: seq<int>, y: seq<int>, i: int, j: int)
    requires MergeInv(out, x, y, i, j) && Sorted(r) && r == x[i..] + y[j..]
    requires Sorted(x) && Sorted(y)
    ensures Sorted(out + r)
  {
    var o := out + r;
    forall p, q | 0 <= p < q < |o| ensures o[p] <= o[q] {
      if p < |out| <= q {
        assert out[p] <= out[|out| - 1];
        assert r[0] <= r[q - |out|];
        if i < |x| {
          assert r[0] == x[i];
        } else {
          assert r[0] == y[j];
        }
      }
    }
  }

  /** The output and the two rests hold the elements of the two parts. */
  lemma RestsPerm(out: seq<int>, x: seq<int>, y: seq<int>, i: int, j: int)
    requires MergeInv(out, x, y, i, j)
    ensures multiset(out + (x[i..] + y[j..])) == multiset(x) + multiset(y)
  {
    PartsPerm(out, x, y, i, j);
  }

  /** The elements of x[..i] and y[..j], followed by the rests of x and y, are the elements of both. */
  lemma PartsPerm(out: seq<int>, x: seq<int>, y: seq<int>, i: int, j: int)
    requires 0 <= i <= |x| && 0 <= j <= |y| && multiset(out) == multiset(x[..i]) + multiset(y[..j])
    ensures multiset(out + (x[i..] + y[j..])) == multiset(x) + multiset(y)
  {
    assert x == x[..i] + x[i..] && y == y[..j] + y[j..];
  }

  /**
   * Once one part is used up, or what is left of the two is already in order,
   * the output followed by the two rests is sorted and holds the elements of
   * both parts: it is their merge.
   */
  lemma MergeDone(out: seq<int>, x: seq<int>, y: seq<int>, i: int, j: int)
    requires Sorted(x) && Sorted(y) && MergeInv(out, x, y, i, j)
    requires i == |x| || j == |y| || x[|x| - 1] <= y[j]
    ensures Sorted(out + (x[i..] + y[j..])) && multiset(out + (x[i..] + y[j..])) == multiset(x) + multiset(y)
    ensures out + (x[i..] + y[j..]) == Merge(x, y)
  {
    var r := x[i..] + y[j..];
    assert Sorted(out + r) by {
      RestsSorted(x, y, i, j);
      OutThenRests(out, r, x, y, i, j);
    }
    RestsPerm(out, x, y, i, j);
    MergeIsSortedPerm(x, y, out + r);
  }

  /** Writing the next element of the output at its place extends what is written. */
  lemma WrittenStep(d: seq<int>, k0: int, k: int, out: seq<int>, v: int)
    requires Written(d, k0, out) && k == k0 + |out| < |d|
    ensures Written(d[k := v], k0, out + [v])
  {
    var d2, o2 := d[k := v], out + [v];
    forall p | k0 <= p < k0 + |o2| ensures d2[p] == o2[p - k0] {
      if p < k0 + |out| {
        assert o2[p - k0] == out[p - k0];
      }
    }
  }

  /** What Written describes is the slice of the array. */
  lemma WrittenSlice(d: seq<int>, k0: int, out: seq<int>)
    requires Written(d, k0, out)
    ensures d[k0..k0 + |out|] == out
  {
  }

  // ---------------------------------------------------------------------------
  // Run detection

  // ---------------------------------------------------------------------------
  // The scan for runs, on the input itself

  /**
   * Where the ascending sequence being scanned at j ends: the first index
   * from j on that is `high` or where the next element is smaller.
   */
  function AscentEnd(s: seq<int>, j: int, high: int): (e: int)
    requires 1 <= j <= high <= |s|
    ensures j <= e <= high
    decreases high - j
  {
    if j == high || s[j - 1] > s[j] then j else AscentEnd(s, j + 1, high)
  }

  /** Where the descending sequence being scanned at j ends: the first index from j on that is `high` or where the next element is larger. */
  function DescentEnd(s: seq<int>, j: int, high: int): (e: int)
    requires 1 <= j <= high <= |s|
    ensures j <= e <= high
    decreases high - j
  {
    if j == high || s[j - 1] < s[j] then j else DescentEnd(s, j + 1, high)
  }

  /** Where the stretch of elements equal to x being scanned at j ends: the first index from j on that is `high` or holds another value. */
  function EqualEnd(s: seq<int>, x: int, j: int, high: int): (e: int)
    requires 0 <= j <= high <= |s|
    ensures j <= e <= high
    decreases high - j
  {
    if j == high || s[j] != x then j else EqualEnd(s, x, j + 1, high)
  }

  /**
   * The sequence scanned from s[k - 1] and s[k]: an ascending, descending or
   * constant one, with its end, and whether it is a constant sequence stopping
   * before `high` (after which the scan goes on with the same start).
   */
  function SequenceEnd(s: seq<int>, k: int, high: int): (r: (int, bool))
    requires 0 < k < high <= |s|
    ensures k < r.0 <= high && (r.1 ==> r.0 < high)
  {
    if s[k - 1] < s[k] then (AscentEnd(s, k + 1, high), false)
    else if s[k - 1] > s[k] then (DescentEnd(s, k + 1, high), false)
    else var e := EqualEnd(s, s[k], k + 1, high); (e, e < high)
  }

  /** The largest element of s[lo..hi). */
  function MaxOf(s: seq<int>, lo: int, hi: int): int
    requires 0 <= lo < hi <= |s|
    decreases hi - lo
  {
    if lo + 1 == hi then s[lo] else Max(s[lo], MaxOf(s, lo + 1, hi))
  }

  /** The least element of s[lo..hi). */
  function MinOf(s: seq<int>, lo: int, hi: int): int
    requires 0 <= lo < hi <= |s|
    decreases hi - lo
  {
    if lo + 1 == hi then s[lo] else Min(s[lo], MinOf(s, lo + 1, hi))
  }

  /** MaxOf is an element of the range, and no element is larger. */
  lemma {:induction false} MaxOfBounds(s: seq<int>, lo: int, hi: int) returns (w: int)
    requires 0 <= lo < hi <= |s|
    ensures lo <= w < hi && s[w] == MaxOf(s, lo, hi)
    ensures forall i :: lo <= i < hi ==> s[i] <= MaxOf(s, lo, hi)
    decreases hi - lo
  {
    if lo + 1 == hi {
      w := lo;
    } else {
      w := MaxOfBounds(s, lo + 1, hi);
      if s[lo] > s[w] {
        w := lo;
      }
    }
  }

  /** MinOf is an element of the range, and no element is smaller. */
  lemma {:induction false} MinOfBounds(s: seq<int>, lo: int, hi: int) returns (w: int)
    requires 0 <= lo < hi <= |s|
    ensures lo <= w < hi && s[w] == MinOf(s, lo, hi)
    ensures forall i :: lo <= i < hi ==> MinOf(s, lo, hi) <= s[i]
    decreases hi - lo
  {
    if lo + 1 == hi {
      w := lo;
    } else {
      w := MinOfBounds(s, lo + 1, hi);
      if s[lo] < s[w] {
        w := lo;
      }
    }
  }

  /** s agrees with s0 on [lo, hi). */
  ghost predicate Untouched(s: seq<int>, s0: seq<int>, lo: int, hi: int)
    requires 0 <= lo && hi <= |s| && hi <= |s0|
  {
    forall i :: lo <= i < hi ==> s[i] == s0[i]
  }

  /**
   * What the scanning loop keeps about the input s0: the range from `last` on
   * is untouched, and once a run is noted, the sequence a[prev..last) scanned
   * last is sorted and holds the input's elements of [prev, last).
   */
  ghost predicate Tracked(s: seq<int>, s0: seq<int>, low: int, high: int, hasRun: bool, prev: int, last: int)
  {
    0 <= low <= prev <= last <= high <= |s| && |s| == |s0| &&
    Untouched(s, s0, last, high) &&
    (hasRun ==> prev < last && SortedRange(s, prev, last) && multiset(s[prev..last]) == multiset(s0[prev..last]))
  }

  lemma AscentAgrees(s: seq<int>, t: seq<int>, j: int, high: int)
    requires 1 <= j <= high <= |s| && high <= |t| && Untouched(s, t, j - 1, high)
    ensures AscentEnd(s, j, high) == AscentEnd(t, j, high)
    decreases high - j
  {
    if j < high && s[j - 1] <= s[j] {
      AscentAgrees(s, t, j + 1, high);
    }
  }

  lemma DescentAgrees(s: seq<int>, t: seq<int>, j: int, high: int)
    requires 1 <= j <= high <= |s| && high <= |t| && Untouched(s, t, j - 1, high)
    ensures DescentEnd(s, j, high) == DescentEnd(t, j, high)
    decreases high - j
  {
    if j < high && s[j - 1] >= s[j] {
      DescentAgrees(s, t, j + 1, high);
    }
  }

  lemma EqualAgrees(s: seq<int>, t: seq<int>, x: int, j: int, high: int)
    requires 0 <= j <= high <= |s| && high <= |t| && Untouched(s, t, j, high)
    ensures EqualEnd(s, x, j, high) == EqualEnd(t, x, j, high)
    decreases high - j
  {
    if j < high && s[j] == x {
      EqualAgrees(s, t, x, j + 1, high);
    }
  }

  /** In a sorted s[j - 1..high) the ascending sequence reaches `high`. */
  lemma {:induction false} AscentToEnd(s: seq<int>, j: int, high: int)
    requires 1 <= j <= high <= |s| && SortedRange(s, j - 1, high)
    ensures AscentEnd(s, j, high) == high
    decreases high - j
  {
    if j < high {
      AscentToEnd(s, j + 1, high);
    }
  }

  /** In a descending s[j - 1..high) the descending sequence reaches `high`. */
  lemma {:induction false} DescentToEnd(s: seq<int>, j: int, high: int)
    requires 1 <= j <= high <= |s| && DescendingRange(s, j - 1, high)
    ensures DescentEnd(s, j, high) == high
    decreases high - j
  {
    if j < high {
      DescentToEnd(s, j + 1, high);
    }
  }

  /** The sequence scanned at k depends only on s[k - 1..high). */
  lemma SequenceEndAgrees(s: seq<int>, t: seq<int>, k: int, high: int)
    requires 0 < k < high <= |s| && high <= |t| && Untouched(s, t, k - 1, high)
    ensures SequenceEnd(s, k, high) == SequenceEnd(t, k, high)
  {
    AscentAgrees(s, t, k + 1, high);
    DescentAgrees(s, t, k + 1, high);
    EqualAgrees(s, t, s[k], k + 1, high);
  }

  /** A sorted arrangement t[lo..hi) of s[lo..hi) starts with the least and ends with the largest element. */
  lemma SortedEnds(t: seq<int>, s: seq<int>, lo: int, hi: int)
    requires 0 <= lo < hi <= |t| && hi <= |s| && SortedRange(t, lo, hi)
    requires multiset(t[lo..hi]) == multiset(s[lo..hi])
    ensures t[lo] == MinOf(s, lo, hi) && t[hi - 1] == MaxOf(s, lo, hi)
  {
    var i := PermMember(s, t, lo, hi, lo);
    var j := PermMember(s, t, lo, hi, hi - 1);
    var m := MinOfBounds(s, lo, hi);
    var n := MaxOfBounds(s, lo, hi);
    var m' := PermMember(t, s, lo, hi, m);
    var n' := PermMember(t, s, lo, hi, n);
  }

  /**
   * A finished sequence a[last..end), scanned where the range was untouched
   * from `last` on, holds the input's elements of [last, end) in order, so
   * the loop state is tracked again with it as the sequence scanned last, and
   * `a[last - 1] > a[last]` compares the largest element of the previous
   * sequence with the least of this one.
   */
  lemma SequenceScanned(before: seq<int>, s: seq<int>, s0: seq<int>, low: int, high: int, hasRun: bool,
                        prev: int, last: int, end: int)
    requires Tracked(before, s0, low, high, hasRun, prev, last)
    requires last < end <= high && |s| == |before| && SortedRange(s, last, end)
    requires multiset(s) == multiset(before) && SameOutside(s, before, last, end)
    ensures Tracked(s, s0, low, high, true, last, end)
    ensures hasRun ==> (s[last - 1] > s[last] <==> MaxOf(s0, prev, last) > MinOf(s0, last, end))
  {
    PermRange(s, before, last, end);
    assert before[last..end] == s0[last..end];
    SameOutsidePointwise(s, before, last, end);
    if hasRun {
      SliceOutside(s, before, last, end, prev, last);
      SortedEnds(s, s0, prev, last);
    }
    SortedEnds(s, s0, last, end);
  }

  /**
   * `for (int i = lo - 1, j = hi; ++i < --j && a[i] > a[j]; )` exchanging a[i]
   * and a[j]: reverses a descending a[lo..hi). The loop stops early at the
   * first pair that is not strictly out of order, which in a descending range
   * means that everything between is equal, so the range still ends reversed.
   */
  method ReverseRun(a: array<int>, lo: int, hi: int)
    requires 0 <= lo <= hi <= a.Length
    requires DescendingRange(a[..], lo, hi)
    modifies a
    ensures forall p :: lo <= p < hi ==> a[p] == old(a[lo + hi - 1 - p])
    ensures forall p :: 0 <= p < a.Length && !(lo <= p < hi) ==> a[p] == old(a[p])
  {
    var i, j := lo - 1, hi;
    while true
      invariant lo - 1 <= i < j <= hi && i + j == lo + hi - 1
      invariant forall p :: lo <= p <= i ==> a[p] == old(a[lo + hi - 1 - p])
      invariant forall p :: j <= p < hi ==> a[p] == old(a[lo + hi - 1 - p])
      invariant forall p :: 0 <= p < a.Length && !(lo <= p <= i) && !(j <= p < hi) ==> a[p] == old(a[p])
      decreases j - i
    {
      i := i + 1;
      j := j - 1;
      if !(i < j && a[i] > a[j]) {
        break;
      }
      a[i], a[j] := a[j], a[i];
    }
    // the untouched middle a[i..j] is descending with a[i] <= a[j], so it is constant
    forall p | i <= p <= j
      ensures a[p] == old(a[lo + hi - 1 - p])
    {
      if i < j {
        assert old(a[i]) >= old(a[p]) >= old(a[j]);
        assert old(a[i]) >= old(a[lo + hi - 1 - p]) >= old(a[j]);
      }
    }
  }

  /** `while (++k < high && a[k - 1] <= a[k]);` after a[k - 1] < a[k]: the end of the ascending sequence from k - 1. */
  method AscendingEnd(a: array<int>, k: int, high: int) returns (k2: int)
    requires 0 < k < high <= a.Length && a[k - 1] < a[k]
    ensures k < k2 <= high && SortedRange(a[..], k - 1, k2)
    ensures k2 < high ==> a[k2 - 1] > a[k2]
    ensures k2 == AscentEnd(a[..], k + 1, high)
  {
    k2 := k + 1;
    while k2 < high && a[k2 - 1] <= a[k2]
      invariant k < k2 <= high && SortedRange(a[..], k - 1, k2)
      invariant AscentEnd(a[..], k2, high) == AscentEnd(a[..], k + 1, high)
    {
      k2 := k2 + 1;
    }
  }

  /** `while (++k < high && a[k - 1] >= a[k]);` after a[k - 1] > a[k]: the end of the descending sequence from k - 1. */
  method DescendingEnd(a: array<int>, k: int, high: int) returns (k2: int)
    requires 0 < k < high <= a.Length && a[k - 1] > a[k]
    ensures k < k2 <= high && DescendingRange(a[..], k - 1, k2)
    ensures k2 < high ==> a[k2 - 1] < a[k2]
    ensures k2 == DescentEnd(a[..], k + 1, high)
  {
    k2 := k + 1;
    while k2 < high && a[k2 - 1] >= a[k2]
      invariant k < k2 <= high && DescendingRange(a[..], k - 1, k2)
      invariant DescentEnd(a[..], k2, high) == DescentEnd(a[..], k + 1, high)
    {
      k2 := k2 + 1;
    }
  }

  /** `for (int ak = a[k]; ++k < high && ak == a[k]; );`: the end of the stretch equal to a[k]. */
  method ConstantEnd(a: array<int>, k: int, high: int) returns (k2: int)
    requires 0 <= k < high <= a.Length
    ensures k < k2 <= high && AllEqual(a[..], k, k2, a[k])
    ensures k2 < high ==> a[k2] != a[k]
    ensures k2 == EqualEnd(a[..], a[k], k + 1, high)
  {
    var ak := a[k];
    k2 := k + 1;
    while k2 < high && ak == a[k2]
      invariant k < k2 <= high && AllEqual(a[..], k, k2, ak)
      invariant EqualEnd(a[..], ak, k2, high) == EqualEnd(a[..], ak, k + 1, high)
    {
      k2 := k2 + 1;
    }
  }

  /**
   * The run search at the head of the scanning loop of tryMergingSort: from
   * a[k - 1] and a[k], an ascending, descending (then reversed) or constant
   * sequence is scanned. a[last..k) is a constant stretch already scanned (the
   * current run start `last`, possibly followed by equal elements). `more`
   * says that a constant sequence stopped before `high`, where the source
   * continues scanning with the same `last`; otherwise a[last..k2) is now an
   * ascending run.
   */
  method ScanRun(a: array<int>, low: int, last: int, k: int, high: int) returns (k2: int, more: bool)
    requires 0 <= low <= last <= k && low < k < high <= a.Length
    requires AllEqual(a[..], last, k, a[k - 1])
    modifies a
    ensures k < k2 <= high
    ensures more ==> k2 < high && AllEqual(a[..], last, k2, a[k2 - 1])
    ensures !more ==> SortedRange(a[..], last, k2)
    ensures multiset(a[..]) == multiset(old(a[..])) && SameOutside(a[..], old(a[..]), last, k2)
    ensures SortedRange(old(a[..]), k - 1, high) ==> a[..] == old(a[..]) && (more || k2 == high)
    ensures DescendingRange(old(a[..]), k - 1, high) ==> k2 == high || (more && a[..] == old(a[..]))
    ensures (k2, more) == SequenceEnd(old(a[..]), k, high)
    ensures more ==> a[..] == old(a[..])
  {
    more := false;
    if a[k - 1] < a[k] {
      k2 := AscendingEnd(a, k, high);
      assert (k2, more) == SequenceEnd(a[..], k, high);
      assert SortedRange(a[..], last, k2);
    } else if a[k - 1] > a[k] {
      k2 := DescendingEnd(a, k, high);
      assert (k2, more) == SequenceEnd(a[..], k, high);
      assert DescendingRange(a[..], last, k2);
      ghost var s := a[..];
      ReverseRun(a, last, k2);
      ReversedRange(s, a[..], last, k2);
    } else {
      k2 := ConstantEnd(a, k, high);
      assert AllEqual(a[..], last, k2, a[k2 - 1]);
      more := k2 < high;
    }
  }

  /**
   * Writing k as the end of run c - 1 (a new run, or the old last run
   * extended) keeps the run table well formed and every run sorted, when
   * a[run[c - 1]..k) is sorted.
   */
  lemma RunAppended(s: seq<int>, run: seq<int>, r: seq<int>, c: int, k: int)
    requires 1 <= c < |run| && 0 <= run[0] && 0 <= run[c - 1] < k <= |s|
    requires c > 1 ==> RunsOk(run, 0, c - 1) && RunsSorted(s, run, 0, c - 1)
    requires SortedRange(s, run[c - 1], k)
    requires r == run[c := k]
    ensures RunsOk(r, 0, c) && RunsSorted(s, r, 0, c)
  {
    forall i | 0 <= i < c ensures Sorted(s[r[i]..r[i + 1]]) {
      if i < c - 1 {
        assert Sorted(s[run[i]..run[i + 1]]);
      } else {
        SortedRangeSlice(s, run[c - 1], k);
      }
    }
  }

  /** The runs before the last one of a well-formed table form a well-formed table. */
  lemma RunsPrefix(s: seq<int>, run: seq<int>, c: int)
    requires RunsOk(run, 0, c) && 0 <= run[0] && run[c] <= |s| && RunsSorted(s, run, 0, c)
    ensures c > 1 ==> RunsOk(run, 0, c - 1) && RunsSorted(s, run, 0, c - 1)
  {
  }

  /**
   * The last run of the table, followed by a sorted continuation s[run[c]..k)
   * that starts no lower than the run's last element, is sorted as a whole.
   */
  lemma RunJoined(s: seq<int>, run: seq<int>, c: int, k: int)
    requires RunsOk(run, 0, c) && 0 <= run[0] && run[c] < k <= |s| && RunsSorted(s, run, 0, c)
    requires SortedRange(s, run[c], k) && s[run[c] - 1] <= s[run[c]]
    ensures SortedRange(s, run[c - 1], k)
  {
    var l, m := run[c - 1], run[c];
    assert Sorted(s[l..m]);
    SortedRangeSlice(s, l, m);
    SortedConcat(s, l, m, k);
  }
}
