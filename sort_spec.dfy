/**
 * Ordering, permutation and frame vocabulary shared by every sorter of the
 * model. Arrays of Java primitives are modelled as `array<int>`; the width of
 * the Java element type is a range predicate wherever it matters.
 */
module SortSpec {

  const INT_MIN: int := -0x8000_0000
  const INT_MAX: int := 0x7FFF_FFFF

  /** The values a Java `int` can hold. */
  predicate IsInt32(x: int) {
    INT_MIN <= x <= INT_MAX
  }

  /** Two's complement wrap-around of a mathematical integer into a Java `int`. */
  function WrapInt32(x: int): (r: int)
    ensures IsInt32(r)
    ensures (r - x) % 0x1_0000_0000 == 0
    ensures IsInt32(x) ==> r == x
  {
    (x - INT_MIN) % 0x1_0000_0000 + INT_MIN
  }

  /** s[lo..hi) is in ascending order. */
  ghost predicate SortedRange(s: seq<int>, lo: int, hi: int)
    requires 0 <= lo && hi <= |s|
  {
    forall i, j :: lo <= i < j < hi ==> s[i] <= s[j]
  }

  /** A whole sequence is in ascending order. */
  ghost predicate Sorted(s: seq<int>) {
    forall i, j :: 0 <= i < j < |s| ==> s[i] <= s[j]
  }

  /** s and t have the same length and agree outside [lo, hi). */
  ghost predicate SameOutside(s: seq<int>, t: seq<int>, lo: int, hi: int) {
    |s| == |t| && 0 <= lo <= hi <= |s| && s[..lo] == t[..lo] && s[hi..] == t[hi..]
  }

  ghost predicate AllAtLeast(s: seq<int>, lo: int, hi: int, x: int)
    requires 0 <= lo && hi <= |s|
  {
    forall i :: lo <= i < hi ==> x <= s[i]
  }

  ghost predicate AllAtMost(s: seq<int>, lo: int, hi: int, x: int)
    requires 0 <= lo && hi <= |s|
  {
    forall i :: lo <= i < hi ==> s[i] <= x
  }

  ghost predicate AllLess(s: seq<int>, lo: int, hi: int, x: int)
    requires 0 <= lo && hi <= |s|
  {
    forall i :: lo <= i < hi ==> s[i] < x
  }

  ghost predicate AllGreater(s: seq<int>, lo: int, hi: int, x: int)
    requires 0 <= lo && hi <= |s|
  {
    forall i :: lo <= i < hi ==> x < s[i]
  }

  ghost predicate AllEqual(s: seq<int>, lo: int, hi: int, x: int)
    requires 0 <= lo && hi <= |s|
  {
    forall i :: lo <= i < hi ==> s[i] == x
  }

  /** Every element of s[lo..mid) is at most every element of s[mid..hi). */
  ghost predicate Below(s: seq<int>, lo: int, mid: int, hi: int)
    requires 0 <= lo && hi <= |s|
  {
    forall i, j :: lo <= i < mid <= j < hi ==> s[i] <= s[j]
  }

  /** The precondition of the sentinel-based sorters: s[lo-1] exists and is at most every element of s[lo..hi). */
  ghost predicate HasSentinel(s: seq<int>, lo: int, hi: int)
    requires 0 <= lo <= hi <= |s|
  {
    0 < lo && AllAtLeast(s, lo, hi, s[lo - 1])
  }

  // ---------------------------------------------------------------------------
  // Permutations of a sub-range

  /** Writing inside [lo, hi) keeps the frame. */
  lemma UpdateInside(s: seq<int>, t: seq<int>, lo: int, hi: int, i: int, v: int)
    requires SameOutside(s, t, lo, hi) && lo <= i < hi
    ensures SameOutside(s[i := v], t, lo, hi)
  {
    assert s[i := v][..lo] == s[..lo];
    assert s[i := v][hi..] == s[hi..];
  }

  /** Frames compose: agreeing outside a sub-range implies agreeing outside the range. */
  lemma SameOutsideTrans(r: seq<int>, s: seq<int>, t: seq<int>, lo: int, hi: int, l: int, h: int)
    requires lo <= l <= h <= hi
    requires SameOutside(r, s, l, h) && SameOutside(s, t, lo, hi)
    ensures SameOutside(r, t, lo, hi)
  {
    assert r[..lo] == r[..l][..lo] && s[..lo] == s[..l][..lo];
    assert r[hi..] == r[h..][hi - h..] && s[hi..] == s[h..][hi - h..];
  }

  /** A whole-array permutation that keeps everything outside [lo, hi) permutes [lo, hi). */
  lemma PermRange(s: seq<int>, t: seq<int>, lo: int, hi: int)
    requires 0 <= lo <= hi <= |s|
    requires multiset(s) == multiset(t) && SameOutside(s, t, lo, hi)
    ensures multiset(s[lo..hi]) == multiset(t[lo..hi])
  {
    assert s == s[..lo] + s[lo..hi] + s[hi..];
    assert t == t[..lo] + t[lo..hi] + t[hi..];
    assert s[..lo] == t[..lo];
    assert s[hi..] == t[hi..];
    assert multiset(s) == multiset(s[..lo]) + multiset(s[lo..hi]) + multiset(s[hi..]);
    assert multiset(t) == multiset(t[..lo]) + multiset(t[lo..hi]) + multiset(t[hi..]);
    MultisetCancel(multiset(s[..lo]), multiset(s[lo..hi]), multiset(t[lo..hi]), multiset(s[hi..]));
  }

  /** Permuting [lo, hi) and keeping everything outside it permutes the whole sequence. */
  lemma RangePerm(s: seq<int>, t: seq<int>, lo: int, hi: int)
    requires SameOutside(s, t, lo, hi) && multiset(s[lo..hi]) == multiset(t[lo..hi])
    ensures multiset(s) == multiset(t)
  {
    assert s == s[..lo] + s[lo..hi] + s[hi..];
    assert t == t[..lo] + t[lo..hi] + t[hi..];
  }

  lemma MultisetCancel(a: multiset<int>, b: multiset<int>, c: multiset<int>, d: multiset<int>)
    requires a + b + d == a + c + d
    ensures b == c
  {
    forall x ensures b[x] == c[x] {
      assert (a + b + d)[x] == (a + c + d)[x];
    }
  }

  /** Every element of a permuted range occurs in the original range. */
  lemma PermMember(s: seq<int>, t: seq<int>, lo: int, hi: int, i: int) returns (j: int)
    requires 0 <= lo <= i < hi <= |s| && hi <= |t|
    requires multiset(s[lo..hi]) == multiset(t[lo..hi])
    ensures lo <= j < hi && t[i] == s[j]
  {
    assert t[i] == t[lo..hi][i - lo];
    assert t[i] in multiset(t[lo..hi]);
    assert t[i] in s[lo..hi];
    var k :| 0 <= k < hi - lo && s[lo..hi][k] == t[i];
    j := lo + k;
  }

  /** Bounds on the elements of a range survive a permutation of that range. */
  lemma BoundsPerm(s: seq<int>, t: seq<int>, lo: int, hi: int, x: int)
    requires 0 <= lo <= hi <= |s| && hi <= |t|
    requires multiset(s[lo..hi]) == multiset(t[lo..hi])
    ensures AllAtLeast(s, lo, hi, x) ==> AllAtLeast(t, lo, hi, x)
    ensures AllAtMost(s, lo, hi, x) ==> AllAtMost(t, lo, hi, x)
    ensures AllLess(s, lo, hi, x) ==> AllLess(t, lo, hi, x)
    ensures AllGreater(s, lo, hi, x) ==> AllGreater(t, lo, hi, x)
    ensures AllEqual(s, lo, hi, x) ==> AllEqual(t, lo, hi, x)
  {
    forall i | lo <= i < hi
      ensures exists j :: lo <= j < hi && t[i] == s[j]
    {
      var j := PermMember(s, t, lo, hi, i);
    }
  }

  /** Shorthand: a permutation of [lo, hi) with frame keeps every bound on [lo, hi). */
  lemma BoundsAfter(s: seq<int>, t: seq<int>, lo: int, hi: int, x: int)
    requires 0 <= lo <= hi <= |s|
    requires multiset(s) == multiset(t) && SameOutside(s, t, lo, hi)
    ensures AllAtLeast(s, lo, hi, x) ==> AllAtLeast(t, lo, hi, x)
    ensures AllAtMost(s, lo, hi, x) ==> AllAtMost(t, lo, hi, x)
    ensures AllLess(s, lo, hi, x) ==> AllLess(t, lo, hi, x)
    ensures AllGreater(s, lo, hi, x) ==> AllGreater(t, lo, hi, x)
    ensures AllEqual(s, lo, hi, x) ==> AllEqual(t, lo, hi, x)
  {
    PermRange(s, t, lo, hi);
    BoundsPerm(s, t, lo, hi, x);
  }

  /** Sentinel facts survive a permutation of a sub-range that does not touch the sentinel. */
  lemma SentinelAfter(s: seq<int>, t: seq<int>, lo: int, hi: int, l: int, h: int)
    requires 0 <= lo <= l <= h <= hi <= |s|
    requires HasSentinel(s, lo, hi)
    requires multiset(s) == multiset(t) && SameOutside(s, t, l, h)
    ensures HasSentinel(t, lo, hi)
  {
    PermRange(s, t, l, h);
    assert AllAtLeast(s, l, h, s[lo - 1]);
    BoundsPerm(s, t, l, h, s[lo - 1]);
  }

  /** Below(lo, mid, hi) survives permutations of either side. */
  lemma BelowAfter(s: seq<int>, t: seq<int>, lo: int, mid: int, hi: int, l: int, h: int)
    requires 0 <= lo <= mid <= hi <= |s|
    requires (lo <= l <= h <= mid) || (mid <= l <= h <= hi)
    requires Below(s, lo, mid, hi)
    requires multiset(s) == multiset(t) && SameOutside(s, t, l, h)
    ensures Below(t, lo, mid, hi)
  {
    PermRange(s, t, l, h);
    forall i, j | lo <= i < mid <= j < hi
      ensures t[i] <= t[j]
    {
      if l <= i < h {
        var i' := PermMember(s, t, l, h, i);
        assert s[i'] <= s[j];
      } else if l <= j < h {
        var j' := PermMember(s, t, l, h, j);
        assert s[i] <= s[j'];
      }
    }
  }

  /** Two sorted neighbours with every left element at most every right one form one sorted range. */
  lemma SortedConcat(s: seq<int>, lo: int, mid: int, hi: int)
    requires 0 <= lo <= mid <= hi <= |s|
    requires SortedRange(s, lo, mid) && SortedRange(s, mid, hi) && Below(s, lo, mid, hi)
    ensures SortedRange(s, lo, hi)
  {
  }

  /** Sortedness of a sub-range is a fact about the sub-range alone. */
  lemma SortedRangeSlice(s: seq<int>, lo: int, hi: int)
    requires 0 <= lo <= hi <= |s|
    ensures SortedRange(s, lo, hi) <==> Sorted(s[lo..hi])
  {
    if SortedRange(s, lo, hi) {
      forall i, j | 0 <= i < j < hi - lo ensures s[lo..hi][i] <= s[lo..hi][j] {
        assert s[lo..hi][i] == s[lo + i] && s[lo..hi][j] == s[lo + j];
      }
    }
    if Sorted(s[lo..hi]) {
      forall i, j | lo <= i < j < hi ensures s[i] <= s[j] {
        assert s[lo..hi][i - lo] == s[i] && s[lo..hi][j - lo] == s[j];
      }
    }
  }

  /** Exchanging two elements is a permutation. */
  lemma SwapPerm(s: seq<int>, i: int, j: int)
    requires 0 <= i < |s| && 0 <= j < |s|
    ensures multiset(s[i := s[j]][j := s[i]]) == multiset(s)
  {
  }

  /** Moving the element at k into the hole at p, and the hole to k, is a permutation. */
  lemma HoleMove(s: seq<int>, p: int, k: int, v: int)
    requires 0 <= p < |s| && 0 <= k < |s| && p != k
    ensures multiset(s[p := s[k]][k := v]) == multiset(s[p := v])
  {
    assert s[p := s[k]][k := v] == s[p := v][p := s[k]][k := v];
    SwapPerm(s[p := v], p, k);
  }

  /** Rotating three elements (i from j, j from l, l from i) is a permutation; i and j may coincide. */
  lemma CyclePerm(s: seq<int>, i: int, j: int, l: int)
    requires 0 <= i < |s| && 0 <= j < |s| && 0 <= l < |s| && l != i && l != j
    ensures multiset(s[i := s[j]][j := s[l]][l := s[i]]) == multiset(s)
  {
    if i == j {
      assert s[i := s[j]][j := s[l]][l := s[i]] == s[i := s[l]][l := s[i]];
      SwapPerm(s, i, l);
    } else {
      var s1 := s[i := s[j]][j := s[i]];
      SwapPerm(s, i, j);
      SwapPerm(s1, j, l);
      CycleAsSwaps(s, i, j, l);
    }
  }

  /** A rotation of three distinct places is two exchanges in a row. */
  lemma CycleAsSwaps(s: seq<int>, i: int, j: int, l: int)
    requires 0 <= i < |s| && 0 <= j < |s| && 0 <= l < |s| && l != i && l != j && i != j
    ensures s[i := s[j]][j := s[i]][j := s[i := s[j]][j := s[i]][l]][l := s[i := s[j]][j := s[i]][j]]
            == s[i := s[j]][j := s[l]][l := s[i]]
  {
    var s1 := s[i := s[j]][j := s[i]];
    var t := s[i := s[j]][j := s[l]][l := s[i]];
    forall x | 0 <= x < |s| ensures s1[j := s1[l]][l := s1[j]][x] == t[x] {
    }
    assert s1[j := s1[l]][l := s1[j]] == t;
  }

  /** t is s with the elements at i and j exchanged, described place by place. */
  lemma SwapAt(s: seq<int>, t: seq<int>, i: int, j: int)
    requires 0 <= i < |s| && 0 <= j < |s| && |t| == |s|
    requires forall x :: 0 <= x < |t| ==> t[x] == (if x == i then s[j] else if x == j then s[i] else s[x])
    ensures multiset(t) == multiset(s)
  {
    SwapPerm(s, i, j);
    assert t == s[i := s[j]][j := s[i]];
  }

  /** t is s with three elements rotated (i from j, j from l, l from i), described place by place. */
  lemma CycleAt(s: seq<int>, t: seq<int>, i: int, j: int, l: int)
    requires 0 <= i < |s| && 0 <= j < |s| && 0 <= l < |s| && l != i && l != j && |t| == |s|
    requires forall x :: 0 <= x < |t| ==> t[x] == (if x == l then s[i] else if x == j then s[l] else if x == i then s[j] else s[x])
    ensures multiset(t) == multiset(s)
  {
    CyclePerm(s, i, j, l);
    assert t == s[i := s[j]][j := s[l]][l := s[i]];
  }

  /** Agreeing place by place outside [lo, hi) is the frame. */
  lemma SameOutsideAt(s: seq<int>, t: seq<int>, lo: int, hi: int)
    requires 0 <= lo <= hi <= |s| == |t|
    requires forall x :: 0 <= x < |s| && !(lo <= x < hi) ==> s[x] == t[x]
    ensures SameOutside(s, t, lo, hi)
  {
    assert s[..lo] == t[..lo];
    assert s[hi..] == t[hi..];
  }

  /** Overwriting the same two places of two permutations of each other, where they agree, keeps them permutations. */
  lemma PermOverwrite(s: seq<int>, t: seq<int>, i: int, j: int, x: int, y: int)
    requires 0 <= i < |s| && 0 <= j < |s| && i != j && |s| == |t|
    requires multiset(s) == multiset(t) && s[i] == t[i] && s[j] == t[j]
    ensures multiset(s[i := x][j := y]) == multiset(t[i := x][j := y])
  {
    assert multiset(s[i := x]) == multiset(t[i := x]);
  }

  function Min(x: int, y: int): int { if x <= y then x else y }

  function Max(x: int, y: int): int { if x <= y then y else x }

  // ---------------------------------------------------------------------------
  // Sorted permutations

  /** A sorted sequence starts with its least element. */
  lemma SortedHeadIsMin(s: seq<int>, x: int)
    requires Sorted(s) && x in multiset(s)
    ensures s[0] <= x
  {
    assert x in s;
    var i :| 0 <= i < |s| && s[i] == x;
  }

  /**
   * A sorted arrangement of a multiset is unique: two sorted sequences with the
   * same elements are equal. This is why "sorted and a permutation of the input"
   * determines the output of every sorter completely.
   */
  lemma {:induction false} SortedPermUnique(s: seq<int>, t: seq<int>)
    requires Sorted(s) && Sorted(t) && multiset(s) == multiset(t)
    ensures s == t
    decreases |s|
  {
    assert |s| == |multiset(s)| == |multiset(t)| == |t|;
    if |s| > 0 {
      assert s[0] in multiset(t) by { assert s[0] in s; }
      assert t[0] in multiset(s) by { assert t[0] in t; }
      SortedHeadIsMin(t, s[0]);
      SortedHeadIsMin(s, t[0]);
      assert s[0] == t[0];
      assert s == [s[0]] + s[1..];
      assert t == [t[0]] + t[1..];
      assert multiset(s) == multiset{s[0]} + multiset(s[1..]);
      assert multiset(t) == multiset{t[0]} + multiset(t[1..]);
      MultisetCancel(multiset{s[0]}, multiset(s[1..]), multiset(t[1..]), multiset{});
      SortedPermUnique(s[1..], t[1..]);
    }
  }

  // ---------------------------------------------------------------------------
  // Merging

  /** The sorted merge of two sequences, taking from the left on ties. */
  function Merge(x: seq<int>, y: seq<int>): (r: seq<int>)
    ensures |r| == |x| + |y|
    ensures multiset(r) == multiset(x) + multiset(y)
    decreases |x| + |y|
  {
    if x == [] then y
    else if y == [] then x
    else if x[0] <= y[0] then
      assert x == [x[0]] + x[1..];
      [x[0]] + Merge(x[1..], y)
    else
      assert y == [y[0]] + y[1..];
      [y[0]] + Merge(x, y[1..])
  }

  /** Merging two sorted sequences gives a sorted sequence. */
  lemma {:induction false} MergeSorted(x: seq<int>, y: seq<int>)
    requires Sorted(x) && Sorted(y)
    ensures Sorted(Merge(x, y))
    decreases |x| + |y|
  {
    if x != [] && y != [] {
      var r := Merge(x, y);
      if x[0] <= y[0] {
        MergeSorted(x[1..], y);
        var t := Merge(x[1..], y);
        MergedAbove(x[0], x[1..], y, t);
        SortedConsFromMin(x[0], t);
      } else {
        MergeSorted(x, y[1..]);
        var t := Merge(x, y[1..]);
        MergedAbove(y[0], x, y[1..], t);
        SortedConsFromMin(y[0], t);
      }
    }
  }

  /** A bound on the heads of two sorted sequences bounds every element of their merge t. */
  lemma MergedAbove(h: int, x: seq<int>, y: seq<int>, t: seq<int>)
    requires Sorted(x) && Sorted(y) && (x != [] ==> h <= x[0]) && (y != [] ==> h <= y[0])
    requires multiset(t) == multiset(x) + multiset(y)
    ensures forall e :: e in multiset(t) ==> h <= e
  {
    forall e | e in multiset(t) ensures h <= e {
      if e in multiset(x) {
        assert e in x;
        var i :| 0 <= i < |x| && x[i] == e;
        assert x[0] <= x[i];
      } else {
        assert e in y;
        var i :| 0 <= i < |y| && y[i] == e;
        assert y[0] <= y[i];
      }
    }
  }

  lemma SortedConsFromMin(h: int, t: seq<int>)
    requires Sorted(t)
    requires forall e :: e in multiset(t) ==> h <= e
    ensures Sorted([h] + t)
  {
    forall i, j | 0 <= i < j < |t| + 1 ensures ([h] + t)[i] <= ([h] + t)[j] {
      if i == 0 {
        assert t[j - 1] in multiset(t);
      }
    }
  }

  /** Merging two sorted sequences gives the unique sorted arrangement of their elements. */
  lemma MergeIsSortedPerm(x: seq<int>, y: seq<int>, r: seq<int>)
    requires Sorted(x) && Sorted(y)
    requires Sorted(r) && multiset(r) == multiset(x) + multiset(y)
    ensures r == Merge(x, y)
  {
    MergeSorted(x, y);
    SortedPermUnique(r, Merge(x, y));
  }

  /** Parts already in order merge to their concatenation. */
  lemma MergeInOrder(x: seq<int>, y: seq<int>)
    requires Sorted(x) && Sorted(y)
    requires x == [] || y == [] || x[|x| - 1] <= y[0]
    ensures Merge(x, y) == x + y
  {
    var r := x + y;
    forall i, j | 0 <= i < j < |r| ensures r[i] <= r[j] {
      if i < |x| <= j {
        assert x[i] <= x[|x| - 1];
        assert y[0] <= y[j - |x|];
      }
    }
    assert multiset(r) == multiset(x) + multiset(y);
    MergeIsSortedPerm(x, y, r);
  }

  /** When the head of y is not larger than anything in x, the merge may take it first (equal elements are interchangeable). */
  lemma MergeRightHead(x: seq<int>, y: seq<int>)
    requires Sorted(x) && Sorted(y) && y != []
    requires forall i :: 0 <= i < |x| ==> y[0] <= x[i]
    ensures Merge(x, y) == [y[0]] + Merge(x, y[1..])
  {
    var t := Merge(x, y[1..]);
    assert Sorted(y[1..]);
    MergeSorted(x, y[1..]);
    HeadMerged(x, y, t);
    MergeIsSortedPerm(x, y, [y[0]] + t);
  }

  /** How a merge of two non-empty sorted sequences starts, by comparing their heads. */
  lemma MergeHeads(x: seq<int>, y: seq<int>)
    requires Sorted(x) && Sorted(y) && x != [] && y != []
    ensures x[0] < y[0] ==> Merge(x, y) == [x[0]] + Merge(x[1..], y)
    ensures x[0] > y[0] ==> Merge(x, y) == [y[0]] + Merge(x, y[1..])
    ensures x[0] == y[0] ==> Merge(x, y) == [x[0], y[0]] + Merge(x[1..], y[1..])
    ensures x[0] == y[0] ==> Merge(x, y) == [y[0]] + Merge(x, y[1..])
  {
    if x[0] == y[0] {
      var x1 := x[1..];
      assert Sorted(x1);
      forall i | 0 <= i < |x| ensures y[0] <= x[i] {
        assert x[0] <= x[i];
      }
      forall i | 0 <= i < |x1| ensures y[0] <= x1[i] {
        assert x[0] <= x[i + 1];
      }
      MergeRightHead(x1, y);
      MergeRightHead(x, y);
      assert Merge(x, y) == [x[0]] + Merge(x1, y);
    }
  }

  lemma HeadMerged(x: seq<int>, y: seq<int>, t: seq<int>)
    requires Sorted(x) && Sorted(y) && y != []
    requires forall i :: 0 <= i < |x| ==> y[0] <= x[i]
    requires Sorted(t) && multiset(t) == multiset(x) + multiset(y[1..])
    ensures Sorted([y[0]] + t) && multiset([y[0]] + t) == multiset(x) + multiset(y)
  {
    var y1 := y[1..];
    forall e | e in multiset(t) ensures y[0] <= e {
      if e in multiset(x) {
        assert e in x;
      } else {
        assert e in y1;
      }
    }
    SortedConsFromMin(y[0], t);
    assert y == [y[0]] + y1;
  }

  /** Outside the changed range every element is unchanged. */
  lemma SameOutsidePointwise(s: seq<int>, t: seq<int>, lo: int, hi: int)
    requires SameOutside(s, t, lo, hi)
    ensures forall p :: 0 <= p < |s| && !(lo <= p < hi) ==> s[p] == t[p]
  {
    forall p | 0 <= p < |s| && !(lo <= p < hi) ensures s[p] == t[p] {
      if p < lo {
        assert s[p] == s[..lo][p] && t[p] == t[..lo][p];
      } else {
        assert s[p] == s[hi..][p - hi] && t[p] == t[hi..][p - hi];
      }
    }
  }

  /** Slices that lie outside the changed range are unchanged. */
  lemma SliceOutside(s: seq<int>, t: seq<int>, lo: int, hi: int, i: int, j: int)
    requires SameOutside(s, t, lo, hi) && 0 <= i <= j <= |s|
    requires j <= lo || hi <= i
    ensures s[i..j] == t[i..j]
  {
    forall p | i <= p < j ensures s[p] == t[p] {
      if j <= lo {
        assert s[p] == s[..lo][p] && t[p] == t[..lo][p];
      } else {
        assert s[p] == s[hi..][p - hi] && t[p] == t[hi..][p - hi];
      }
    }
    assert s[i..j] == t[i..j];
  }

  // ---------------------------------------------------------------------------
  // Reversal

  /** s in reverse order. */
  function Reversed(s: seq<int>): (r: seq<int>)
    ensures |r| == |s|
    ensures forall i :: 0 <= i < |s| ==> r[i] == s[|s| - 1 - i]
    decreases |s|
  {
    if s == [] then [] else Reversed(s[1..]) + [s[0]]
  }

  /** Reversal keeps the elements. */
  lemma {:induction false} ReversedPerm(s: seq<int>)
    ensures multiset(Reversed(s)) == multiset(s)
    decreases |s|
  {
    if s != [] {
      ReversedPerm(s[1..]);
      assert s == [s[0]] + s[1..];
    }
  }

  /** Reversing twice gives the sequence back. */
  lemma ReversedTwice(s: seq<int>)
    ensures Reversed(Reversed(s)) == s
  {
    var r := Reversed(Reversed(s));
    assert forall i :: 0 <= i < |s| ==> r[i] == s[i];
  }

  /** s[lo..hi) is in descending (non-increasing) order. */
  ghost predicate DescendingRange(s: seq<int>, lo: int, hi: int)
    requires 0 <= lo && hi <= |s|
  {
    forall i, j :: lo <= i < j < hi ==> s[i] >= s[j]
  }

  /**
   * t holds s[lo..hi) reversed in place and agrees with s elsewhere; when that
   * range was descending, t has it ascending, the same elements and the same
   * frame.
   */
  lemma ReversedRange(s: seq<int>, t: seq<int>, lo: int, hi: int)
    requires 0 <= lo <= hi <= |s| == |t|
    requires forall p :: lo <= p < hi ==> t[p] == s[lo + hi - 1 - p]
    requires forall p :: 0 <= p < |s| && !(lo <= p < hi) ==> t[p] == s[p]
    ensures t[lo..hi] == Reversed(s[lo..hi])
    ensures DescendingRange(s, lo, hi) ==> SortedRange(t, lo, hi)
    ensures multiset(t) == multiset(s) && SameOutside(t, s, lo, hi)
  {
    ReversedSlice(s, t, lo, hi);
    ReversedPerm(s[lo..hi]);
    SameOutsideAt(t, s, lo, hi);
    RangePerm(t, s, lo, hi);
    if DescendingRange(s, lo, hi) {
      ReversedSorted(s, t, lo, hi);
    }
  }

  /** The reversed range, as a slice. */
  lemma ReversedSlice(s: seq<int>, t: seq<int>, lo: int, hi: int)
    requires 0 <= lo <= hi <= |s| == |t|
    requires forall p :: lo <= p < hi ==> t[p] == s[lo + hi - 1 - p]
    ensures t[lo..hi] == Reversed(s[lo..hi])
  {
    var r := Reversed(s[lo..hi]);
    forall p | 0 <= p < hi - lo ensures t[lo..hi][p] == r[p] {
      assert t[lo + p] == s[lo + hi - 1 - (lo + p)];
    }
  }

  /** A descending range, reversed, is ascending. */
  lemma ReversedSorted(s: seq<int>, t: seq<int>, lo: int, hi: int)
    requires 0 <= lo <= hi <= |s| == |t|
    requires forall p :: lo <= p < hi ==> t[p] == s[lo + hi - 1 - p]
    requires DescendingRange(s, lo, hi)
    ensures SortedRange(t, lo, hi)
  {
    forall i, j | lo <= i < j < hi ensures t[i] <= t[j] {
      assert s[lo + hi - 1 - j] >= s[lo + hi - 1 - i];
    }
  }
}
