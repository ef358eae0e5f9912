/**
 * The int sorter of the legacy Arrays class: Bentley and McIlroy's tuned
 * quicksort `sort1` with its helpers `swap`, `vecswap` and `med3`, and the
 * public entry points `sort(int[])` and `sort(int[], from, to)` with the
 * argument check `rangeCheck`. Ranges of fewer than 7 elements are sorted by
 * insertion with adjacent swaps; larger ones are split three ways around a
 * pivot value v (the median of three, or the pseudomedian of nine above 40
 * elements) into `< v`, `== v` and `> v`, and the outer two parts are sorted
 * recursively.
 */
module LegacyArrays {
  import opened SortSpec

  /** Ranges below this size are sorted by insertion. */
  const INSERTION_SORT_THRESHOLD: int := 7
  /** Above this size the pivot is the pseudomedian of nine elements. */
  const NINTHER_THRESHOLD: int := 40

  /** How `rangeCheck` ends: normally, or with one of its two exceptions. */
  datatype Check = InRange | IllegalArgument(fromIndex: int, toIndex: int) | IndexOutOfBounds(index: int)

  /**
   * `rangeCheck(arrayLen, fromIndex, toIndex)`: an IllegalArgumentException
   * exactly when fromIndex > toIndex; otherwise an
   * ArrayIndexOutOfBoundsException, carrying the offending index, exactly
   * when fromIndex < 0 or toIndex > arrayLen; otherwise it returns normally.
   */
  function RangeCheck(arrayLen: int, fromIndex: int, toIndex: int): (r: Check)
    ensures r.IllegalArgument? <==> fromIndex > toIndex
    ensures r.IndexOutOfBounds? <==> fromIndex <= toIndex && (fromIndex < 0 || toIndex > arrayLen)
    ensures r.IndexOutOfBounds? ==> r.index == (if fromIndex < 0 then fromIndex else toIndex)
    ensures r == InRange <==> 0 <= fromIndex <= toIndex <= arrayLen
  {
    if fromIndex > toIndex then IllegalArgument(fromIndex, toIndex)
    else if fromIndex < 0 then IndexOutOfBounds(fromIndex)
    else if toIndex > arrayLen then IndexOutOfBounds(toIndex)
    else InRange
  }

  /**
   * `med3(x, a, b, c)`: one of the three indices, whose element is the middle
   * one of x[a], x[b], x[c] once they are ordered.
   */
  function Med3(x: seq<int>, a: int, b: int, c: int): (m: int)
    requires 0 <= a < |x| && 0 <= b < |x| && 0 <= c < |x|
    ensures m == a || m == b || m == c
  {
    if x[a] < x[b] then
      (if x[b] < x[c] then b else if x[a] < x[c] then c else a)
    else
      (if x[b] > x[c] then b else if x[a] > x[c] then c else a)
  }

  /**
   * The element `med3` picks is the middle one of the three: with the
   * smallest and the largest of them it makes up the three elements, and it
   * lies between those two.
   */
  lemma Med3IsMedian(x: seq<int>, a: int, b: int, c: int)
    requires 0 <= a < |x| && 0 <= b < |x| && 0 <= c < |x|
    ensures multiset{x[a], x[b], x[c]} ==
            multiset{Min(Min(x[a], x[b]), x[c]), x[Med3(x, a, b, c)], Max(Max(x[a], x[b]), x[c])}
    ensures Min(Min(x[a], x[b]), x[c]) <= x[Med3(x, a, b, c)] <= Max(Max(x[a], x[b]), x[c])
  {
    var p, q, r := x[a], x[b], x[c];
    if p < q {
      if q < r {
        assert Med3(x, a, b, c) == b;
      } else if p < r {
        assert Med3(x, a, b, c) == c;
      } else {
        assert Med3(x, a, b, c) == a;
      }
    } else {
      if q > r {
        assert Med3(x, a, b, c) == b;
      } else if p > r {
        assert Med3(x, a, b, c) == c;
      } else {
        assert Med3(x, a, b, c) == a;
      }
    }
  }

  /**
   * The index of the partition element of `sort1` on x[off..off+len): the
   * middle one for small ranges, the median of the first, middle and last
   * element above 7 elements, and above 40 the median of three such medians
   * over spread-out triples.
   */
  function PivotIndex(x: seq<int>, off: int, len: int): (m: int)
    requires 0 <= off && 0 < len && off + len <= |x|
    ensures off <= m < off + len
  {
    var m := off + len / 2;
    if len > INSERTION_SORT_THRESHOLD then
      var l, n := off, off + len - 1;
      if len > NINTHER_THRESHOLD then
        var s := len / 8;
        assert 8 * s <= len && 2 * (len / 2) <= len;
        Med3(x, Med3(x, l, l + s, l + 2 * s), Med3(x, m - s, m, m + s), Med3(x, n - 2 * s, n - s, n))
      else
        Med3(x, l, m, n)
    else
      m
  }

  /** `int v = x[m]`: the partition element of `sort1`, one of the elements of the range. */
  method PivotValue(x: array<int>, off: int, len: int, ghost s0: seq<int>) returns (v: int)
    requires 0 <= off && 0 < len && off + len <= x.Length && x[..] == s0
    ensures v in multiset(s0[off..off + len])
  {
    var m := PivotIndex(x[..], off, len);
    v := x[m];
    assert s0[off..off + len][m - off] == v;
  }

  /** `swap(x, a, b)`: exchanges x[a] and x[b] and nothing else. */
  method Swap(x: array<int>, a: int, b: int)
    requires 0 <= a < x.Length && 0 <= b < x.Length
    modifies x
    ensures x[..] == old(x[..])[a := old(x[b])][b := old(x[a])]
    ensures multiset(x[..]) == multiset(old(x[..]))
  {
    SwapPerm(x[..], a, b);
    x[a], x[b] := x[b], x[a];
  }

  /**
   * t is s with the disjoint blocks s[a..a+n) and s[b..b+n) exchanged,
   * element by element, and everything else as it was.
   */
  ghost predicate Exchanged(t: seq<int>, s: seq<int>, a: int, b: int, n: int) {
    |t| == |s| && 0 <= a && 0 <= n && a + n <= b && b + n <= |s| &&
    (forall p :: a <= p < a + n ==> t[p] == s[p - a + b]) &&
    (forall p :: b <= p < b + n ==> t[p] == s[p - b + a]) &&
    (forall p {:trigger t[p]} :: 0 <= p < |s| && !(a <= p < a + n) && !(b <= p < b + n) ==> t[p] == s[p])
  }

  /** One more exchange, of u[a + i] with u[b + i], extends the exchanged blocks by one element. */
  lemma ExchangeStep(u: seq<int>, t: seq<int>, s: seq<int>, a: int, b: int, i: int, n: int)
    requires Exchanged(u, s, a, b, i) && i < n && b + n <= |s| && a + n <= b
    requires t == u[a + i := u[b + i]][b + i := u[a + i]]
    ensures Exchanged(t, s, a, b, i + 1)
  {
    forall p | a <= p < a + i ensures t[p] == s[p - a + b] {
      assert t[p] == u[p];
    }
    forall p | b <= p < b + i ensures t[p] == s[p - b + a] {
      assert t[p] == u[p];
    }
    forall p | 0 <= p < |s| && !(a <= p < a + i + 1) && !(b <= p < b + i + 1) ensures t[p] == s[p] {
      assert t[p] == u[p];
    }
  }

  /**
   * `vecswap(x, a, b, n)`: exchanges the blocks x[a..a+n) and x[b..b+n),
   * here the lower block first and the two disjoint, as in both calls of
   * `sort1`. The elements of x stay the same.
   */
  method VecSwap(x: array<int>, a: int, b: int, n: int, ghost s: seq<int>)
    requires 0 <= a && 0 <= n && a + n <= b && b + n <= x.Length && x[..] == s
    modifies x
    ensures Exchanged(x[..], s, a, b, n) && multiset(x[..]) == multiset(s)
  {
    var i, j, k := 0, a, b;
    while i < n
      invariant 0 <= i <= n && j == a + i && k == b + i
      invariant Exchanged(x[..], s, a, b, i) && multiset(x[..]) == multiset(s)
    {
      ghost var u := x[..];
      Swap(x, j, k);
      ExchangeStep(u, x[..], s, a, b, i, n);
      i, j, k := i + 1, j + 1, k + 1;
    }
  }

  // ---------------------------------------------------------------------------
  // Insertion sort of small ranges

  /**
   * The branch of `sort1` for fewer than 7 elements: every x[i] in turn is
   * swapped down while its left neighbour is larger. The range ends sorted,
   * as a permutation, and a range of at most one element is left as it is.
   */
  method SmallSort(x: array<int>, off: int, len: int)
    requires 0 <= off && 0 <= len && off + len <= x.Length
    modifies x
    ensures SortedRange(x[..], off, off + len)
    ensures multiset(x[..]) == multiset(old(x[..])) && SameOutside(x[..], old(x[..]), off, off + len)
    ensures len <= 1 ==> x[..] == old(x[..])
  {
    var i := off;
    while i < len + off
      invariant off <= i <= off + len
      invariant SortedRange(x[..], off, i)
      invariant multiset(x[..]) == multiset(old(x[..])) && SameOutside(x[..], old(x[..]), off, off + len)
      invariant len <= 1 ==> x[..] == old(x[..])
    {
      ghost var s := x[..];
      SinkDown(x, off, i, s);
      SameOutsideTrans(x[..], s, old(x[..]), off, off + len, off, i + 1);
      i := i + 1;
    }
  }

  /** The inner loop of the small-range branch: x[i] sinks into the sorted x[off..i). */
  method SinkDown(x: array<int>, off: int, i: int, ghost s0: seq<int>)
    requires 0 <= off <= i < x.Length && x[..] == s0 && SortedRange(s0, off, i)
    modifies x
    ensures SortedRange(x[..], off, i + 1)
    ensures multiset(x[..]) == multiset(s0) && SameOutside(x[..], s0, off, i + 1)
    ensures i == off ==> x[..] == s0
  {
    var j := i;
    while j > off && x[j - 1] > x[j]
      invariant off <= j <= i
      invariant Sinking(x[..], off, j, i)
      invariant multiset(x[..]) == multiset(s0) && SameOutside(x[..], s0, off, i + 1)
      invariant j == i ==> x[..] == s0
      decreases j
    {
      ghost var s := x[..];
      Swap(x, j, j - 1);
      SinkStep(s0, s, x[..], off, j, i);
      j := j - 1;
    }
    Sunk(x[..], off, j, i);
  }

  /**
   * The state of the inner loop: x[off..j) and x[j..i] are sorted, and every
   * element before j is at most every element after j.
   */
  ghost predicate Sinking(s: seq<int>, off: int, j: int, i: int) {
    0 <= off <= j <= i < |s| &&
    SortedRange(s, off, j) && SortedRange(s, j, i + 1) &&
    (forall k, l :: off <= k < j < l <= i ==> s[k] <= s[l])
  }

  /** Swapping x[j] below a larger left neighbour keeps the state, one place lower. */
  lemma SinkStep(s0: seq<int>, s: seq<int>, t: seq<int>, off: int, j: int, i: int)
    requires Sinking(s, off, j, i) && off < j && s[j - 1] > s[j]
    requires multiset(s) == multiset(s0) && SameOutside(s, s0, off, i + 1)
    requires t == s[j := s[j - 1]][j - 1 := s[j]] && multiset(t) == multiset(s)
    ensures Sinking(t, off, j - 1, i)
    ensures multiset(t) == multiset(s0) && SameOutside(t, s0, off, i + 1)
  {
    forall k, l | off <= k < l < j - 1 ensures t[k] <= t[l] {
      assert t[k] == s[k] && t[l] == s[l];
    }
    SameOutsideAt(t, s, off, i + 1);
    SameOutsideTrans(t, s, s0, off, i + 1, off, i + 1);
  }

  /** Once x[j] stops sinking, x[off..i] is sorted. */
  lemma Sunk(s: seq<int>, off: int, j: int, i: int)
    requires Sinking(s, off, j, i) && (j == off || s[j - 1] <= s[j])
    ensures SortedRange(s, off, i + 1)
  {
  }

  // ---------------------------------------------------------------------------
  // Three-way partitioning

  /**
   * The state of the partition loop of `sort1` on x[off..n) around v:
   * x[off..a) and x(d..n) hold v, x[a..b) is below v, x(c..d] above v, and
   * x[b..c] is still to be scanned. The range is a permutation of s0 and
   * nothing outside it has changed.
   */
  ghost predicate Partitioning(s: seq<int>, s0: seq<int>, off: int, n: int, v: int, a: int, b: int, c: int, d: int) {
    0 <= off <= a <= b <= c + 1 <= d + 1 <= n <= |s| &&
    AllEqual(s, off, a, v) && AllLess(s, a, b, v) && AllGreater(s, c + 1, d + 1, v) && AllEqual(s, d + 1, n, v) &&
    multiset(s) == multiset(s0) && SameOutside(s, s0, off, n)
  }

  /** Exchanging x[i] and x[j] inside [off, n) keeps the permutation and the frame. */
  lemma SwapKeeps(s: seq<int>, t: seq<int>, s0: seq<int>, off: int, n: int, i: int, j: int)
    requires 0 <= off <= i < n && off <= j < n && n <= |s|
    requires multiset(s) == multiset(s0) && SameOutside(s, s0, off, n)
    requires t == s[i := s[j]][j := s[i]]
    ensures multiset(t) == multiset(s0) && SameOutside(t, s0, off, n)
  {
    SwapPerm(s, i, j);
    UpdateInside(s, s0, off, n, i, s[j]);
    UpdateInside(s[i := s[j]], s0, off, n, j, s[i]);
  }

  /** An element equal to v at b joins the left block of copies of v. */
  lemma LeftEqualStep(s: seq<int>, t: seq<int>, s0: seq<int>, off: int, n: int, v: int, a: int, b: int, c: int, d: int)
    requires Partitioning(s, s0, off, n, v, a, b, c, d) && b <= c && s[b] == v
    requires t == s[a := s[b]][b := s[a]]
    ensures Partitioning(t, s0, off, n, v, a + 1, b + 1, c, d)
  {
    SwapKeeps(s, t, s0, off, n, a, b);
  }

  /** The scan from the left: skip elements below v, move copies of v to the left block. */
  method ScanLeft(x: array<int>, off: int, n: int, v: int, a0: int, b0: int, c: int, d: int, ghost s0: seq<int>)
      returns (a: int, b: int)
    requires Partitioning(x[..], s0, off, n, v, a0, b0, c, d)
    modifies x
    ensures Partitioning(x[..], s0, off, n, v, a, b, c, d) && b0 <= b
    ensures b <= c ==> x[b] > v
  {
    a, b := a0, b0;
    while b <= c && x[b] <= v
      invariant Partitioning(x[..], s0, off, n, v, a, b, c, d) && b0 <= b
      decreases c + 1 - b
    {
      if x[b] == v {
        ghost var s := x[..];
        Swap(x, a, b);
        LeftEqualStep(s, x[..], s0, off, n, v, a, b, c, d);
        a := a + 1;
      }
      b := b + 1;
    }
  }

  /** An element equal to v at c joins the right block of copies of v. */
  lemma RightEqualStep(s: seq<int>, t: seq<int>, s0: seq<int>, off: int, n: int, v: int, a: int, b: int, c: int, d: int)
    requires Partitioning(s, s0, off, n, v, a, b, c, d) && b <= c && s[c] == v
    requires t == s[c := s[d]][d := s[c]]
    ensures Partitioning(t, s0, off, n, v, a, b, c - 1, d - 1)
  {
    SwapKeeps(s, t, s0, off, n, c, d);
  }

  /** The scan from the right: skip elements above v, move copies of v to the right block. */
  method ScanRight(x: array<int>, off: int, n: int, v: int, a: int, b: int, c0: int, d0: int, ghost s0: seq<int>)
      returns (c: int, d: int)
    requires Partitioning(x[..], s0, off, n, v, a, b, c0, d0)
    requires b <= c0 ==> x[b] > v
    modifies x
    ensures Partitioning(x[..], s0, off, n, v, a, b, c, d) && c <= c0
    ensures b <= c ==> x[b] > v && x[c] < v
  {
    c, d := c0, d0;
    while c >= b && x[c] >= v
      invariant Partitioning(x[..], s0, off, n, v, a, b, c, d) && c <= c0
      invariant b <= c ==> x[b] > v
      decreases c + 1 - b
    {
      if x[c] == v {
        ghost var s := x[..];
        Swap(x, c, d);
        RightEqualStep(s, x[..], s0, off, n, v, a, b, c, d);
        d := d - 1;
      }
      c := c - 1;
    }
  }

  /** An element above v at b and one below v at c change places. */
  lemma CrossStep(s: seq<int>, t: seq<int>, s0: seq<int>, off: int, n: int, v: int, a: int, b: int, c: int, d: int)
    requires Partitioning(s, s0, off, n, v, a, b, c, d) && b <= c && s[b] > v && s[c] < v
    requires t == s[b := s[c]][c := s[b]]
    ensures b < c && Partitioning(t, s0, off, n, v, a, b + 1, c - 1, d)
  {
    SwapKeeps(s, t, s0, off, n, b, c);
  }

  /**
   * The partition loop of `sort1`, which establishes `v* (<v)* (>v)* v*` on
   * x[off..n): it ends with b == c + 1.
   */
  method PartitionLoop(x: array<int>, off: int, n: int, v: int, ghost s0: seq<int>) returns (a: int, b: int, c: int, d: int)
    requires 0 <= off < n <= x.Length && x[..] == s0
    modifies x
    ensures Partitioning(x[..], s0, off, n, v, a, b, c, d) && b == c + 1
  {
    a, b, c, d := off, off, n - 1, n - 1;
    while true
      invariant Partitioning(x[..], s0, off, n, v, a, b, c, d)
      decreases c + 1 - b
    {
      a, b := ScanLeft(x, off, n, v, a, b, c, d, s0);
      c, d := ScanRight(x, off, n, v, a, b, c, d, s0);
      if b > c {
        break;
      }
      ghost var s := x[..];
      Swap(x, b, c);
      CrossStep(s, x[..], s0, off, n, v, a, b, c, d);
      b, c := b + 1, c - 1;
    }
  }

  /**
   * The range x[off..n) split three ways around v: x[off..l) below v,
   * x[l..h) equal to v, x[h..n) above v.
   */
  ghost predicate ThreeWay(s: seq<int>, off: int, l: int, h: int, n: int, v: int) {
    0 <= off <= l <= h <= n <= |s| &&
    AllLess(s, off, l, v) && AllEqual(s, l, h, v) && AllGreater(s, h, n, v)
  }

  /**
   * The first vecswap, of the `min(a - off, b - a)` elements at both ends of
   * x[off..b), brings the elements below v to the front and leaves
   * everything from b on alone.
   */
  lemma LeftSwapped(s: seq<int>, t: seq<int>, off: int, a: int, b: int, k: int, v: int)
    requires 0 <= off <= a <= b <= |s| && k == Min(a - off, b - a)
    requires AllEqual(s, off, a, v) && AllLess(s, a, b, v)
    requires Exchanged(t, s, off, b - k, k)
    ensures AllLess(t, off, off + (b - a), v) && AllEqual(t, off + (b - a), b, v)
    ensures forall p :: 0 <= p < |s| && !(off <= p < b) ==> t[p] == s[p]
  {
  }

  /**
   * The second vecswap, of the `min(d - c, n - d - 1)` elements at both ends
   * of x[b..n) with b == c + 1, brings the elements above v to the end and
   * leaves everything before b alone.
   */
  lemma RightSwapped(s: seq<int>, t: seq<int>, b: int, d: int, n: int, k: int, v: int)
    requires 0 <= b <= d + 1 <= n <= |s| && k == Min(d - (b - 1), n - d - 1)
    requires AllGreater(s, b, d + 1, v) && AllEqual(s, d + 1, n, v)
    requires Exchanged(t, s, b, n - k, k)
    ensures AllEqual(t, b, n - (d - (b - 1)), v) && AllGreater(t, n - (d - (b - 1)), n, v)
    ensures forall p :: 0 <= p < |s| && !(b <= p < n) ==> t[p] == s[p]
  {
  }

  /**
   * The partition of `sort1` with its two vecswaps: x[off..n) is permuted
   * into a part below v, the copies of v, and a part above v. As v is an
   * element of the range, at least one copy of it ends in the middle.
   */
  method Partition(x: array<int>, off: int, n: int, v: int, ghost s0: seq<int>) returns (l: int, h: int)
    requires 0 <= off < n <= x.Length && x[..] == s0 && v in multiset(s0[off..n])
    modifies x
    ensures ThreeWay(x[..], off, l, h, n, v) && l < h
    ensures multiset(x[..]) == multiset(s0) && SameOutside(x[..], s0, off, n)
  {
    var a, b, c, d := PartitionLoop(x, off, n, v, s0);
    l, h := MoveEquals(x, off, n, v, a, b, c, d, s0);
  }

  /**
   * The two vecswaps after the partition loop, which move the copies of v
   * from both ends of x[off..n) to its middle.
   */
  method MoveEquals(x: array<int>, off: int, n: int, v: int, a: int, b: int, c: int, d: int, ghost s0: seq<int>)
      returns (l: int, h: int)
    requires Partitioning(x[..], s0, off, n, v, a, b, c, d) && b == c + 1 && v in multiset(s0[off..n])
    modifies x
    ensures ThreeWay(x[..], off, l, h, n, v) && l < h
    ensures multiset(x[..]) == multiset(s0) && SameOutside(x[..], s0, off, n)
  {
    EqualsRemain(x[..], s0, off, n, v, a, b, c, d);
    l := off + (b - a);
    LeftVecSwap(x, off, a, b, c, d, n, v, s0);
    RightVecSwap(x, off, l, b, d, n, v, s0);
    h := n - (d - c);
  }

  /** `vecswap(x, off, b - s, s)` with `s = min(a - off, b - a)`: the copies of v at the front move next to b. */
  method LeftVecSwap(x: array<int>, off: int, a: int, b: int, c: int, d: int, n: int, v: int, ghost s0: seq<int>)
    requires Partitioning(x[..], s0, off, n, v, a, b, c, d) && b == c + 1
    modifies x
    ensures AllLess(x[..], off, off + (b - a), v) && AllEqual(x[..], off + (b - a), b, v)
    ensures AllGreater(x[..], b, d + 1, v) && AllEqual(x[..], d + 1, n, v)
    ensures multiset(x[..]) == multiset(s0) && SameOutside(x[..], s0, off, n)
  {
    ghost var s1 := x[..];
    var k := Min(a - off, b - a);
    VecSwap(x, off, b - k, k, s1);
    LeftStep(s0, s1, x[..], off, a, b, c, d, n, v, k);
  }

  /** `vecswap(x, b, n - s, s)` with `s = min(d - c, n - d - 1)`: the copies of v at the back move next to b. */
  method RightVecSwap(x: array<int>, off: int, l: int, b: int, d: int, n: int, v: int, ghost s0: seq<int>)
    requires 0 <= off <= l <= b <= d + 1 <= n <= x.Length
    requires AllLess(x[..], off, l, v) && AllEqual(x[..], l, b, v)
    requires AllGreater(x[..], b, d + 1, v) && AllEqual(x[..], d + 1, n, v)
    requires multiset(x[..]) == multiset(s0) && SameOutside(x[..], s0, off, n)
    modifies x
    ensures ThreeWay(x[..], off, l, n - (d - (b - 1)), n, v)
    ensures multiset(x[..]) == multiset(s0) && SameOutside(x[..], s0, off, n)
  {
    ghost var s2 := x[..];
    var k2 := Min(d - (b - 1), n - d - 1);
    VecSwap(x, b, n - k2, k2, s2);
    RightStep(s0, s2, x[..], off, l, b, d, n, v, k2);
  }

  /** After the first vecswap: the part below v, then the copies of v, then the rest as the loop left it. */
  lemma LeftStep(s0: seq<int>, s1: seq<int>, s2: seq<int>, off: int, a: int, b: int, c: int, d: int, n: int, v: int, k: int)
    requires Partitioning(s1, s0, off, n, v, a, b, c, d) && b == c + 1 && k == Min(a - off, b - a)
    requires Exchanged(s2, s1, off, b - k, k) && multiset(s2) == multiset(s1)
    ensures AllLess(s2, off, off + (b - a), v) && AllEqual(s2, off + (b - a), b, v)
    ensures AllGreater(s2, b, d + 1, v) && AllEqual(s2, d + 1, n, v)
    ensures multiset(s2) == multiset(s0) && SameOutside(s2, s0, off, n)
  {
    LeftSwapped(s1, s2, off, a, b, k, v);
    SameOutsideAt(s2, s1, off, n);
    SameOutsideTrans(s2, s1, s0, off, n, off, n);
  }

  /** After the second vecswap: the three-way split of the range, a permutation inside it. */
  lemma RightStep(s0: seq<int>, s2: seq<int>, s3: seq<int>, off: int, l: int, b: int, d: int, n: int, v: int, k2: int)
    requires 0 <= off <= l <= b <= d + 1 <= n <= |s2|
    requires AllLess(s2, off, l, v) && AllEqual(s2, l, b, v) && AllGreater(s2, b, d + 1, v) && AllEqual(s2, d + 1, n, v)
    requires multiset(s2) == multiset(s0) && SameOutside(s2, s0, off, n)
    requires k2 == Min(d - (b - 1), n - d - 1) && Exchanged(s3, s2, b, n - k2, k2) && multiset(s3) == multiset(s2)
    ensures ThreeWay(s3, off, l, n - (d - (b - 1)), n, v)
    ensures multiset(s3) == multiset(s0) && SameOutside(s3, s0, off, n)
  {
    RightSwapped(s2, s3, b, d, n, k2, v);
    SameOutsideAt(s3, s2, off, n);
    SameOutsideTrans(s3, s2, s0, off, n, off, n);
  }

  /** At the end of the loop the blocks of copies of v are not both empty. */
  lemma EqualsRemain(s: seq<int>, s0: seq<int>, off: int, n: int, v: int, a: int, b: int, c: int, d: int)
    requires Partitioning(s, s0, off, n, v, a, b, c, d) && b == c + 1 && v in multiset(s0[off..n])
    ensures off < a || d < n - 1
  {
    PermRange(s, s0, off, n);
    assert v in multiset(s[off..n]);
    var k :| 0 <= k < n - off && s[off..n][k] == v;
    assert s[off + k] == v;
  }

  // ---------------------------------------------------------------------------
  // The sorter

  /**
   * `sort1(x, off, len)`: sorts x[off..off+len) into ascending order as a
   * permutation of its old contents, changing nothing outside it; ranges of
   * at most one element are left as they are. The recursive calls are made
   * only on parts of more than one element.
   */
  method Sort1(x: array<int>, off: int, len: int)
    requires 0 <= off && 0 <= len && off + len <= x.Length
    modifies x
    ensures SortedRange(x[..], off, off + len)
    ensures multiset(x[..]) == multiset(old(x[..])) && SameOutside(x[..], old(x[..]), off, off + len)
    ensures len <= 1 ==> x[..] == old(x[..])
    decreases len, 2
  {
    if len < INSERTION_SORT_THRESHOLD {
      SmallSort(x, off, len);
    } else {
      SortLarge(x, off, len);
    }
  }

  /** `sort1` on a range of at least INSERTION_SORT_THRESHOLD elements: partition, then sort both outer parts. */
  method SortLarge(x: array<int>, off: int, len: int)
    requires 0 <= off && INSERTION_SORT_THRESHOLD <= len && off + len <= x.Length
    modifies x
    ensures SortedRange(x[..], off, off + len)
    ensures multiset(x[..]) == multiset(old(x[..])) && SameOutside(x[..], old(x[..]), off, off + len)
    decreases len, 1
  {
    ghost var s0 := x[..];
    var v := PivotValue(x, off, len, s0);
    var n := off + len;
    var l, h := Partition(x, off, n, v, s0);
    SortOuterParts(x, off, l, h, n, v, s0);
  }

  /**
   * The two recursive calls of `sort1` after the partition, on the parts
   * below and above v; together they sort the whole range.
   */
  method SortOuterParts(x: array<int>, off: int, l: int, h: int, n: int, v: int, ghost s0: seq<int>)
    requires ThreeWay(x[..], off, l, h, n, v) && l < h
    requires multiset(x[..]) == multiset(s0) && SameOutside(x[..], s0, off, n)
    modifies x
    ensures SortedRange(x[..], off, n)
    ensures multiset(x[..]) == multiset(s0) && SameOutside(x[..], s0, off, n)
    decreases n - off, 0
  {
    ghost var s1 := x[..];
    SortPart(x, off, l);
    ghost var s2 := x[..];
    SortPart(x, h, n);
    ThreeWaySorted(s0, s1, s2, x[..], off, l, h, n, v);
  }

  /** The recursive call of `sort1` on x[lo..hi), made only when the part has more than one element. */
  method SortPart(x: array<int>, lo: int, hi: int)
    requires 0 <= lo <= hi <= x.Length
    modifies x
    ensures SortedRange(x[..], lo, hi)
    ensures multiset(x[..]) == multiset(old(x[..])) && SameOutside(x[..], old(x[..]), lo, hi)
    decreases hi - lo, 3
  {
    var s := hi - lo;
    if s > 1 {
      Sort1(x, lo, s);
    }
  }

  /**
   * Sorting the part below v and then the part above v, each in place, sorts
   * the whole three-way split range.
   */
  lemma ThreeWaySorted(s0: seq<int>, s1: seq<int>, s2: seq<int>, s3: seq<int>, off: int, l: int, h: int, n: int, v: int)
    requires ThreeWay(s1, off, l, h, n, v)
    requires multiset(s1) == multiset(s0) && SameOutside(s1, s0, off, n)
    requires multiset(s2) == multiset(s1) && SameOutside(s2, s1, off, l) && SortedRange(s2, off, l)
    requires multiset(s3) == multiset(s2) && SameOutside(s3, s2, h, n) && SortedRange(s3, h, n)
    ensures SortedRange(s3, off, n)
    ensures multiset(s3) == multiset(s0) && SameOutside(s3, s0, off, n)
  {
    BoundsAfter(s1, s2, off, l, v);
    assert s2[l..] == s1[l..];
    forall p | l <= p < n ensures s2[p] == s1[p] {
      assert s2[p] == s2[l..][p - l] && s1[p] == s1[l..][p - l];
    }
    BoundsAfter(s2, s3, h, n, v);
    assert s3[..h] == s2[..h];
    forall p | 0 <= p < h ensures s3[p] == s2[p] {
      assert s3[p] == s3[..h][p] && s2[p] == s2[..h][p];
    }
    SameOutsideTrans(s3, s2, s1, off, n, h, n);
    SameOutsideTrans(s2, s1, s0, off, n, off, l);
    SameOutsideTrans(s3, s2, s0, off, n, h, n);
  }

  /** `sort(int[] a)`: sorts the whole array. */
  method SortAll(a: array<int>)
    modifies a
    ensures SortedRange(a[..], 0, a.Length) && multiset(a[..]) == multiset(old(a[..]))
  {
    Sort1(a, 0, a.Length);
  }

  /**
   * `sort(int[] a, fromIndex, toIndex)`: the range check, then `sort1` on
   * a[fromIndex..toIndex). When the check throws, a is not touched; an empty
   * range leaves a as it is.
   */
  method SortRange(a: array<int>, fromIndex: int, toIndex: int) returns (r: Check)
    modifies a
    ensures r == RangeCheck(a.Length, fromIndex, toIndex)
    ensures r != InRange ==> a[..] == old(a[..])
    ensures r == InRange ==> SortedRange(a[..], fromIndex, toIndex)
    ensures r == InRange ==> multiset(a[..]) == multiset(old(a[..])) && SameOutside(a[..], old(a[..]), fromIndex, toIndex)
    ensures fromIndex == toIndex ==> a[..] == old(a[..])
  {
    r := RangeCheck(a.Length, fromIndex, toIndex);
    if r != InRange {
      return;
    }
    Sort1(a, fromIndex, toIndex - fromIndex);
  }
}
