/**
 * The insertion steps shared by the insertion sorts of both sorter versions: an
 * element held in a variable is inserted into a sorted part by moving a hole
 * down, one or two places at a time, until an element not larger than it is
 * found. Plain insertion sort checks the start of the range on every step; the
 * mixed insertion sorts make no index check, because the element just before
 * the range (the sentinel) is not larger than any element in it and stops
 * every scan. The simple phase and the pair phase of the mixed sorts are the
 * same code in both versions and are modelled here once.
 */
module InsertionSteps {
  import opened SortSpec

  /** s[lo..hi) is ascending once the g positions of the holes [h, h + g) are skipped. */
  ghost predicate SortedAround(s: seq<int>, lo: int, h: int, g: int, hi: int)
    requires 0 <= lo && hi <= |s|
  {
    forall x, y :: lo <= x < y < hi && !(h <= x < h + g) && !(h <= y < h + g) ==> s[x] <= s[y]
  }

  /**
   * s is o with the block o[i..h) moved d places up, to s[i + d..h + d); the d
   * places the block left (the holes) still hold their old contents.
   */
  ghost predicate Shifted(s: seq<int>, o: seq<int>, i: int, h: int, d: int) {
    |s| == |o| && 0 <= i && 0 <= d &&
    forall j {:trigger s[j]} :: 0 <= j < |s| ==> s[j] == (if i + d <= j < h + d then o[j - d] else o[j])
  }

  /** One more element of the block moved up by d places. */
  lemma ShiftedStep(s: seq<int>, o: seq<int>, i: int, h: int, d: int)
    requires 1 <= i && 1 <= d && i + d - 1 < |s|
    requires Shifted(s, o, i, h, d) && i <= h
    ensures Shifted(s[i + d - 1 := s[i - 1]], o, i - 1, h, d)
  {
    var t := s[i + d - 1 := s[i - 1]];
    forall j | 0 <= j < |t| ensures t[j] == (if i - 1 + d <= j < h + d then o[j - d] else o[j]) {
      if j == i + d - 1 {
        assert s[i - 1] == o[i - 1];
      }
    }
  }

  /** Writing v into the hole at i, once the block moved up holds exactly the elements above v, sorts the range. */
  lemma InsertedSorted(s: seq<int>, o: seq<int>, lo: int, i: int, h0: int, hi: int, v: int)
    requires 0 <= lo <= i <= h0 < hi <= |o|
    requires Shifted(s, o, i, h0, 1)
    requires SortedAround(o, lo, h0, 1, hi) && AllAtLeast(o, h0 + 1, hi, v)
    requires AllGreater(o, i, h0, v) && (i == lo || o[i - 1] <= v)
    ensures SortedRange(s[i := v], lo, hi)
  {
    var t := s[i := v];
    forall x, y | lo <= x < y < hi ensures t[x] <= t[y] {
      var ox := if x < i then o[x] else if x == i then v else if x <= h0 then o[x - 1] else o[x];
      var oy := if y < i then o[y] else if y == i then v else if y <= h0 then o[y - 1] else o[y];
      assert t[x] == ox && t[y] == oy;
      if y == i && x < i - 1 {
        assert o[x] <= o[i - 1];
      }
    }
  }

  /** The inserted range holds the old elements with the one at the hole replaced by v. */
  lemma InsertedPerm(s: seq<int>, o: seq<int>, lo: int, i: int, h0: int, v: int)
    requires 0 <= lo <= i <= h0 < |o|
    requires Shifted(s, o, i, h0, 1)
    ensures multiset(s[i := v]) == multiset(o[h0 := v])
    ensures SameOutside(s[i := v], o, lo, h0 + 1)
  {
    InsertedAs(s, o, i, h0, v);
    MovedPerm(o, i, h0, v);
    SameOutsideAt(s[i := v], o, lo, h0 + 1);
  }

  /** The shifted block with v in the hole, written as slices of o. */
  lemma InsertedAs(s: seq<int>, o: seq<int>, i: int, h0: int, v: int)
    requires 0 <= i <= h0 < |o| && Shifted(s, o, i, h0, 1)
    ensures s[i := v] == o[..i] + [v] + o[i..h0] + o[h0 + 1..]
  {
    var t := s[i := v];
    var w := o[..i] + [v] + o[i..h0] + o[h0 + 1..];
    forall j | 0 <= j < |t| ensures t[j] == w[j] {
      if i < j <= h0 {
        assert w[j] == o[i..h0][j - i - 1];
      } else if j > h0 {
        assert w[j] == o[h0 + 1..][j - h0 - 1];
      }
    }
    assert t == w;
  }

  /** Moving v from place h0 down to place i, above o[i..h0), keeps the elements. */
  lemma MovedPerm(o: seq<int>, i: int, h0: int, v: int)
    requires 0 <= i <= h0 < |o|
    ensures multiset(o[..i] + [v] + o[i..h0] + o[h0 + 1..]) == multiset(o[h0 := v])
  {
    assert o[h0 := v] == o[..i] + o[i..h0] + [v] + o[h0 + 1..];
  }

  /**
   * The scan of `while (v < a[i - 1]) a[i] = a[--i];`: moves the hole from h0
   * down past every element larger than v; the scan is stopped by a[lo - 1].
   */
  method InsertScan(a: array<int>, lo: int, h0: int, v: int) returns (i: int)
    requires 0 < lo <= h0 < a.Length
    requires a[lo - 1] <= v
    modifies a
    ensures lo <= i <= h0
    ensures Shifted(a[..], old(a[..]), i, h0, 1)
    ensures AllGreater(old(a[..]), i, h0, v) && (i == lo || old(a[i - 1]) <= v)
  {
    i := h0;
    ghost var o := a[..];
    ghost var s := o;
    while v < a[i - 1]
      invariant s == a[..] && lo <= i <= h0 && s[lo - 1] == o[lo - 1]
      invariant Shifted(s, o, i, h0, 1) && AllGreater(o, i, h0, v)
      decreases i
    {
      ShiftedStep(s, o, i, h0, 1);
      a[i] := a[i - 1];
      s := s[i := s[i - 1]];
      i := i - 1;
    }
  }

  /**
   * `while (v < a[i - 1]) a[i] = a[--i]; a[i] = v;`: inserts v through the hole
   * at h0 into a[lo..hi), sorted around the hole, where every element above the
   * hole is at least v and a[lo - 1] is not larger than v.
   */
  method InsertDown(a: array<int>, lo: int, h0: int, hi: int, v: int)
    requires 0 < lo <= h0 < hi <= a.Length
    requires SortedAround(a[..], lo, h0, 1, hi) && AllAtLeast(a[..], h0 + 1, hi, v)
    requires a[lo - 1] <= v
    modifies a
    ensures SortedRange(a[..], lo, hi)
    ensures multiset(a[..]) == multiset(old(a[..])[h0 := v])
    ensures SameOutside(a[..], old(a[..]), lo, h0 + 1)
  {
    var i := InsertScan(a, lo, h0, v);
    InsertedSorted(a[..], old(a[..]), lo, i, h0, hi, v);
    InsertedPerm(a[..], old(a[..]), lo, i, h0, v);
    a[i] := v;
  }

  /**
   * The scan with a bound check, `while (i > lo && v < a[i - 1]) a[i] = a[--i];`,
   * used where no sentinel is known: it also stops at the start of the range.
   */
  method InsertScanChecked(a: array<int>, lo: int, h0: int, v: int) returns (i: int)
    requires 0 <= lo <= h0 < a.Length
    modifies a
    ensures lo <= i <= h0
    ensures Shifted(a[..], old(a[..]), i, h0, 1)
    ensures AllGreater(old(a[..]), i, h0, v) && (i == lo || old(a[i - 1]) <= v)
  {
    i := h0;
    ghost var o := a[..];
    ghost var s := o;
    while lo < i && v < a[i - 1]
      invariant s == a[..] && lo <= i <= h0
      invariant Shifted(s, o, i, h0, 1) && AllGreater(o, i, h0, v)
      decreases i
    {
      ShiftedStep(s, o, i, h0, 1);
      a[i] := a[i - 1];
      s := s[i := s[i - 1]];
      i := i - 1;
    }
  }

  /** The insertion of v through the hole at h0 with the bound-checked scan; needs no sentinel. */
  method InsertChecked(a: array<int>, lo: int, h0: int, hi: int, v: int)
    requires 0 <= lo <= h0 < hi <= a.Length
    requires SortedAround(a[..], lo, h0, 1, hi) && AllAtLeast(a[..], h0 + 1, hi, v)
    modifies a
    ensures SortedRange(a[..], lo, hi)
    ensures multiset(a[..]) == multiset(old(a[..])[h0 := v])
    ensures SameOutside(a[..], old(a[..]), lo, h0 + 1)
  {
    var i := InsertScanChecked(a, lo, h0, v);
    InsertedSorted(a[..], old(a[..]), lo, i, h0, hi, v);
    InsertedPerm(a[..], old(a[..]), lo, i, h0, v);
    a[i] := v;
  }

  /** A sorted range is sorted around a hole just past its end. */
  lemma SortedAroundEnd(s: seq<int>, lo: int, h: int)
    requires 0 <= lo <= h < |s| && SortedRange(s, lo, h)
    ensures SortedAround(s, lo, h, 1, h + 1)
  {
  }

  /** A sorted range stays sorted when the next element is not smaller than its last. */
  lemma SortedExtend(s: seq<int>, lo: int, h: int)
    requires 0 <= lo <= h < |s| && SortedRange(s, lo, h)
    requires lo < h ==> s[h - 1] <= s[h]
    ensures SortedRange(s, lo, h + 1)
  {
    forall x, y | lo <= x < y < h + 1 ensures s[x] <= s[y] {
      if y == h && x < h - 1 {
        assert s[x] <= s[h - 1];
      }
    }
  }

  /**
   * The first scan of the pair step, `while (big < a[--i]) a[i + 2] = a[i];`:
   * moves the holes at h0, h0 + 1 down past every element larger than big.
   */
  method PairScan(a: array<int>, lo: int, h0: int, big: int) returns (i: int)
    requires 0 < lo <= h0 && h0 + 2 <= a.Length
    requires a[lo - 1] <= big
    modifies a
    ensures lo <= i <= h0
    ensures Shifted(a[..], old(a[..]), i, h0, 2)
    ensures AllGreater(old(a[..]), i, h0, big) && (i == lo || old(a[i - 1]) <= big)
  {
    i := h0;
    ghost var o := a[..];
    ghost var s := o;
    while big < a[i - 1]
      invariant s == a[..] && lo <= i <= h0 && s[lo - 1] == o[lo - 1]
      invariant Shifted(s, o, i, h0, 2) && AllGreater(o, i, h0, big)
      decreases i
    {
      ShiftedStep(s, o, i, h0, 2);
      a[i + 1] := a[i - 1];
      s := s[i + 1 := s[i - 1]];
      i := i - 1;
    }
  }

  /** After the first scan, writing big above the lower hole leaves a range sorted around that hole. */
  lemma PairPlaced(s: seq<int>, o: seq<int>, lo: int, i: int, h0: int, big: int, small: int)
    requires 0 < lo <= i <= h0 && h0 + 2 <= |o|
    requires Shifted(s, o, i, h0, 2)
    requires SortedRange(o, lo, h0) && AllGreater(o, i, h0, big) && (i == lo || o[i - 1] <= big)
    requires small <= big
    ensures SortedAround(s[i + 1 := big], lo, i, 1, h0 + 2)
    ensures AllAtLeast(s[i + 1 := big], i + 1, h0 + 2, small)
    ensures s[i + 1 := big][lo - 1] == o[lo - 1]
  {
    var t := s[i + 1 := big];
    forall x, y | lo <= x < y < h0 + 2 && x != i && y != i ensures t[x] <= t[y] {
      var ox := if x < i then o[x] else if x == i + 1 then big else o[x - 2];
      var oy := if y < i then o[y] else if y == i + 1 then big else o[y - 2];
      assert t[x] == ox && t[y] == oy;
      if y == i + 1 && x < i - 1 {
        assert o[x] <= o[i - 1];
      }
    }
  }

  /** The pair step moves the old prefix, the two elements and nothing else. */
  lemma PairPerm(s: seq<int>, o: seq<int>, lo: int, i: int, h0: int, big: int, small: int)
    requires 0 <= lo <= i <= h0 && h0 + 2 <= |o|
    requires Shifted(s, o, i, h0, 2)
    ensures multiset(s[i + 1 := big][i := small]) == multiset(o[h0 := big][h0 + 1 := small])
    ensures SameOutside(s[i + 1 := big], o, lo, h0 + 2)
  {
    var t := s[i + 1 := big][i := small];
    var w := o[..i] + [small, big] + o[i..h0] + o[h0 + 2..];
    forall j | 0 <= j < |t| ensures t[j] == w[j] {
      if i + 2 <= j < h0 + 2 {
        assert w[j] == o[i..h0][j - i - 2];
      } else if j >= h0 + 2 {
        assert w[j] == o[h0 + 2..][j - h0 - 2];
      }
    }
    assert t == w;
    assert o[h0 := big][h0 + 1 := small] == o[..i] + o[i..h0] + [big, small] + o[h0 + 2..];
    var u := s[i + 1 := big];
    assert u[..lo] == o[..lo];
    assert u[h0 + 2..] == o[h0 + 2..];
  }

  /**
   * The first half of the pair step: `big` is inserted two places at a time and
   * written above the lower hole i, which is left for `small`.
   */
  method PairFirst(a: array<int>, lo: int, h0: int, big: int, small: int) returns (i: int)
    requires 0 < lo <= h0 && h0 + 2 <= a.Length
    requires SortedRange(a[..], lo, h0)
    requires small <= big && a[lo - 1] <= small
    modifies a
    ensures lo <= i <= h0
    ensures SortedAround(a[..], lo, i, 1, h0 + 2) && AllAtLeast(a[..], i + 1, h0 + 2, small)
    ensures a[lo - 1] <= small
    ensures multiset(a[..][i := small]) == multiset(old(a[..])[h0 := big][h0 + 1 := small])
    ensures SameOutside(a[..], old(a[..]), lo, h0 + 2)
  {
    i := PairScan(a, lo, h0, big);
    PairPlaced(a[..], old(a[..]), lo, i, h0, big, small);
    PairPerm(a[..], old(a[..]), lo, i, h0, big, small);
    a[i + 1] := big;
  }

  /**
   * The pair step of the mixed insertion sorts: with a[lo..h0) sorted, inserts
   * `big` moving two places at a time, writes it, then inserts `small` from
   * that point one place at a time; a[lo..h0+2) ends sorted and holds the old
   * prefix plus the two elements.
   */
  method PairInsert(a: array<int>, lo: int, h0: int, big: int, small: int)
    requires 0 < lo <= h0 && h0 + 2 <= a.Length
    requires SortedRange(a[..], lo, h0)
    requires small <= big && a[lo - 1] <= small
    modifies a
    ensures SortedRange(a[..], lo, h0 + 2)
    ensures multiset(a[..]) == multiset(old(a[..])[h0 := big][h0 + 1 := small])
    ensures SameOutside(a[..], old(a[..]), lo, h0 + 2)
  {
    var i := PairFirst(a, lo, h0, big, small);
    ghost var t := a[..];
    InsertDown(a, lo, i, h0 + 2, small);
    SameOutsideTrans(a[..], t, old(a[..]), lo, h0 + 2, lo, i + 1);
  }

  /** One step of the simple insertion part, stopped by the sentinel a[low - 1]. */
  method SimpleStep(a: array<int>, low: int, k: int, high: int)
    requires 0 < low < k < high <= a.Length
    requires SortedRange(a[..], low, k) && HasSentinel(a[..], low, high)
    modifies a
    ensures SortedRange(a[..], low, k + 1) && HasSentinel(a[..], low, high)
    ensures multiset(a[..]) == multiset(old(a[..]))
    ensures SameOutside(a[..], old(a[..]), low, k + 1)
  {
    var ai := a[k];
    SortedAroundEnd(a[..], low, k);
    InsertDown(a, low, k, k + 1, ai);
    assert old(a[..])[k := ai] == old(a[..]);
    SentinelAfter(old(a[..]), a[..], low, high, low, k + 1);
  }

  /**
   * After an insertion that permuted v[low..h) into u, u keeps the sentinel,
   * the elements and the frame that v had with respect to s.
   */
  lemma Reinserted(v: seq<int>, u: seq<int>, s: seq<int>, low: int, high: int, h: int)
    requires 0 < low < h <= high <= |v|
    requires multiset(u) == multiset(v) && SameOutside(u, v, low, h)
    requires multiset(v) == multiset(s) && SameOutside(v, s, low, high) && HasSentinel(v, low, high)
    ensures multiset(u) == multiset(s) && SameOutside(u, s, low, high) && HasSentinel(u, low, high)
  {
    SentinelAfter(v, u, low, high, low, h);
    SameOutsideTrans(u, v, s, low, high, low, h);
  }

  /**
   * One step of the pair insertion part: a[k], a[k + 1] join the sorted
   * a[low..k), the larger one first and the smaller one from where the larger
   * one stopped; nothing moves when both are already in place.
   */
  method PairStep(a: array<int>, low: int, k: int, high: int)
    requires 0 < low < k && k + 2 <= high <= a.Length
    requires SortedRange(a[..], low, k) && HasSentinel(a[..], low, high)
    modifies a
    ensures SortedRange(a[..], low, k + 2) && HasSentinel(a[..], low, high)
    ensures multiset(a[..]) == multiset(old(a[..]))
    ensures SameOutside(a[..], old(a[..]), low, k + 2)
  {
    var a1 := a[k];
    var a2 := a[k + 1];
    if a1 > a2 {
      PairInserted(a, low, k, high, a1, a2);
    } else if a1 < a[k - 1] {
      PairInserted(a, low, k, high, a2, a1);
    } else {
      SortedExtend(a[..], low, k);
      SortedExtend(a[..], low, k + 1);
    }
  }

  /** PairInsert of the two elements a[k], a[k + 1], in either order, as a permutation keeping the sentinel. */
  method PairInserted(a: array<int>, low: int, k: int, high: int, big: int, small: int)
    requires 0 < low < k && k + 2 <= high <= a.Length
    requires SortedRange(a[..], low, k) && HasSentinel(a[..], low, high)
    requires small <= big
    requires (big == a[k] && small == a[k + 1]) || (big == a[k + 1] && small == a[k])
    modifies a
    ensures SortedRange(a[..], low, k + 2) && HasSentinel(a[..], low, high)
    ensures multiset(a[..]) == multiset(old(a[..]))
    ensures SameOutside(a[..], old(a[..]), low, k + 2)
  {
    ghost var s := a[..];
    if big == a[k] {
      assert s[k := big][k + 1 := small] == s;
    } else {
      SwapPerm(s, k, k + 1);
      assert s[k := big][k + 1 := small] == s[k := s[k + 1]][k + 1 := s[k]];
    }
    PairInsert(a, low, k, big, small);
    SentinelAfter(s, a[..], low, high, low, k + 2);
  }

  /** The simple insertion part of the mixed sorts, used when the range is too small to split. */
  method SimplePhase(a: array<int>, low: int, high: int)
    requires 0 < low <= high <= a.Length
    requires HasSentinel(a[..], low, high)
    modifies a
    ensures SortedRange(a[..], low, high)
    ensures multiset(a[..]) == multiset(old(a[..]))
    ensures SameOutside(a[..], old(a[..]), low, high)
  {
    var k := low;
    while k + 1 < high
      invariant low <= k && (low < high ==> k < high)
      invariant low < high ==> SortedRange(a[..], low, k + 1)
      invariant HasSentinel(a[..], low, high)
      invariant multiset(a[..]) == multiset(old(a[..]))
      invariant SameOutside(a[..], old(a[..]), low, high)
    {
      k := k + 1;
      ghost var before := a[..];
      SimpleStep(a, low, k, high);
      SameOutsideTrans(a[..], before, old(a[..]), low, high, low, k + 1);
    }
  }

  /** The pair insertion part: extends the sorted a[low..end) to a[low..high), two elements at a time. */
  method PairPhase(a: array<int>, low: int, end: int, high: int)
    requires 0 < low < end <= high <= a.Length && (high - end) % 2 == 0
    requires SortedRange(a[..], low, end) && HasSentinel(a[..], low, high)
    modifies a
    ensures SortedRange(a[..], low, high)
    ensures multiset(a[..]) == multiset(old(a[..]))
    ensures SameOutside(a[..], old(a[..]), low, high)
  {
    var k := end;
    while k < high
      invariant end <= k <= high && (high - k) % 2 == 0
      invariant SortedRange(a[..], low, k) && HasSentinel(a[..], low, high)
      invariant multiset(a[..]) == multiset(old(a[..]))
      invariant SameOutside(a[..], old(a[..]), low, high)
    {
      ghost var before := a[..];
      PairStep(a, low, k, high);
      SameOutsideTrans(a[..], before, old(a[..]), low, high, low, k + 2);
      k := k + 2;
    }
  }


  /** One step of insertionSort: a[k] joins the sorted a[low..k), only if it is smaller than a[k - 1]. */
  method InsertionStep(a: array<int>, low: int, k: int)
    requires 0 <= low < k < a.Length
    requires SortedRange(a[..], low, k)
    modifies a
    ensures SortedRange(a[..], low, k + 1)
    ensures multiset(a[..]) == multiset(old(a[..]))
    ensures SameOutside(a[..], old(a[..]), low, k + 1)
  {
    var ai := a[k];
    if ai < a[k - 1] {
      SortedAroundEnd(a[..], low, k);
      InsertChecked(a, low, k, k + 1, ai);
      assert old(a[..])[k := ai] == old(a[..]);
    } else {
      SortedExtend(a[..], low, k);
    }
  }

  /**
   * insertionSort: sorts a[low..high) in place; the result is a permutation of
   * the old contents and nothing outside the range changes.
   */
  method InsertionSort(a: array<int>, low: int, high: int)
    requires 0 <= low <= high <= a.Length
    modifies a
    ensures SortedRange(a[..], low, high)
    ensures multiset(a[..]) == multiset(old(a[..]))
    ensures SameOutside(a[..], old(a[..]), low, high)
  {
    var k := low;
    while k + 1 < high
      invariant low <= k && (low < high ==> k < high)
      invariant low < high ==> SortedRange(a[..], low, k + 1)
      invariant multiset(a[..]) == multiset(old(a[..]))
      invariant SameOutside(a[..], old(a[..]), low, high)
    {
      k := k + 1;
      ghost var before := a[..];
      InsertionStep(a, low, k);
      SameOutsideTrans(a[..], before, old(a[..]), low, high, low, k + 1);
    }
  }

  /**
   * Exchanging a[k] with a smaller pin a[p], p >= k - 1, keeps a[low..k) sorted
   * and, once the pin is in the hole at k, permutes the range.
   */
  lemma PinExchange(s: seq<int>, low: int, k: int, p: int, high: int)
    requires 0 < low < k < high <= |s| && k - 1 <= p < high
    requires SortedRange(s, low, k) && HasSentinel(s, low, high) && s[p] < s[k]
    ensures SortedRange(s[p := s[k]], low, k)
    ensures multiset(s[p := s[k]][k := s[p]]) == multiset(s)
    ensures HasSentinel(s[p := s[k]][k := s[p]], low, high)
    ensures SameOutside(s[p := s[k]][k := s[p]], s, low, high)
  {
    var t := s[p := s[k]];
    forall x, y | low <= x < y < k ensures t[x] <= t[y] {
      if y == p {
        assert s[x] <= s[p];
      }
    }
    SwapPerm(s, p, k);
    SentinelAfter(s, t[k := s[p]], low, high, low, high);
  }
}
