/**
 * The LSD radix sort of the r32 sorter, `tryRadixSort` with `processDigit`,
 * on the sequential path: the buffer is allocated for the range itself, so
 * its offset is `low` and the range sits at b[0..size).
 *
 * One loop counts the three digits of every element; a digit that all
 * elements share is skipped, the others are turned into end positions of
 * their buckets and the elements are scattered from the back, between a and
 * the buffer in turn. When the sorted elements end up in the buffer they are
 * copied back.
 */
module R32Radix {
  import opened SortSpec
  import opened RadixBuckets
  import opened RadixDigits
  import Merging

  // ---------------------------------------------------------------------------
  // The state of the loops, on sequences

  /** c holds the digit counts of the first m elements of s. */
  ghost predicate Counted(c: seq<int>, s: seq<int>, f: int -> int, m: int) {
    0 <= m <= |s| && forall v :: 0 <= v < |c| ==> c[v] == Occ(s[..m], f, v)
  }

  /**
   * The cursors of the scatter loop once s[m..] has been placed: c[v] is the
   * end of what is still to be placed of bucket v, that is low plus the size
   * of the buckets before v plus the elements of digit v in s[..m].
   */
  ghost predicate Cursors(c: seq<int>, low: int, s: seq<int>, f: int -> int, h: seq<int>, m: int) {
    |c| == |h| && 0 <= m <= |s| && forall v :: 0 <= v < |c| ==> c[v] == low + Sum(h, v) + Occ(s[..m], f, v)
  }

  /**
   * Once s[m..] has been placed, slot r of bucket v, for the elements of that
   * bucket that come from s[m..], holds element r of the bucket; the buckets
   * lie one after the other from `base` on.
   */
  ghost predicate Placed(t: seq<int>, base: int, s: seq<int>, f: int -> int, h: seq<int>, m: int)
    requires 0 <= m <= |s|
  {
    forall v, r {:trigger Bucket(s, f, v)[r]} ::
      0 <= v < |h| && Occ(s[..m], f, v) <= r < Occ(s, f, v) && 0 <= base + Sum(h, v) + r < |t| ==>
        t[base + Sum(h, v) + r] == Bucket(s, f, v)[r]
  }

  /** Counting one more element adds one to the count of its digit. */
  lemma CountStep(c: seq<int>, s: seq<int>, f: int -> int, m: int)
    requires Counted(c, s, f, m) && m < |s| && 0 <= f(s[m]) < |c|
    ensures Counted(c[f(s[m]) := c[f(s[m])] + 1], s, f, m + 1)
  {
    var c2 := c[f(s[m]) := c[f(s[m])] + 1];
    forall v | 0 <= v < |c2| ensures c2[v] == Occ(s[..m + 1], f, v) {
      OccSnoc(s, f, m, v);
    }
  }

  /** Counts of all of s whose digits are in range are its count array. */
  lemma CountedAll(c: seq<int>, s: seq<int>, f: int -> int, n: int)
    requires n == |s| && Counted(c, s, f, n) && InRadix(s, f, |c|)
    ensures Histogram(c, s, f, |c|)
  {
    assert s[..|s|] == s;
  }

  /**
   * Taking element m back from the cursors moves the cursor of its digit v
   * down by one, to k: the slot of m in its bucket.
   */
  lemma CursorStep(c: seq<int>, low: int, s: seq<int>, f: int -> int, h: seq<int>, m: int, v: int, k: int)
    requires Cursors(c, low, s, f, h, m + 1) && 0 <= m && v == f(s[m]) && 0 <= v < |c| && k == c[v] - 1
    ensures k == low + Sum(h, v) + Occ(s[..m], f, v)
    ensures Cursors(c[v := k], low, s, f, h, m)
  {
    var c2 := c[v := k];
    forall w | 0 <= w < |c2| ensures c2[w] == low + Sum(h, w) + Occ(s[..m], f, w) {
      OccSnoc(s, f, m, w);
    }
  }

  /** Before the scatter loop the cursors are at the ends of the buckets. */
  lemma CursorsStart(c: seq<int>, low: int, s: seq<int>, f: int -> int, h: seq<int>, radix: int)
    requires Histogram(h, s, f, radix) && |c| == radix
    requires forall v :: 0 <= v < |c| ==> c[v] == low + Sum(h, v + 1)
    ensures Cursors(c, low, s, f, h, |s|)
  {
    assert s[..|s|] == s;
  }

  /** The bucket sizes add up in order: the buckets before v end no later than those before w. */
  lemma SumOrder(h: seq<int>, s: seq<int>, f: int -> int, radix: int, v: int, w: int)
    requires Histogram(h, s, f, radix) && 0 <= v <= w <= radix
    ensures 0 <= Sum(h, v) <= Sum(h, w) <= |s|
  {
    SumBounds(h, s, f, radix);
  }

  /**
   * Placing element m, from the back, at slot p, where the cursor of its
   * digit points, keeps the placed elements where they are: the slot is in
   * range and no other placed element is there.
   */
  lemma ScatterStep(t: seq<int>, base: int, s: seq<int>, f: int -> int, h: seq<int>, radix: int, m: int, p: int)
    requires Histogram(h, s, f, radix) && 0 <= m < |s| && 0 <= base && base + |s| <= |t|
    requires Placed(t, base, s, f, h, m + 1)
    requires p == base + Sum(h, f(s[m])) + Occ(s[..m], f, f(s[m]))
    ensures base <= p < base + |s|
    ensures Placed(t[p := s[m]], base, s, f, h, m)
  {
    var v := f(s[m]);
    BucketAt(s, f, m);
    SlotInRange(h, s, f, radix, v, Occ(s[..m], f, v));
    var t2 := t[p := s[m]];
    forall w, r | 0 <= w < |h| && Occ(s[..m], f, w) <= r < Occ(s, f, w) && 0 <= base + Sum(h, w) + r < |t2|
      ensures t2[base + Sum(h, w) + r] == Bucket(s, f, w)[r]
    {
      ScatterKeeps(t, base, s, f, h, radix, m, w, r);
    }
  }

  /** One slot of ScatterStep: the new element's own slot, or a slot placed before and left alone. */
  lemma ScatterKeeps(t: seq<int>, base: int, s: seq<int>, f: int -> int, h: seq<int>, radix: int, m: int, w: int, r: int)
    requires Histogram(h, s, f, radix) && 0 <= m < |s| && 0 <= base && base + |s| <= |t|
    requires Placed(t, base, s, f, h, m + 1)
    requires 0 <= w < |h| && Occ(s[..m], f, w) <= r < Occ(s, f, w)
    ensures 0 <= base + Sum(h, w) + r < |t|
    ensures 0 <= base + Sum(h, f(s[m])) + Occ(s[..m], f, f(s[m])) < |t|
    ensures t[base + Sum(h, f(s[m])) + Occ(s[..m], f, f(s[m])) := s[m]][base + Sum(h, w) + r] == Bucket(s, f, w)[r]
  {
    var v := f(s[m]);
    var o := Occ(s[..m], f, v);
    BucketAt(s, f, m);
    SlotInRange(h, s, f, radix, w, r);
    SlotInRange(h, s, f, radix, v, o);
    if w != v || r != o {
      ScatterOther(t, base, s, f, h, radix, m, w, r);
    }
  }

  /** A slot placed before is not the new element's slot, and keeps its element. */
  lemma ScatterOther(t: seq<int>, base: int, s: seq<int>, f: int -> int, h: seq<int>, radix: int, m: int, w: int, r: int)
    requires Histogram(h, s, f, radix) && 0 <= m < |s| && 0 <= base && base + |s| <= |t|
    requires Placed(t, base, s, f, h, m + 1)
    requires 0 <= w < |h| && Occ(s[..m], f, w) <= r < Occ(s, f, w)
    requires w != f(s[m]) || r != Occ(s[..m], f, f(s[m]))
    ensures 0 <= base + Sum(h, w) + r < |t|
    ensures base + Sum(h, w) + r != base + Sum(h, f(s[m])) + Occ(s[..m], f, f(s[m]))
    ensures t[base + Sum(h, w) + r] == Bucket(s, f, w)[r]
  {
    SlotInRange(h, s, f, radix, w, r);
    SlotPlacedBefore(s, f, m, w, r);
    PlacedAt(t, base, s, f, h, m + 1, w, r);
    SlotDistinct(h, s, f, radix, m, w, r);
  }

  /** A slot of digit w at or after the elements of w in s[..m], other than the slot of s[m], was placed before. */
  lemma SlotPlacedBefore(s: seq<int>, f: int -> int, m: int, w: int, r: int)
    requires 0 <= m < |s| && Occ(s[..m], f, w) <= r
    requires w != f(s[m]) || r != Occ(s[..m], f, f(s[m]))
    ensures Occ(s[..m + 1], f, w) <= r
  {
    OccSnoc(s, f, m, w);
  }

  /** One slot that Placed speaks of. */
  lemma PlacedAt(t: seq<int>, base: int, s: seq<int>, f: int -> int, h: seq<int>, m: int, w: int, r: int)
    requires 0 <= m <= |s| && Placed(t, base, s, f, h, m)
    requires 0 <= w < |h| && Occ(s[..m], f, w) <= r < Occ(s, f, w) && 0 <= base + Sum(h, w) + r < |t|
    ensures t[base + Sum(h, w) + r] == Bucket(s, f, w)[r]
  {
  }

  /** Two different slots of the buckets are at different positions. */
  lemma SlotDistinct(h: seq<int>, s: seq<int>, f: int -> int, radix: int, m: int, w: int, r: int)
    requires Histogram(h, s, f, radix) && 0 <= m < |s|
    requires 0 <= w < |h| && 0 <= r < Occ(s, f, w)
    requires w != f(s[m]) || r != Occ(s[..m], f, f(s[m]))
    ensures Sum(h, w) + r != Sum(h, f(s[m])) + Occ(s[..m], f, f(s[m]))
  {
    var v := f(s[m]);
    var o := Occ(s[..m], f, v);
    BucketAt(s, f, m);
    if w < v {
      SlotsApart(h, s, f, radix, w, r, v, o);
    } else if w > v {
      SlotsApart(h, s, f, radix, v, o, w, r);
    }
  }

  /** A slot of bucket w lies within the range. */
  lemma SlotInRange(h: seq<int>, s: seq<int>, f: int -> int, radix: int, w: int, r: int)
    requires Histogram(h, s, f, radix) && 0 <= w < radix && 0 <= r < h[w]
    ensures 0 <= Sum(h, w) + r < |s|
  {
    SumOrder(h, s, f, radix, w + 1, radix);
    SumOrder(h, s, f, radix, 0, w);
  }

  /** A slot of bucket v lies before every slot of a later bucket w. */
  lemma SlotsApart(h: seq<int>, s: seq<int>, f: int -> int, radix: int, v: int, o: int, w: int, r: int)
    requires Histogram(h, s, f, radix) && 0 <= v < w < radix && 0 <= o < h[v] && 0 <= r
    ensures Sum(h, v) + o < Sum(h, w) + r
  {
    SumOrder(h, s, f, radix, v + 1, w);
    assert Sum(h, v + 1) == Sum(h, v) + h[v];
  }

  /** Once every element is placed, bucket k lies at its place after the buckets before it. */
  lemma PlacedBucket(t: seq<int>, base: int, s: seq<int>, f: int -> int, h: seq<int>, radix: int, j: int, k: int)
    requires Histogram(h, s, f, radix) && 0 <= j < radix && k == j + 1 && 0 <= base && base + |s| <= |t|
    requires Placed(t, base, s, f, h, 0)
    ensures 0 <= Sum(h, j) <= Sum(h, k) <= |s|
    ensures t[base + Sum(h, j)..base + Sum(h, k)] == Bucket(s, f, j)
  {
    SumOrder(h, s, f, radix, j, k);
    var lo, hi := base + Sum(h, j), base + Sum(h, k);
    assert Sum(h, k) == Sum(h, j) + h[j];
    var b := Bucket(s, f, j);
    assert |b| == h[j];
    assert s[..0] == [];
    assert Occ(s[..0], f, j) == 0;
    forall r | 0 <= r < |b| ensures t[lo + r] == b[r] {
      PlacedAt(t, base, s, f, h, 0, j, r);
    }
    SliceFrom(t, lo, b);
    assert hi == lo + |b|;
  }

  /** The buckets below k are those below j followed by bucket j, for k = j + 1. */
  lemma BucketsNext(s: seq<int>, f: int -> int, j: int, k: int)
    requires 0 <= j && k == j + 1
    ensures Buckets(s, f, k) == Buckets(s, f, j) + Bucket(s, f, j)
  {
  }

  /** A slice whose elements are those of b, one by one, is b. */
  lemma SliceFrom(t: seq<int>, lo: int, b: seq<int>)
    requires 0 <= lo && lo + |b| <= |t|
    requires forall r :: 0 <= r < |b| ==> t[lo + r] == b[r]
    ensures t[lo..lo + |b|] == b
  {
    forall r | 0 <= r < |b| ensures t[lo..lo + |b|][r] == b[r] {
      assert t[lo..lo + |b|][r] == t[lo + r];
    }
  }

  /** Once every element is placed, the buckets below k fill the first slots in order. */
  lemma {:induction false} PlacedPrefix(t: seq<int>, base: int, s: seq<int>, f: int -> int, h: seq<int>, radix: int, k: int)
    requires Histogram(h, s, f, radix) && 0 <= k <= radix && 0 <= base && base + |s| <= |t|
    requires Placed(t, base, s, f, h, 0)
    ensures 0 <= Sum(h, k) <= |s|
    ensures t[base..base + Sum(h, k)] == Buckets(s, f, k)
    decreases k
  {
    SumOrder(h, s, f, radix, k, k);
    if k > 0 {
      var j := k - 1;
      PlacedPrefix(t, base, s, f, h, radix, j);
      PlacedBucket(t, base, s, f, h, radix, j, k);
      SliceJoin(t, base, base + Sum(h, j), base + Sum(h, k));
      BucketsNext(s, f, j, k);
    }
  }

  /** Two adjacent slices join into one. */
  lemma SliceJoin(t: seq<int>, i: int, j: int, k: int)
    requires 0 <= i <= j <= k <= |t|
    ensures t[i..k] == t[i..j] + t[j..k]
  {
  }

  /** Once every element is placed, the slots hold the result of the counting pass. */
  lemma PlacedAll(t: seq<int>, base: int, top: int, s: seq<int>, f: int -> int, h: seq<int>, radix: int, n: int)
    requires Histogram(h, s, f, radix) && 0 <= base && top == base + |s| <= |t|
    requires n == 0 && Placed(t, base, s, f, h, n)
    ensures t[base..top] == Buckets(s, f, radix)
  {
    SumBounds(h, s, f, radix);
    PlacedPrefix(t, base, s, f, h, radix, radix);
  }

  /** Before the counting loop every count is zero. */
  lemma CountedStart(c: seq<int>, s: seq<int>, f: int -> int)
    requires forall v :: 0 <= v < |c| ==> c[v] == 0
    ensures Counted(c, s, f, 0)
  {
    assert s[..0] == [];
  }

  /** Before the scatter loop nothing is placed. */
  lemma PlacedStart(t: seq<int>, base: int, s: seq<int>, f: int -> int, h: seq<int>)
    ensures Placed(t, base, s, f, h, |s|)
  {
    assert s[..|s|] == s;
  }

  // ---------------------------------------------------------------------------
  // The loops of tryRadixSort and processDigit

  /** One digit of one step of the counting loop: `++count[digit of x]`. */
  method Bump(count: array<int>, d: Digit, x: int, ghost s: seq<int>, ghost m: int)
    requires count.Length == Radix(d) && Counted(count[..], s, DigitFn(d), m) && m < |s| && s[m] == x
    modifies count
    ensures Counted(count[..], s, DigitFn(d), m + 1)
  {
    var v := DigitOf(d, x);
    ghost var c := count[..];
    count[v] := count[v] + 1;
    assert DigitFn(d)(s[m]) == v;
    CountStep(c, s, DigitFn(d), m);
    assert count[..] == c[v := c[v] + 1];
  }

  /**
   * The counting loop of tryRadixSort: one pass over a[low..high) fills the
   * count arrays of the three digits.
   */
  method CountDigits(a: array<int>, low: int, high: int, count1: array<int>, count2: array<int>, count3: array<int>)
    requires 0 <= low <= high <= a.Length
    requires count1.Length == 1024 && count2.Length == 2048 && count3.Length == 2048
    requires count1 != count2 && count1 != count3 && count2 != count3
    requires a != count1 && a != count2 && a != count3
    requires forall v :: 0 <= v < count1.Length ==> count1[v] == 0
    requires forall v :: 0 <= v < count2.Length ==> count2[v] == 0
    requires forall v :: 0 <= v < count3.Length ==> count3[v] == 0
    modifies count1, count2, count3
    ensures Histogram(count1[..], a[low..high], DigitFn(First), 1024)
    ensures Histogram(count2[..], a[low..high], DigitFn(Second), 2048)
    ensures Histogram(count3[..], a[low..high], DigitFn(Third), 2048)
  {
    ghost var s := a[low..high];
    CountedStart(count1[..], s, DigitFn(First));
    CountedStart(count2[..], s, DigitFn(Second));
    CountedStart(count3[..], s, DigitFn(Third));
    var i := low;
    ghost var m := 0;
    while i < high
      invariant i == low + m && 0 <= m <= |s|
      invariant Counted(count1[..], s, DigitFn(First), m)
      invariant Counted(count2[..], s, DigitFn(Second), m)
      invariant Counted(count3[..], s, DigitFn(Third), m)
    {
      var x := a[i];
      assert s[m] == x;
      Bump(count1, First, x, s, m);
      Bump(count2, Second, x, s, m);
      Bump(count3, Third, x, s, m);
      i := i + 1;
      m := m + 1;
    }
    DigitsInRadix(s, First);
    DigitsInRadix(s, Second);
    DigitsInRadix(s, Third);
    CountedAll(count1[..], s, DigitFn(First), m);
    CountedAll(count2[..], s, DigitFn(Second), m);
    CountedAll(count3[..], s, DigitFn(Third), m);
  }

  /**
   * The skip test of processDigit: scanning the counts in order, one equal
   * to `total` before any positive one means the digit can be skipped.
   */
  method CanSkip(count: array<int>, total: int) returns (skip: bool)
    ensures skip <==> SkipFound(count[..], total)
  {
    var i := 0;
    while i < count.Length
      invariant 0 <= i <= count.Length
      invariant forall w :: 0 <= w < i ==> count[w] <= 0 && count[w] != total
    {
      if count[i] == total {
        assert count[..][i] == total;
        return true;
      }
      if count[i] > 0 {
        return false;
      }
      i := i + 1;
    }
    return false;
  }

  /**
   * The histogram loop of processDigit: `count[0] += low`, then every count
   * adds the one before it, so count[v] becomes the end of bucket v.
   */
  method Accumulate(count: array<int>, low: int)
    requires count.Length > 0
    modifies count
    ensures forall v :: 0 <= v < count.Length ==> count[v] == low + Sum(old(count[..]), v + 1)
  {
    ghost var h := count[..];
    count[0] := count[0] + low;
    var i := 1;
    while i < count.Length
      invariant 1 <= i <= count.Length
      invariant forall v :: 0 <= v < i ==> count[v] == low + Sum(h, v + 1)
      invariant forall v :: i <= v < count.Length ==> count[v] == h[v]
    {
      count[i] := count[i] + count[i - 1];
      i := i + 1;
    }
  }

  /**
   * processDigit: false, with the counts left alone, when the skip test
   * succeeds; otherwise true, with every count turned into the end of its
   * bucket, offset by low.
   */
  method ProcessDigit(count: array<int>, total: int, low: int) returns (process: bool)
    requires count.Length > 0
    modifies count
    ensures process <==> !SkipFound(old(count[..]), total)
    ensures !process ==> count[..] == old(count[..])
    ensures process ==> forall v :: 0 <= v < count.Length ==> count[v] == low + Sum(old(count[..]), v + 1)
  {
    var skip := CanSkip(count, total);
    if skip {
      return false;
    }
    Accumulate(count, low);
    return true;
  }

  /**
   * One step of a scatter loop, with i already moved down to the last of the
   * n elements of s still to place: `dst[--count[digit of src[i]] - shift] = src[i]`.
   */
  method Place(src: array<int>, i: int, dst: array<int>, shift: int, count: array<int>, d: Digit,
               ghost s: seq<int>, ghost h: seq<int>, ghost low: int, ghost sLo: int, ghost n: int, ghost orig: seq<int>,
               ghost base: int)
    returns (ghost p: int, ghost n2: int)
    requires src != dst && count != src && count != dst
    requires 0 <= sLo && 0 < n <= |s| && i == sLo + n - 1 && sLo + |s| <= src.Length && src[sLo..sLo + |s|] == s
    requires Histogram(h, s, DigitFn(d), Radix(d))
    requires base == low - shift && 0 <= base && base + |s| <= dst.Length
    requires Cursors(count[..], low, s, DigitFn(d), h, n)
    requires Placed(dst[..], base, s, DigitFn(d), h, n)
    requires SameOutside(dst[..], orig, base, base + |s|)
    modifies dst, count
    ensures n2 == n - 1
    ensures Cursors(count[..], low, s, DigitFn(d), h, n2)
    ensures Placed(dst[..], base, s, DigitFn(d), h, n2)
    ensures base <= p < base + |s| && dst[..] == old(dst[..])[p := src[i]]
    ensures SameOutside(dst[..], orig, base, base + |s|)
  {
    n2 := n - 1;
    var x := src[i];
    var v := DigitOf(d, x);
    assert s[n2] == x;
    assert DigitFn(d)(s[n2]) == v;
    ghost var c, t := count[..], dst[..];
    var k := Decrement(count, v);
    CursorStep(c, low, s, DigitFn(d), h, n2, v, k);
    var q := k - shift;
    ScatterStep(t, base, s, DigitFn(d), h, Radix(d), n2, q);
    Store(dst, q, x);
    p := q;
    UpdateInside(t, orig, base, base + |s|, p, x);
  }

  /** `--count[v]`: the cursor of v moves down by one, and its new value is returned. */
  method Decrement(count: array<int>, v: int) returns (k: int)
    requires 0 <= v < count.Length
    modifies count
    ensures k == old(count[..])[v] - 1 && count[..] == old(count[..])[v := k]
  {
    count[v] := count[v] - 1;
    k := count[v];
  }

  /** `dst[p] = x`, with the new content of the array stated as a sequence. */
  method Store(dst: array<int>, p: int, x: int)
    requires 0 <= p < dst.Length
    modifies dst
    ensures dst[..] == old(dst[..])[p := x]
  {
    dst[p] := x;
  }

  /**
   * A scatter loop of tryRadixSort: from the back of src[sLo..sHi), every
   * element goes to the slot below the cursor of its digit, which it moves
   * down. With the cursors at the ends of the buckets, offset by low, the
   * slots from low - shift on receive the counting pass of s.
   */
  method Scatter(src: array<int>, sLo: int, sHi: int, dst: array<int>, shift: int, count: array<int>, d: Digit,
                 ghost s: seq<int>, ghost h: seq<int>, low: int, ghost dLo: int, ghost dHi: int)
    requires src != dst && count != src && count != dst
    requires 0 <= sLo && sHi == sLo + |s| <= src.Length && src[sLo..sHi] == s
    requires Histogram(h, s, DigitFn(d), Radix(d)) && count.Length == Radix(d)
    requires forall v :: 0 <= v < count.Length ==> count[v] == low + Sum(h, v + 1)
    requires dLo == low - shift && dHi == dLo + |s| && 0 <= dLo && dHi <= dst.Length
    modifies dst, count
    ensures dst[dLo..dHi] == Buckets(s, DigitFn(d), Radix(d))
    ensures SameOutside(dst[..], old(dst[..]), dLo, dHi)
  {
    CursorsStart(count[..], low, s, DigitFn(d), h, Radix(d));
    PlacedStart(dst[..], dLo, s, DigitFn(d), h);
    var i := sHi;
    ghost var n := |s|;
    while i > sLo
      invariant i == sLo + n && 0 <= n <= |s|
      invariant Cursors(count[..], low, s, DigitFn(d), h, n)
      invariant Placed(dst[..], dLo, s, DigitFn(d), h, n)
      invariant SameOutside(dst[..], old(dst[..]), dLo, dHi)
    {
      i := i - 1;
      ghost var p: int;
      p, n := Place(src, i, dst, shift, count, d, s, h, low, sLo, n, old(dst[..]), dLo);
    }
    PlacedAll(dst[..], dLo, dHi, s, DigitFn(d), h, Radix(d), n);
  }

  /**
   * The count array of digit d after processDigit on the counts h of `size`
   * elements: the digit is processed unless one value has all of them, and
   * then every count is the end of its bucket, offset by low.
   */
  ghost predicate Prepared(count: array<int>, d: Digit, low: int, size: int, process: bool, h: seq<int>)
    reads count
  {
    count.Length == Radix(d) == |h| && (process <==> !SkipFound(h, size)) &&
    (process ==> forall v :: 0 <= v < count.Length ==> count[v] == low + Sum(h, v + 1))
  }

  /**
   * The pass of digit d in tryRadixSort. `inB` says whether the elements,
   * cur, are in the buffer or in a[low..high). The pass is skipped when
   * processDigit found that every element has the same digit d; otherwise
   * the elements are scattered to the other array. Either way they end up in
   * order of the keys up to d.
   */
  method Pass(a: array<int>, b: array<int>, low: int, high: int, count: array<int>, d: Digit,
              process: bool, inB: bool, ghost cur: seq<int>, ghost h: seq<int>) returns (ghost next: seq<int>)
    requires a != b && count != a && count != b
    requires 0 <= low <= high <= a.Length && b.Length == high - low
    requires (if inB then b[..] else a[low..high]) == cur
    requires SortedBelow(cur, d)
    requires Histogram(h, cur, DigitFn(d), Radix(d)) && |cur| == high - low
    requires Prepared(count, d, low, high - low, process, h)
    modifies a, b, count
    ensures (if inB != process then b[..] else a[low..high]) == next
    ensures SortedUpTo(next, d) && multiset(next) == multiset(cur) && |next| == |cur|
    ensures SameOutside(a[..], old(a[..]), low, high)
  {
    if process {
      next := ScatterPass(a, b, low, high, count, d, inB, cur, h);
    } else {
      SkipPass(cur, h, d);
      next := cur;
    }
  }

  /** A skipped pass: every element has the same digit d, so the keys below d already order them up to d. */
  lemma SkipPass(cur: seq<int>, h: seq<int>, d: Digit)
    requires SortedBelow(cur, d) && Histogram(h, cur, DigitFn(d), Radix(d)) && SkipFound(h, |cur|)
    ensures SortedUpTo(cur, d)
  {
    SkipMeansOneDigit(h, cur, DigitFn(d), Radix(d));
    var v :| 0 <= v < Radix(d) && OneDigit(cur, DigitFn(d), v);
    DigitSkip(cur, d, v);
  }

  /** A pass that is not skipped scatters the elements to the other array, in buckets of digit d. */
  method ScatterPass(a: array<int>, b: array<int>, low: int, high: int, count: array<int>, d: Digit,
                     inB: bool, ghost cur: seq<int>, ghost h: seq<int>) returns (ghost next: seq<int>)
    requires a != b && count != a && count != b
    requires 0 <= low <= high <= a.Length && b.Length == high - low
    requires (if inB then b[..] else a[low..high]) == cur
    requires SortedBelow(cur, d)
    requires Histogram(h, cur, DigitFn(d), Radix(d)) && count.Length == Radix(d)
    requires forall v :: 0 <= v < count.Length ==> count[v] == low + Sum(h, v + 1)
    modifies a, b, count
    ensures (if inB then a[low..high] else b[..]) == next
    ensures SortedUpTo(next, d) && multiset(next) == multiset(cur) && |next| == |cur|
    ensures SameOutside(a[..], old(a[..]), low, high)
  {
    next := Buckets(cur, DigitFn(d), Radix(d));
    DigitPass(cur, d);
    BucketsPerm(cur, DigitFn(d), Radix(d));
    if inB {
      ScatterToA(a, b, low, high, count, d, cur, h);
    } else {
      ScatterToB(a, b, low, high, count, d, cur, h);
    }
  }

  /** The scatter loop from the buffer to a[low..high), `a[--count[digit of b[--i]]] = b[i]`. */
  method ScatterToA(a: array<int>, b: array<int>, low: int, high: int, count: array<int>, d: Digit,
                    ghost cur: seq<int>, ghost h: seq<int>)
    requires a != b && count != a && count != b
    requires 0 <= low <= high <= a.Length && b.Length == high - low && b[..] == cur
    requires Histogram(h, cur, DigitFn(d), Radix(d)) && count.Length == Radix(d)
    requires forall v :: 0 <= v < count.Length ==> count[v] == low + Sum(h, v + 1)
    modifies a, count
    ensures a[low..high] == Buckets(cur, DigitFn(d), Radix(d))
    ensures SameOutside(a[..], old(a[..]), low, high)
  {
    assert b[0..high - low] == b[..];
    Scatter(b, 0, high - low, a, 0, count, d, cur, h, low, low, high);
  }

  /** The scatter loop from a[low..high) to the buffer, `b[--count[digit of a[--i]] - offset] = a[i]`. */
  method ScatterToB(a: array<int>, b: array<int>, low: int, high: int, count: array<int>, d: Digit,
                    ghost cur: seq<int>, ghost h: seq<int>)
    requires a != b && count != a && count != b
    requires 0 <= low <= high <= a.Length && b.Length == high - low && a[low..high] == cur
    requires Histogram(h, cur, DigitFn(d), Radix(d)) && count.Length == Radix(d)
    requires forall v :: 0 <= v < count.Length ==> count[v] == low + Sum(h, v + 1)
    modifies b, count
    ensures b[..] == Buckets(cur, DigitFn(d), Radix(d))
  {
    Scatter(a, low, high, b, low, count, d, cur, h, low, 0, high - low);
    assert b[0..high - low] == b[..];
  }

  /**
   * The counting loop of tryRadixSort and the three calls of processDigit:
   * h1, h2 and h3 are the digit counts of a[low..high), and every count
   * array is ready for its pass.
   */
  method CountAndDetect(a: array<int>, low: int, high: int, count1: array<int>, count2: array<int>, count3: array<int>)
    returns (process1: bool, process2: bool, process3: bool, ghost h1: seq<int>, ghost h2: seq<int>, ghost h3: seq<int>)
    requires 0 <= low <= high <= a.Length
    requires count1.Length == 1024 && count2.Length == 2048 && count3.Length == 2048
    requires count1 != count2 && count1 != count3 && count2 != count3
    requires a != count1 && a != count2 && a != count3
    requires forall v :: 0 <= v < 1024 ==> count1[v] == 0
    requires forall v :: 0 <= v < 2048 ==> count2[v] == 0 && count3[v] == 0
    modifies count1, count2, count3
    ensures Histogram(h1, a[low..high], DigitFn(First), 1024) && Prepared(count1, First, low, high - low, process1, h1)
    ensures Histogram(h2, a[low..high], DigitFn(Second), 2048) && Prepared(count2, Second, low, high - low, process2, h2)
    ensures Histogram(h3, a[low..high], DigitFn(Third), 2048) && Prepared(count3, Third, low, high - low, process3, h3)
  {
    CountDigits(a, low, high, count1, count2, count3);
    h1, h2, h3 := count1[..], count2[..], count3[..];
    process1 := ProcessDigit(count1, high - low, low);
    assert Prepared(count1, First, low, high - low, process1, h1);
    process2 := ProcessDigit(count2, high - low, low);
    assert Prepared(count2, Second, low, high - low, process2, h2);
    process3 := ProcessDigit(count3, high - low, low);
  }

  /**
   * The three passes of tryRadixSort, from the elements s in a[low..high)
   * with the digit counts h1, h2 and h3. Each pass that is not skipped moves
   * the elements to the other array; in the end they are in the buffer when
   * an odd number of passes ran, in order of their whole keys.
   */
  method Passes(a: array<int>, b: array<int>, low: int, high: int,
                count1: array<int>, count2: array<int>, count3: array<int>,
                process1: bool, process2: bool, process3: bool,
                ghost s: seq<int>, ghost h1: seq<int>, ghost h2: seq<int>, ghost h3: seq<int>)
    returns (ghost c3: seq<int>)
    requires a != b && count1 != a && count1 != b && count2 != a && count2 != b && count3 != a && count3 != b
    requires count1 != count2 && count1 != count3 && count2 != count3
    requires 0 <= low <= high <= a.Length && b.Length == high - low && a[low..high] == s
    requires Histogram(h1, s, DigitFn(First), 1024) && Prepared(count1, First, low, high - low, process1, h1)
    requires Histogram(h2, s, DigitFn(Second), 2048) && Prepared(count2, Second, low, high - low, process2, h2)
    requires Histogram(h3, s, DigitFn(Third), 2048) && Prepared(count3, Third, low, high - low, process3, h3)
    modifies a, b, count1, count2, count3
    ensures (if (process1 != process2) != process3 then b[..] else a[low..high]) == c3
    ensures SortedUpTo(c3, Third) && multiset(c3) == multiset(s)
    ensures SameOutside(a[..], old(a[..]), low, high)
  {
    NothingBelowFirst(s);
    ghost var c1 := Pass(a, b, low, high, count1, First, process1, false, s, h1);
    NextDigit(c1, First);
    HistogramPerm(h2, s, c1, DigitFn(Second), 2048);
    ghost var c2 := Pass(a, b, low, high, count2, Second, process2, process1, c1, h2);
    NextDigit(c2, Second);
    HistogramPerm(h3, s, c2, DigitFn(Third), 2048);
    c3 := Pass(a, b, low, high, count3, Third, process3, process1 != process2, c2, h3);
  }

  /**
   * The copy back of tryRadixSort: when the elements c ended up in the
   * buffer, `System.arraycopy` puts them in a[low..high); otherwise they are
   * there already.
   */
  method CopyBack(a: array<int>, b: array<int>, low: int, high: int, buffered: bool, ghost c: seq<int>)
    requires a != b && 0 <= low <= high <= a.Length && b.Length == high - low
    requires (if buffered then b[..] else a[low..high]) == c
    modifies a
    ensures a[low..high] == c
    ensures SameOutside(a[..], old(a[..]), low, high)
  {
    if buffered {
      Merging.ArrayCopy(b, 0, a, low, high - low);
      assert b[0..high - low] == b[..];
    }
  }

  /**
   * After the three passes a[low..high) holds the elements s of the range in
   * order of their whole biased keys, which for Java ints is ascending order.
   */
  lemma RadixResult(t: seq<int>, orig: seq<int>, low: int, high: int, s: seq<int>, c: seq<int>)
    requires SameOutside(t, orig, low, high) && s == orig[low..high] && t[low..high] == c
    requires AllInt32(s) && multiset(c) == multiset(s) && SortedUpTo(c, Third)
    ensures SortedRange(t, low, high) && multiset(t) == multiset(orig)
  {
    AllInt32Perm(s, c);
    SortedByKey(c);
    SortedRangeSlice(t, low, high);
    RangePerm(t, orig, low, high);
  }

  /**
   * tryRadixSort on a[low..high), with the outcome of the buffer allocation
   * as the parameter `canAllocate`: without a buffer nothing happens and the
   * result is false; otherwise the three digit passes run, the elements are
   * copied back when they end up in the buffer, and a[low..high) is sorted.
   */
  method TryRadixSort(a: array<int>, low: int, high: int, canAllocate: bool) returns (sorted: bool)
    requires 0 <= low <= high <= a.Length
    requires forall i :: low <= i < high ==> IsInt32(a[i])
    modifies a
    ensures sorted == canAllocate
    ensures sorted ==> SortedRange(a[..], low, high)
    ensures multiset(a[..]) == multiset(old(a[..]))
    ensures SameOutside(a[..], old(a[..]), low, high)
    ensures !sorted ==> a[..] == old(a[..])
  {
    var size := high - low;
    if !canAllocate {
      return false;
    }
    var b := new int[size];
    var count1 := new int[1024](_ => 0);
    var count2 := new int[2048](_ => 0);
    var count3 := new int[2048](_ => 0);
    ghost var s0 := a[low..high];
    assert AllInt32(s0);
    ghost var h1, h2, h3;
    var process1, process2, process3;
    process1, process2, process3, h1, h2, h3 := CountAndDetect(a, low, high, count1, count2, count3);
    ghost var c3 := Passes(a, b, low, high, count1, count2, count3, process1, process2, process3, s0, h1, h2, h3);
    CopyBack(a, b, low, high, (process1 != process2) != process3, c3);
    RadixResult(a[..], old(a[..]), low, high, s0, c3);
    return true;
  }
}
