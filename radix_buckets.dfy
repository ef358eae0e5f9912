/**
 * What one stable counting pass makes of a sequence, for any digit function
 * f: the elements of digit 0, then those of digit 1, and so on, each group in
 * its old order. A pass by f keeps the elements, and applied to a sequence
 * sorted by the key below f it sorts by the key that f refines.
 */
module RadixBuckets {

  /** The elements of s whose digit is v, in their order in s. */
  ghost function Bucket(s: seq<int>, f: int -> int, v: int): seq<int>
    decreases |s|
  {
    if s == [] then []
    else
      var n := |s| - 1;
      if f(s[n]) == v then Bucket(s[..n], f, v) + [s[n]] else Bucket(s[..n], f, v)
  }

  /** The number of elements of s whose digit is v. */
  ghost function Occ(s: seq<int>, f: int -> int, v: int): nat {
    |Bucket(s, f, v)|
  }

  /** The buckets of the digit values below k, one after the other. */
  ghost function Buckets(s: seq<int>, f: int -> int, k: int): seq<int>
    requires 0 <= k
    decreases k
  {
    if k == 0 then [] else Buckets(s, f, k - 1) + Bucket(s, f, k - 1)
  }

  /** The sum h[0] + ... + h[k - 1]. */
  function Sum(h: seq<int>, k: int): int
    requires 0 <= k <= |h|
    decreases k
  {
    if k == 0 then 0 else Sum(h, k - 1) + h[k - 1]
  }

  /** Every element of s has a digit in [0, radix). */
  ghost predicate InRadix(s: seq<int>, f: int -> int, radix: int) {
    forall i :: 0 <= i < |s| ==> 0 <= f(s[i]) < radix
  }

  /** h is the count array of the digit f over s, with one entry per digit value. */
  ghost predicate Histogram(h: seq<int>, s: seq<int>, f: int -> int, radix: int) {
    |h| == radix && InRadix(s, f, radix) && forall v :: 0 <= v < radix ==> h[v] == Occ(s, f, v)
  }

  /** Every element of s has digit v. */
  ghost predicate OneDigit(s: seq<int>, f: int -> int, v: int) {
    forall i :: 0 <= i < |s| ==> f(s[i]) == v
  }

  /** s is in ascending order of key. */
  ghost predicate SortedBy(s: seq<int>, key: int -> int) {
    forall i, j :: 0 <= i < j < |s| ==> key(s[i]) <= key(s[j])
  }

  /** The key `upto` orders by the digit f first and by the key `below` among equal digits. */
  ghost predicate Refines(f: int -> int, below: int -> int, upto: int -> int) {
    forall x, y {:trigger upto(x), upto(y)} :: (f(x) < f(y) ==> upto(x) < upto(y)) &&
                   (f(x) == f(y) && below(x) <= below(y) ==> upto(x) <= upto(y))
  }

  /**
   * What the skip test of processDigit finds in the counts h: an entry equal
   * to `total` before any positive entry or any other entry equal to `total`.
   */
  ghost predicate SkipFound(h: seq<int>, total: int) {
    exists v :: 0 <= v < |h| && h[v] == total && forall w :: 0 <= w < v ==> h[w] <= 0 && h[w] != total
  }

  /** A prefix one element longer. */
  lemma PrefixSnoc(s: seq<int>, m: int)
    requires 0 <= m < |s|
    ensures s[..m + 1] == s[..m] + [s[m]]
  {
  }

  /** A non-empty sequence is its front followed by its last element. */
  lemma LastSplit(s: seq<int>)
    requires s != []
    ensures s == s[..|s| - 1] + [s[|s| - 1]]
  {
  }

  /** Appending x to s appends it to the bucket of its digit. */
  lemma BucketSnoc(s: seq<int>, x: int, f: int -> int, v: int)
    ensures f(x) == v ==> Bucket(s + [x], f, v) == Bucket(s, f, v) + [x]
    ensures f(x) != v ==> Bucket(s + [x], f, v) == Bucket(s, f, v)
  {
    assert (s + [x])[..|s|] == s;
  }

  /** Every element of the bucket of v has digit v. */
  lemma {:induction false} BucketDigits(s: seq<int>, f: int -> int, v: int)
    ensures forall i :: 0 <= i < |Bucket(s, f, v)| ==> f(Bucket(s, f, v)[i]) == v
    decreases |s|
  {
    if s != [] {
      var n := |s| - 1;
      BucketDigits(s[..n], f, v);
    }
  }

  /** Every element of the buckets below k has a digit below k. */
  lemma {:induction false} BucketsDigits(s: seq<int>, f: int -> int, k: int)
    requires 0 <= k
    ensures forall i :: 0 <= i < |Buckets(s, f, k)| ==> f(Buckets(s, f, k)[i]) < k
    decreases k
  {
    if k > 0 {
      BucketsDigits(s, f, k - 1);
      BucketDigits(s, f, k - 1);
      var l, r := Buckets(s, f, k - 1), Bucket(s, f, k - 1);
      forall i | 0 <= i < |l| + |r| ensures f((l + r)[i]) < k {
        if i < |l| {
          assert (l + r)[i] == l[i];
        } else {
          assert (l + r)[i] == r[i - |l|];
        }
      }
    }
  }

  /** The elements of a bucket are elements of s. */
  lemma {:induction false} BucketMembers(s: seq<int>, f: int -> int, v: int)
    ensures multiset(Bucket(s, f, v)) <= multiset(s)
    decreases |s|
  {
    if s != [] {
      var n := |s| - 1;
      LastSplit(s);
      BucketMembers(s[..n], f, v);
    }
  }

  /** The bucket of a prefix is a prefix of the bucket. */
  lemma {:induction false} BucketPrefix(s: seq<int>, m: int, f: int -> int, v: int)
    requires 0 <= m <= |s|
    ensures Occ(s[..m], f, v) <= Occ(s, f, v)
    ensures Bucket(s, f, v)[..Occ(s[..m], f, v)] == Bucket(s[..m], f, v)
    decreases |s|
  {
    if m < |s| {
      var n := |s| - 1;
      assert s[..n][..m] == s[..m];
      BucketPrefix(s[..n], m, f, v);
    } else {
      assert s[..m] == s;
    }
  }

  /** Element m of s comes at place Occ(s[..m]) of its bucket. */
  lemma BucketAt(s: seq<int>, f: int -> int, m: int)
    requires 0 <= m < |s|
    ensures Occ(s[..m], f, f(s[m])) < Occ(s, f, f(s[m]))
    ensures Bucket(s, f, f(s[m]))[Occ(s[..m], f, f(s[m]))] == s[m]
  {
    var v := f(s[m]);
    PrefixSnoc(s, m);
    BucketSnoc(s[..m], s[m], f, v);
    BucketPrefix(s, m + 1, f, v);
  }

  /** One more element of s adds one to the count of its digit and nothing to the others. */
  lemma OccSnoc(s: seq<int>, f: int -> int, m: int, w: int)
    requires 0 <= m < |s|
    ensures Occ(s[..m + 1], f, w) == Occ(s[..m], f, w) + (if f(s[m]) == w then 1 else 0)
  {
    PrefixSnoc(s, m);
    BucketSnoc(s[..m], s[m], f, w);
  }

  /** a + b is a + b's front, followed by b's last element. */
  lemma AppendSnoc(a: seq<int>, b: seq<int>)
    requires b != []
    ensures a + b == (a + b[..|b| - 1]) + [b[|b| - 1]]
  {
    assert b == b[..|b| - 1] + [b[|b| - 1]];
  }

  /** Counts add up over a concatenation. */
  lemma {:induction false} OccAppend(a: seq<int>, b: seq<int>, f: int -> int, v: int)
    ensures Occ(a + b, f, v) == Occ(a, f, v) + Occ(b, f, v)
    decreases |b|
  {
    if b == [] {
      assert a + b == a;
    } else {
      var n := |b| - 1;
      LastSplit(b);
      AppendSnoc(a, b);
      BucketSnoc(a + b[..n], b[n], f, v);
      BucketSnoc(b[..n], b[n], f, v);
      OccAppend(a, b[..n], f, v);
    }
  }

  /** t without its element j keeps the other elements. */
  lemma Pick(t: seq<int>, j: int)
    requires 0 <= j < |t|
    ensures t == t[..j] + [t[j]] + t[j + 1..]
    ensures multiset(t[..j] + t[j + 1..]) == multiset(t) - multiset{t[j]}
  {
    assert t == t[..j] + [t[j]] + t[j + 1..];
  }

  /** Taking element j out of t takes its digit's count down by one. */
  lemma OccPick(t: seq<int>, j: int, f: int -> int, v: int)
    requires 0 <= j < |t|
    ensures Occ(t, f, v) == Occ(t[..j] + t[j + 1..], f, v) + (if f(t[j]) == v then 1 else 0)
  {
    var l, r := t[..j], t[j + 1..];
    Pick(t, j);
    OccAppend(l + [t[j]], r, f, v);
    OccAppend(l, [t[j]], f, v);
    OccAppend(l, r, f, v);
    assert Bucket([t[j]], f, v) == if f(t[j]) == v then [t[j]] else [] by {
      assert [t[j]][..0] == [];
    }
  }

  /** The count of the last element's digit. */
  lemma OccLast(s: seq<int>, f: int -> int, v: int)
    requires s != []
    ensures Occ(s, f, v) == Occ(s[..|s| - 1], f, v) + (if f(s[|s| - 1]) == v then 1 else 0)
  {
  }

  /** Counts depend on the elements only, not on their order. */
  lemma {:induction false} OccPerm(s: seq<int>, t: seq<int>, f: int -> int, v: int)
    requires multiset(s) == multiset(t)
    ensures Occ(s, f, v) == Occ(t, f, v)
    decreases |s|
  {
    if s == [] {
      assert |t| == |multiset(t)| == 0;
    } else {
      var n := |s| - 1;
      var x := s[n];
      var j := PermIndex(s, t);
      Pick(t, j);
      var rest := t[..j] + t[j + 1..];
      OccPerm(s[..n], rest, f, v);
      OccPick(t, j, f, v);
      OccLast(s, f, v);
    }
  }

  /** The last element of s has a place j in its permutation t, and the rest of t permutes the rest of s. */
  lemma PermIndex(s: seq<int>, t: seq<int>) returns (j: int)
    requires s != [] && multiset(s) == multiset(t)
    ensures 0 <= j < |t| && t[j] == s[|s| - 1]
    ensures multiset(s[..|s| - 1]) == multiset(t[..j] + t[j + 1..])
  {
    var n := |s| - 1;
    LastSplit(s);
    assert s[n] in multiset(t);
    j :| 0 <= j < |t| && t[j] == s[n];
    Pick(t, j);
    assert multiset(s[..n]) == multiset(s) - multiset{s[n]};
  }

  /** The count array of a sequence is the count array of each of its permutations. */
  lemma HistogramPerm(h: seq<int>, s: seq<int>, t: seq<int>, f: int -> int, radix: int)
    requires Histogram(h, s, f, radix) && multiset(s) == multiset(t)
    ensures Histogram(h, t, f, radix)
  {
    forall v | 0 <= v < radix ensures h[v] == Occ(t, f, v) {
      OccPerm(s, t, f, v);
    }
    forall i | 0 <= i < |t| ensures 0 <= f(t[i]) < radix {
      assert t[i] in multiset(s);
      var j :| 0 <= j < |s| && s[j] == t[i];
    }
  }

  /** A bucket is no longer than s. */
  lemma {:induction false} OccAtMost(s: seq<int>, f: int -> int, v: int)
    ensures Occ(s, f, v) <= |s|
    decreases |s|
  {
    if s != [] {
      OccAtMost(s[..|s| - 1], f, v);
    }
  }

  /** A bucket that holds every element of s means every element has that digit, and back. */
  lemma {:induction false} OccFull(s: seq<int>, f: int -> int, v: int)
    ensures Occ(s, f, v) == |s| <==> OneDigit(s, f, v)
    decreases |s|
  {
    if s != [] {
      var n := |s| - 1;
      OccFull(s[..n], f, v);
      LastSplit(s);
      BucketSnoc(s[..n], s[n], f, v);
      if OneDigit(s, f, v) {
        assert OneDigit(s[..n], f, v);
      }
      if Occ(s, f, v) == |s| {
        OccAtMost(s[..n], f, v);
        assert Occ(s[..n], f, v) == n;
        forall i | 0 <= i < |s| ensures f(s[i]) == v {
          if i < n {
            assert s[i] == s[..n][i];
          }
        }
      }
    }
  }

  /** All buckets of the empty sequence are empty. */
  lemma {:induction false} BucketsOfEmpty(f: int -> int, k: int)
    requires 0 <= k
    ensures Buckets([], f, k) == []
    decreases k
  {
    if k > 0 {
      BucketsOfEmpty(f, k - 1);
    }
  }

  /** Appending x to s adds x to the buckets below k when its digit is in [0, k). */
  lemma {:induction false} BucketsSnocBelow(s: seq<int>, x: int, f: int -> int, k: int)
    requires 0 <= f(x) < k
    ensures multiset(Buckets(s + [x], f, k)) == multiset(Buckets(s, f, k)) + multiset{x}
    decreases k
  {
    if f(x) < k - 1 {
      BucketsSnocBelow(s, x, f, k - 1);
      SnocIntoEarlier(s, x, f, k);
    } else {
      SnocIntoLast(s, x, f, k);
    }
  }

  /** The step of BucketsSnocBelow where x goes into an earlier bucket than k - 1. */
  lemma SnocIntoEarlier(s: seq<int>, x: int, f: int -> int, k: int)
    requires 0 <= f(x) < k - 1
    requires multiset(Buckets(s + [x], f, k - 1)) == multiset(Buckets(s, f, k - 1)) + multiset{x}
    ensures multiset(Buckets(s + [x], f, k)) == multiset(Buckets(s, f, k)) + multiset{x}
  {
    BucketSnoc(s, x, f, k - 1);
    SnocMiddle(Buckets(s, f, k - 1), Buckets(s + [x], f, k - 1), Bucket(s, f, k - 1), x);
  }

  /** The step of BucketsSnocBelow where x goes into bucket k - 1. */
  lemma SnocIntoLast(s: seq<int>, x: int, f: int -> int, k: int)
    requires 0 <= f(x) == k - 1
    ensures multiset(Buckets(s + [x], f, k)) == multiset(Buckets(s, f, k)) + multiset{x}
  {
    BucketSnoc(s, x, f, k - 1);
    BucketsSnocAbove(s, x, f, k - 1);
    SnocLast(Buckets(s, f, k - 1), Bucket(s, f, k - 1), x);
  }

  /** Appending x to s leaves the buckets below k alone when its digit is not in [0, k). */
  lemma {:induction false} BucketsSnocAbove(s: seq<int>, x: int, f: int -> int, k: int)
    requires 0 <= k && !(0 <= f(x) < k)
    ensures Buckets(s + [x], f, k) == Buckets(s, f, k)
    decreases k
  {
    if k > 0 {
      BucketSnoc(s, x, f, k - 1);
      BucketsSnocAbove(s, x, f, k - 1);
    }
  }

  /** Adding x to the front part adds x to the whole. */
  lemma SnocMiddle(l: seq<int>, l2: seq<int>, b: seq<int>, x: int)
    requires multiset(l2) == multiset(l) + multiset{x}
    ensures multiset(l2 + b) == multiset(l + b) + multiset{x}
  {
  }

  /** Adding x to the back part adds x to the whole. */
  lemma SnocLast(l: seq<int>, b: seq<int>, x: int)
    ensures multiset(l + (b + [x])) == multiset(l + b) + multiset{x}
  {
    assert l + (b + [x]) == (l + b) + [x];
  }

  /** A counting pass keeps the elements of a sequence whose digits are in range. */
  lemma {:induction false} BucketsPerm(s: seq<int>, f: int -> int, radix: int)
    requires 0 <= radix && InRadix(s, f, radix)
    ensures multiset(Buckets(s, f, radix)) == multiset(s)
    ensures |Buckets(s, f, radix)| == |s|
    decreases |s|
  {
    if s == [] {
      BucketsOfEmpty(f, radix);
    } else {
      var n := |s| - 1;
      LastSplit(s);
      assert InRadix(s[..n], f, radix) by {
        forall i | 0 <= i < n ensures 0 <= f(s[..n][i]) < radix {
          assert s[..n][i] == s[i];
        }
      }
      BucketsPerm(s[..n], f, radix);
      BucketsSnocBelow(s[..n], s[n], f, radix);
    }
    assert |Buckets(s, f, radix)| == |multiset(Buckets(s, f, radix))|;
  }

  /** A bucket of a sequence sorted by a key is sorted by that key. */
  lemma {:induction false} BucketSorted(s: seq<int>, f: int -> int, v: int, key: int -> int)
    requires SortedBy(s, key)
    ensures SortedBy(Bucket(s, f, v), key)
    decreases |s|
  {
    if s != [] {
      var n := |s| - 1;
      var p := s[..n];
      assert SortedBy(p, key) by {
        forall i, j | 0 <= i < j < |p| ensures key(p[i]) <= key(p[j]) {
          assert p[i] == s[i] && p[j] == s[j];
        }
      }
      BucketSorted(p, f, v, key);
      if f(s[n]) == v {
        var b := Bucket(p, f, v);
        BucketMembers(p, f, v);
        forall i | 0 <= i < |b| ensures key(b[i]) <= key(s[n]) {
          assert b[i] in multiset(p);
          var j :| 0 <= j < |p| && p[j] == b[i];
          assert p[j] == s[j];
        }
        var r := b + [s[n]];
        assert Bucket(s, f, v) == r;
        forall i, j | 0 <= i < j < |r| ensures key(r[i]) <= key(r[j]) {
          if j < |b| {
            assert r[i] == b[i] && r[j] == b[j];
          } else {
            assert r[i] == b[i];
          }
        }
      }
    }
  }

  /**
   * The buckets below k of a sequence sorted by `below` are sorted by a key
   * `upto` that f refines: a lower digit comes first, and within a bucket the
   * old order holds.
   */
  lemma {:induction false} BucketsSorted(s: seq<int>, f: int -> int, k: int, below: int -> int, upto: int -> int)
    requires SortedBy(s, below) && Refines(f, below, upto) && 0 <= k
    ensures SortedBy(Buckets(s, f, k), upto)
    decreases k
  {
    if k > 0 {
      BucketsSorted(s, f, k - 1, below, upto);
      LastBucketFits(s, f, k - 1, below, upto);
      ConcatSortedBy(Buckets(s, f, k - 1), Bucket(s, f, k - 1), upto);
    }
  }

  /** The bucket of v is sorted by `upto` and comes after every element of the buckets below v. */
  lemma LastBucketFits(s: seq<int>, f: int -> int, v: int, below: int -> int, upto: int -> int)
    requires SortedBy(s, below) && Refines(f, below, upto) && 0 <= v
    ensures SortedBy(Bucket(s, f, v), upto)
    ensures forall i, j :: 0 <= i < |Buckets(s, f, v)| && 0 <= j < |Bucket(s, f, v)| ==>
              upto(Buckets(s, f, v)[i]) <= upto(Bucket(s, f, v)[j])
  {
    var l, r := Buckets(s, f, v), Bucket(s, f, v);
    BucketSorted(s, f, v, below);
    BucketDigits(s, f, v);
    OneDigitSorted(r, f, v, below, upto);
    BucketsDigits(s, f, v);
    forall i, j | 0 <= i < |l| && 0 <= j < |r| ensures upto(l[i]) <= upto(r[j]) {
      RefinesAt(f, below, upto, l[i], r[j]);
    }
  }

  /** Two sorted sequences, every element of the first at most every one of the second, form a sorted one. */
  lemma ConcatSortedBy(l: seq<int>, r: seq<int>, key: int -> int)
    requires SortedBy(l, key) && SortedBy(r, key)
    requires forall i, j :: 0 <= i < |l| && 0 <= j < |r| ==> key(l[i]) <= key(r[j])
    ensures SortedBy(l + r, key)
  {
    var c := l + r;
    forall i, j | 0 <= i < j < |c| ensures key(c[i]) <= key(c[j]) {
      if j < |l| {
        assert c[i] == l[i] && c[j] == l[j];
      } else if i >= |l| {
        assert c[i] == r[i - |l|] && c[j] == r[j - |l|];
      } else {
        assert c[i] == l[i] && c[j] == r[j - |l|];
      }
    }
  }

  /**
   * One stable counting pass by f, applied to a sequence sorted by `below`,
   * keeps its elements and sorts it by `upto`.
   */
  lemma PassSorts(s: seq<int>, f: int -> int, radix: int, below: int -> int, upto: int -> int)
    requires 0 <= radix && InRadix(s, f, radix) && SortedBy(s, below) && Refines(f, below, upto)
    ensures multiset(Buckets(s, f, radix)) == multiset(s)
    ensures SortedBy(Buckets(s, f, radix), upto)
  {
    BucketsPerm(s, f, radix);
    BucketsSorted(s, f, radix, below, upto);
  }

  /** A sequence sorted by `below` whose elements all share one digit is sorted by `upto` already. */
  lemma OneDigitSorted(s: seq<int>, f: int -> int, v: int, below: int -> int, upto: int -> int)
    requires SortedBy(s, below) && OneDigit(s, f, v) && Refines(f, below, upto)
    ensures SortedBy(s, upto)
  {
    forall i, j | 0 <= i < j < |s| ensures upto(s[i]) <= upto(s[j]) {
      RefinesAt(f, below, upto, s[i], s[j]);
    }
  }

  /** Refines, at two given elements. */
  lemma RefinesAt(f: int -> int, below: int -> int, upto: int -> int, x: int, y: int)
    requires Refines(f, below, upto)
    ensures f(x) < f(y) ==> upto(x) < upto(y)
    ensures f(x) == f(y) && below(x) <= below(y) ==> upto(x) <= upto(y)
  {
  }

  /** The sums of the counts are the lengths of the buckets before each digit value. */
  lemma {:induction false} SumLength(h: seq<int>, s: seq<int>, f: int -> int, radix: int, k: int)
    requires Histogram(h, s, f, radix) && 0 <= k <= radix
    ensures Sum(h, k) == |Buckets(s, f, k)|
    decreases k
  {
    if k > 0 {
      SumLength(h, s, f, radix, k - 1);
    }
  }

  /** Sums of non-negative counts grow with k. */
  lemma {:induction false} SumGrows(h: seq<int>, v: int, w: int)
    requires 0 <= v <= w <= |h| && forall i :: 0 <= i < |h| ==> h[i] >= 0
    ensures Sum(h, v) <= Sum(h, w)
    decreases w - v
  {
    if v < w {
      SumGrows(h, v, w - 1);
    }
  }

  /** Two entries of non-negative counts are part of their sum. */
  lemma {:induction false} SumTwo(h: seq<int>, k: int, w: int, v: int)
    requires 0 <= w < v < k <= |h| && forall i :: 0 <= i < |h| ==> h[i] >= 0
    ensures h[w] + h[v] <= Sum(h, k)
    decreases k
  {
    if v < k - 1 {
      SumTwo(h, k - 1, w, v);
    } else {
      SumGrows(h, w + 1, v);
      SumGrows(h, 0, w);
    }
  }

  /** The running sums of a count array over s lie between 0 and |s| and grow. */
  lemma SumBounds(h: seq<int>, s: seq<int>, f: int -> int, radix: int)
    requires Histogram(h, s, f, radix)
    ensures Sum(h, radix) == |s|
    ensures forall v, w :: 0 <= v <= w <= radix ==> 0 <= Sum(h, v) <= Sum(h, w) <= |s|
  {
    SumLength(h, s, f, radix, radix);
    BucketsPerm(s, f, radix);
    forall v, w | 0 <= v <= w <= radix ensures 0 <= Sum(h, v) <= Sum(h, w) <= |s| {
      SumGrows(h, 0, v);
      SumGrows(h, v, w);
      SumGrows(h, w, radix);
    }
  }

  /**
   * The skip test of processDigit succeeds on the count array of a digit
   * exactly when all elements share that digit.
   */
  lemma SkipMeansOneDigit(h: seq<int>, s: seq<int>, f: int -> int, radix: int)
    requires Histogram(h, s, f, radix) && 0 < radix
    ensures SkipFound(h, |s|) <==> exists v :: 0 <= v < radix && OneDigit(s, f, v)
  {
    if SkipFound(h, |s|) {
      var v :| 0 <= v < |h| && h[v] == |s| && forall w :: 0 <= w < v ==> h[w] <= 0 && h[w] != |s|;
      OccFull(s, f, v);
    }
    if exists v :: 0 <= v < radix && OneDigit(s, f, v) {
      var v :| 0 <= v < radix && OneDigit(s, f, v);
      OccFull(s, f, v);
      if s == [] {
        assert h[0] == 0;
      } else {
        SumLength(h, s, f, radix, radix);
        BucketsPerm(s, f, radix);
        assert h[v] == |s|;
        forall w | 0 <= w < v ensures h[w] <= 0 && h[w] != |s| {
          SumTwo(h, radix, w, v);
        }
      }
    }
  }
}
