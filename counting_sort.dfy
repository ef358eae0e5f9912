/**
 * The counting sorts of the r32 sorter for the three small element types,
 * `byte`, `char` and `short`. A histogram of the range is computed by a
 * backward scan, and the range is then refilled from its top end down, with
 * every value of the type, from the largest, written as often as it was
 * counted. The three Java methods differ only in the type's constants, in the
 * mask that turns a value into the index of its count, and in the first value
 * of the loop variable; the model takes the type as a parameter.
 *
 * Elements are mathematical integers in the range of their Java type.
 */
module CountingSort {
  import opened SortSpec

  /** The element types with a counting sort. */
  datatype Kind = Byte | Char | Short

  /** NUM_BYTE_VALUES, NUM_CHAR_VALUES and NUM_SHORT_VALUES: the length of the count array. */
  function NumValues(k: Kind): int {
    if k == Byte then 256 else 65536
  }

  /** The least value of the type. */
  function MinValue(k: Kind): int {
    match k
    case Byte => -128
    case Char => 0
    case Short => -32768
  }

  /** The greatest value of the type. */
  function MaxValue(k: Kind): int {
    MinValue(k) + NumValues(k) - 1
  }

  /** x is a value of the Java type k. */
  predicate InType(k: Kind, x: int) {
    MinValue(k) <= x <= MaxValue(k)
  }

  /** Every element of s is a value of the type k. */
  ghost predicate AllInType(k: Kind, s: seq<int>) {
    forall i :: 0 <= i < |s| ==> InType(k, s[i])
  }

  /**
   * The index of the count of x: `x & 0xFF` for a byte, the char itself, and
   * `x & 0xFFFF` for a short. The mask of a two's complement number keeps its
   * remainder modulo the number of values.
   */
  function Slot(k: Kind, x: int): (j: int)
    ensures InType(k, x) ==> 0 <= j < NumValues(k)
  {
    if k == Char then x else x % NumValues(k)
  }

  /** The narrowing casts `(byte) i`, `(char) i` and `(short) i` of a Java int. */
  function Narrow(k: Kind, i: int): (x: int)
    ensures InType(k, x)
  {
    match k
    case Byte => (i + 128) % 256 - 128
    case Char => i % 65536
    case Short => (i + 32768) % 65536 - 32768
  }

  /** The first value of i in the placing loops: Byte.MIN_VALUE, NUM_CHAR_VALUES and Short.MIN_VALUE. */
  function Start(k: Kind): int {
    match k
    case Byte => -128
    case Char => 65536
    case Short => -32768
  }

  /** The placing loops step i down from Start(k); the value they handle for i is i + Offset(k). */
  function Offset(k: Kind): int {
    match k
    case Byte => 256
    case Char => 0
    case Short => 65536
  }

  /** The cast of the slot of a value gives the value back. */
  lemma SlotOfValue(k: Kind, x: int)
    requires InType(k, x)
    ensures Narrow(k, Slot(k, x)) == x
  {
    match k
    case Byte =>
      if x < 0 {
        assert x % 256 == x + 256 && (x + 384) % 256 == x + 128;
      } else {
        assert x % 256 == x && (x + 128) % 256 == x + 128;
      }
    case Char =>
    case Short =>
      if x < 0 {
        assert x % 65536 == x + 65536 && (x + 98304) % 65536 == x + 32768;
      } else {
        assert x % 65536 == x && (x + 32768) % 65536 == x + 32768;
      }
  }

  /** Every slot is the slot of the value its cast gives: slots and values correspond one to one. */
  lemma ValueOfSlot(k: Kind, j: int)
    requires 0 <= j < NumValues(k)
    ensures Slot(k, Narrow(k, j)) == j
  {
    match k
    case Byte =>
      if j < 128 {
        assert (j + 128) % 256 == j + 128 && j % 256 == j;
      } else {
        assert (j + 128) % 256 == j - 128 && (j - 256) % 256 == j;
      }
    case Char =>
      assert j % 65536 == j;
    case Short =>
      if j < 32768 {
        assert (j + 32768) % 65536 == j + 32768 && j % 65536 == j;
      } else {
        assert (j + 32768) % 65536 == j - 32768 && (j - 65536) % 65536 == j;
      }
  }

  /**
   * For the values i stepped through by the placing loops, the cast is
   * i + Offset(k) and the masked index is the slot of that value: the loops
   * visit every value of the type once, from the greatest down.
   */
  lemma Visit(k: Kind, i: int, w: int)
    requires Start(k) - NumValues(k) <= i < Start(k) && w == i + Offset(k)
    ensures InType(k, w) && Narrow(k, i) == w && Slot(k, i) == Slot(k, w)
  {
    match k
    case Byte =>
      if i < -256 {
        assert i % 256 == i + 512 && (i + 256) % 256 == i + 512;
      } else {
        assert i % 256 == i + 256 && (i + 256) % 256 == i + 256;
      }
    case Char =>
    case Short =>
      if i < -65536 {
        assert i % 65536 == i + 131072 && (i + 65536) % 65536 == i + 131072;
      } else {
        assert i % 65536 == i + 65536 && (i + 65536) % 65536 == i + 65536;
      }
  }

  /** Every element of a slice of s is of the type when every element of s is. */
  lemma AllInTypeSlice(k: Kind, s: seq<int>, lo: int, hi: int)
    requires AllInType(k, s) && 0 <= lo <= hi <= |s|
    ensures AllInType(k, s[lo..hi])
  {
    forall i | 0 <= i < hi - lo ensures InType(k, s[lo..hi][i]) {
      assert s[lo..hi][i] == s[lo + i];
    }
  }

  /** A permutation keeps the elements in the type. */
  lemma AllInTypePerm(k: Kind, s: seq<int>, t: seq<int>)
    requires AllInType(k, s) && multiset(t) == multiset(s)
    ensures AllInType(k, t)
  {
    forall i | 0 <= i < |t| ensures InType(k, t[i]) {
      assert t[i] in multiset(s);
      var j :| 0 <= j < |s| && s[j] == t[i];
    }
  }

  // ---------------------------------------------------------------------------
  // The histogram

  /** c is the histogram of s: for every slot, the number of occurrences in s of the value of that slot. */
  ghost predicate Counts(c: seq<int>, k: Kind, s: seq<int>) {
    |c| == NumValues(k) && forall j :: 0 <= j < |c| ==> c[j] == multiset(s)[Narrow(k, j)]
  }

  /** c can be a histogram: one count per value of the type, none of them negative. */
  ghost predicate Histogram(c: seq<int>, k: Kind) {
    |c| == NumValues(k) && forall j :: 0 <= j < |c| ==> 0 <= c[j]
  }

  /** Counting one more element x in front of s adds one to the slot of x and to no other. */
  lemma CountStep(c: seq<int>, k: Kind, x: int, s: seq<int>)
    requires Counts(c, k, s) && InType(k, x)
    ensures Counts(c[Slot(k, x) := c[Slot(k, x)] + 1], k, [x] + s)
  {
    var v := Slot(k, x);
    var d := c[v := c[v] + 1];
    assert multiset([x] + s) == multiset{x} + multiset(s);
    forall j | 0 <= j < |d| ensures d[j] == multiset([x] + s)[Narrow(k, j)] {
      if j == v {
        SlotOfValue(k, x);
      } else {
        ValueOfSlot(k, j);
      }
    }
  }

  /** `++count[a[--i] & mask]`: one count goes up by one. */
  method Tally(count: array<int>, j: int)
    requires 0 <= j < count.Length
    modifies count
    ensures count[..] == old(count[..])[j := old(count[..])[j] + 1]
  {
    count[j] := count[j] + 1;
  }

  /**
   * `for (int i = high; i > low; ++count[a[--i] & mask])`: the histogram of
   * a[low..high), computed from the top of the range down.
   */
  method CountValues(a: array<int>, k: Kind, low: int, high: int, count: array<int>)
    requires 0 <= low <= high <= a.Length && a != count
    requires AllInType(k, a[low..high])
    requires count.Length == NumValues(k) && forall j :: 0 <= j < count.Length ==> count[j] == 0
    modifies count
    ensures Counts(count[..], k, a[low..high])
  {
    var i := high;
    assert a[i..high] == [];
    while i > low
      invariant low <= i <= high
      invariant Counts(count[..], k, a[i..high])
    {
      i := i - 1;
      var x := a[i];
      assert x == a[low..high][i - low];
      assert a[i..high] == [x] + a[i + 1..high];
      ghost var c := count[..];
      Tally(count, Slot(k, x));
      CountStep(c, k, x, a[i + 1..high]);
    }
  }

  /** A histogram has one count per value and no negative count. */
  lemma CountsHistogram(c: seq<int>, k: Kind, s: seq<int>)
    requires Counts(c, k, s)
    ensures Histogram(c, k)
  {
  }

  // ---------------------------------------------------------------------------
  // What the placing loops write

  /** n copies of x; none for n <= 0. */
  function Repeat(x: int, n: int): (r: seq<int>)
    ensures |r| == Max(n, 0)
    decreases n
  {
    if n <= 0 then [] else [x] + Repeat(x, n - 1)
  }

  /** Every element of Repeat(x, n) is x. */
  lemma {:induction false} RepeatAll(x: int, n: int)
    ensures forall i :: 0 <= i < |Repeat(x, n)| ==> Repeat(x, n)[i] == x
    decreases n
  {
    if n > 0 {
      RepeatAll(x, n - 1);
      assert Repeat(x, n) == [x] + Repeat(x, n - 1);
    }
  }

  /** x occurs n times in Repeat(x, n), and nothing else occurs in it. */
  lemma {:induction false} RepeatCount(x: int, n: int)
    ensures multiset(Repeat(x, n)) == multiset{}[x := Max(n, 0)]
    decreases n
  {
    if n > 0 {
      RepeatCount(x, n - 1);
      assert multiset(Repeat(x, n)) == multiset{x} + multiset(Repeat(x, n - 1));
    }
  }

  /**
   * The values of the type from v up, in ascending order, each as often as
   * the count of its slot says: what the placing loops have written at the
   * top of the range once they have handled every value from v on.
   */
  ghost function Tail(c: seq<int>, k: Kind, v: int): seq<int>
    requires |c| == NumValues(k) && MinValue(k) <= v <= MaxValue(k) + 1
    decreases MaxValue(k) + 1 - v
  {
    if v == MaxValue(k) + 1 then [] else Repeat(v, c[Slot(k, v)]) + Tail(c, k, v + 1)
  }

  /** A run of v followed by a sorted sequence of values above v is sorted and holds nothing below v. */
  lemma RunThenAbove(r: seq<int>, t: seq<int>, v: int)
    requires forall i :: 0 <= i < |r| ==> r[i] == v
    requires Sorted(t) && forall i :: 0 <= i < |t| ==> v < t[i]
    ensures Sorted(r + t) && forall i :: 0 <= i < |r + t| ==> v <= (r + t)[i]
  {
    forall i, j | 0 <= i < j < |r + t| ensures (r + t)[i] <= (r + t)[j] {
      if j < |r| {
      } else if i < |r| {
        assert (r + t)[j] == t[j - |r|];
      } else {
        assert (r + t)[i] == t[i - |r|] && (r + t)[j] == t[j - |r|];
      }
    }
    forall i | 0 <= i < |r + t| ensures v <= (r + t)[i] {
      if i >= |r| {
        assert (r + t)[i] == t[i - |r|];
      }
    }
  }

  /** Tail(c, k, v) is sorted and holds nothing below v. */
  lemma {:induction false} TailSorted(c: seq<int>, k: Kind, v: int)
    requires |c| == NumValues(k) && MinValue(k) <= v <= MaxValue(k) + 1
    ensures Sorted(Tail(c, k, v))
    ensures forall i :: 0 <= i < |Tail(c, k, v)| ==> v <= Tail(c, k, v)[i]
    decreases MaxValue(k) + 1 - v
  {
    if v <= MaxValue(k) {
      TailSorted(c, k, v + 1);
      RepeatAll(v, c[Slot(k, v)]);
      RunThenAbove(Repeat(v, c[Slot(k, v)]), Tail(c, k, v + 1), v);
    }
  }

  /** Occurrences of x after adding a run of n copies of v in front. */
  lemma OccStep(r: multiset<int>, t: multiset<int>, v: int, x: int, n: int)
    requires r == multiset{}[v := Max(n, 0)]
    ensures (r + t)[x] == (if x == v then Max(n, 0) else 0) + t[x]
  {
  }

  /** The first run of Tail(c, k, v) and the rest, as multisets. */
  lemma TailUnfold(c: seq<int>, k: Kind, v: int)
    requires |c| == NumValues(k) && MinValue(k) <= v <= MaxValue(k)
    ensures multiset(Tail(c, k, v)) == multiset(Repeat(v, c[Slot(k, v)])) + multiset(Tail(c, k, v + 1))
  {
  }

  /** A value x occurs in Tail(c, k, v) as often as the count of its slot says when it is of the type and at least v, and otherwise not at all. */
  lemma {:induction false} TailOccurrences(c: seq<int>, k: Kind, v: int, x: int)
    requires |c| == NumValues(k) && MinValue(k) <= v <= MaxValue(k) + 1
    ensures multiset(Tail(c, k, v))[x] == if InType(k, x) && v <= x then Max(c[Slot(k, x)], 0) else 0
    decreases MaxValue(k) + 1 - v
  {
    if v <= MaxValue(k) {
      var n := c[Slot(k, v)];
      TailOccurrences(c, k, v + 1, x);
      TailUnfold(c, k, v);
      RepeatCount(v, n);
      OccStep(multiset(Repeat(v, n)), multiset(Tail(c, k, v + 1)), v, x, n);
      if x == v {
        assert InType(k, x) && v <= x;
      } else {
        assert (InType(k, x) && v <= x) == (InType(k, x) && v + 1 <= x);
      }
    }
  }

  /**
   * The whole Tail of the histogram of s is s sorted: it is in ascending
   * order and holds every element of s exactly as often as s does.
   */
  lemma TailOfCounts(c: seq<int>, k: Kind, s: seq<int>)
    requires Counts(c, k, s) && AllInType(k, s)
    ensures Sorted(Tail(c, k, MinValue(k)))
    ensures multiset(Tail(c, k, MinValue(k))) == multiset(s)
    ensures |Tail(c, k, MinValue(k))| == |s|
  {
    var t := Tail(c, k, MinValue(k));
    forall x ensures multiset(t)[x] == multiset(s)[x] {
      TailOccurrences(c, k, MinValue(k), x);
      if InType(k, x) {
        SlotOfValue(k, x);
      } else {
        assert x !in s;
      }
    }
    TailSorted(c, k, MinValue(k));
  }

  /**
   * Tails shrink as v grows; two tails of the same length are the same, since
   * the values between them have no count.
   */
  lemma {:induction false} TailShrinks(c: seq<int>, k: Kind, u: int, v: int)
    requires |c| == NumValues(k) && MinValue(k) <= u <= v <= MaxValue(k) + 1
    ensures |Tail(c, k, v)| <= |Tail(c, k, u)|
    ensures |Tail(c, k, v)| == |Tail(c, k, u)| ==> Tail(c, k, v) == Tail(c, k, u)
    decreases v - u
  {
    if u < v {
      TailShrinks(c, k, u + 1, v);
      assert Tail(c, k, u) == Repeat(u, c[Slot(k, u)]) + Tail(c, k, u + 1);
    }
  }

  /** s[hi..high) holds the values from v up, as the counts c say: the part of the range already placed. */
  ghost predicate Written(s: seq<int>, hi: int, high: int, c: seq<int>, k: Kind, v: int) {
    |c| == NumValues(k) && MinValue(k) <= v <= MaxValue(k) + 1 &&
    0 <= hi <= high <= |s| && s[hi..high] == Tail(c, k, v)
  }

  /** Nothing is written before the first value is handled. */
  lemma WrittenStart(s: seq<int>, high: int, c: seq<int>, k: Kind)
    requires 0 <= high <= |s| && |c| == NumValues(k)
    ensures Written(s, high, high, c, k, MaxValue(k) + 1)
  {
    assert s[high..high] == [];
  }

  /**
   * Writing the copies of value w just below the values from v up, with
   * nothing to write for the values between, extends the placed part to the
   * values from w up; nothing outside the placed part has changed.
   */
  lemma WrittenStep(s: seq<int>, t: seq<int>, o: seq<int>, h: int, hi: int, high: int, c: seq<int>, k: Kind, v: int, w: int, x: int, n: int)
    requires Written(s, hi, high, c, k, v) && SameOutside(s, o, hi, high)
    requires MinValue(k) <= w < v && (v == w + 1 || Tail(c, k, w + 1) == Tail(c, k, v))
    requires x == w && n == c[Slot(k, w)]
    requires SameOutside(t, s, h, hi) && t[h..hi] == Repeat(x, n)
    ensures Written(t, h, high, c, k, w) && SameOutside(t, o, h, high)
  {
    assert t[hi..high] == t[hi..][..high - hi] && s[hi..high] == s[hi..][..high - hi];
    assert t[h..high] == t[h..hi] + t[hi..high];
    assert t[..h] == s[..hi][..h] && o[..h] == o[..hi][..h];
    assert t[high..] == t[hi..][high - hi..] && s[high..] == s[hi..][high - hi..];
  }

  /** Once the values from the least one up are written, they fill the whole range. */
  lemma WrittenAll(s: seq<int>, low: int, hi: int, high: int, c: seq<int>, k: Kind, v: int)
    requires Written(s, hi, high, c, k, v) && 0 <= low <= hi && (hi == low || v == MinValue(k))
    requires |Tail(c, k, MinValue(k))| == high - low
    ensures hi == low && s[low..high] == Tail(c, k, MinValue(k))
  {
    TailShrinks(c, k, MinValue(k), v);
  }

  /** Values without a count add nothing: the tail from w is the tail from w + 1. */
  lemma TailSkip(c: seq<int>, k: Kind, w: int)
    requires |c| == NumValues(k) && MinValue(k) <= w <= MaxValue(k) && c[Slot(k, w)] == 0
    ensures Tail(c, k, w) == Tail(c, k, w + 1)
  {
    assert Repeat(w, 0) == [];
  }

  /** `a[--high] = x`: one element written just below high. */
  method Lower(a: array<int>, high: int, x: int) returns (h: int)
    requires 0 < high <= a.Length
    modifies a
    ensures h == high - 1 && a[..] == old(a[..])[h := x]
  {
    h := high - 1;
    a[h] := x;
  }

  /** Writing x below a run of m copies of x gives a run of m + 1 copies, with nothing else changed. */
  lemma RunGrows(s: seq<int>, o: seq<int>, h: int, high: int, x: int, m: int)
    requires 0 <= h < high <= |s| && 0 <= m && s[h + 1..high] == Repeat(x, m)
    requires SameOutside(s, o, h + 1, high)
    ensures s[h := x][h..high] == Repeat(x, m + 1) && SameOutside(s[h := x], o, h, high)
  {
    var t := s[h := x];
    assert t[h..high] == [x] + s[h + 1..high];
    assert t[..h] == s[..h + 1][..h] && o[..h] == o[..h + 1][..h];
  }

  /** `for (int k = n; k > 0; --k) a[--high] = x;`: n copies of x below high. */
  method FillCount(a: array<int>, low: int, high: int, x: int, n: int) returns (hi: int)
    requires 0 <= low && 0 <= n <= high - low && high <= a.Length
    modifies a
    ensures hi == high - n && a[hi..high] == Repeat(x, n)
    ensures SameOutside(a[..], old(a[..]), hi, high)
  {
    hi := high;
    var k := n;
    ghost var m := 0;
    assert a[hi..high] == [];
    while k > 0
      invariant 0 <= k && m == n - k && hi == high - m
      invariant a[hi..high] == Repeat(x, m) && SameOutside(a[..], old(a[..]), hi, high)
    {
      ghost var s := a[..];
      hi := Lower(a, hi, x);
      RunGrows(s, old(a[..]), hi, high, x, m);
      k, m := k - 1, m + 1;
    }
  }

  /** `for (low = high - n; high > low; a[--high] = x);`: copies of x from high down to low. */
  method FillDown(a: array<int>, low: int, high: int, x: int) returns (hi: int)
    requires 0 <= low <= high <= a.Length
    modifies a
    ensures hi == low && a[low..high] == Repeat(x, high - low)
    ensures SameOutside(a[..], old(a[..]), low, high)
  {
    hi := high;
    ghost var m := 0;
    assert a[hi..high] == [];
    while hi > low
      invariant low <= hi && hi == high - m
      invariant a[hi..high] == Repeat(x, m) && SameOutside(a[..], old(a[..]), hi, high)
    {
      ghost var s := a[..];
      hi := Lower(a, hi, x);
      RunGrows(s, old(a[..]), hi, high, x, m);
      m := m + 1;
    }
  }

  /**
   * `do { a[--high] = x; } while (--num > 0);` for num > 0: num copies of x
   * below high, the first one written before the test.
   */
  method FillRun(a: array<int>, low: int, high: int, x: int, num: int) returns (hi: int)
    requires 0 <= low && 0 < num <= high - low && high <= a.Length
    modifies a
    ensures hi == high - num && a[hi..high] == Repeat(x, num)
    ensures SameOutside(a[..], old(a[..]), hi, high)
  {
    assert a[high..high] == [];
    ghost var s := a[..];
    hi := Lower(a, high, x);
    RunGrows(s, old(a[..]), hi, high, x, 0);
    var n := num - 1;
    ghost var m := 1;
    while n > 0
      invariant 0 <= n && m == num - n && hi == high - m
      invariant a[hi..high] == Repeat(x, m) && SameOutside(a[..], old(a[..]), hi, high)
    {
      s := a[..];
      hi := Lower(a, hi, x);
      RunGrows(s, old(a[..]), hi, high, x, m);
      n, m := n - 1, m + 1;
    }
  }

  // ---------------------------------------------------------------------------
  // The placing loops

  /**
   * The placing loop of the byte and the short sort on a range of more than
   * NUM_VALUES elements: for every value from the greatest down, its count of
   * copies below the part already written, until the range is full.
   */
  method PlaceAll(a: array<int>, k: Kind, low: int, high: int, count: array<int>, ghost c: seq<int>)
    requires k != Char && 0 <= low <= high <= a.Length && a != count
    requires count[..] == c && Histogram(c, k) && |Tail(c, k, MinValue(k))| == high - low
    modifies a
    ensures a[low..high] == Tail(c, k, MinValue(k)) && SameOutside(a[..], old(a[..]), low, high)
  {
    var i := Start(k);
    var hi := high;
    ghost var v := MaxValue(k) + 1;
    WrittenStart(a[..], high, c, k);
    while hi > low
      invariant v == i + Offset(k) && low <= hi
      invariant Written(a[..], hi, high, c, k, v) && SameOutside(a[..], old(a[..]), hi, high)
      decreases v - MinValue(k)
    {
      TailShrinks(c, k, MinValue(k), v);
      i := i - 1;
      ghost var w := v - 1;
      Visit(k, i, w);
      var n := count[Slot(k, i)];
      TailShrinks(c, k, MinValue(k), w);
      ghost var s := a[..];
      var x := Narrow(k, i);
      var h := FillCount(a, low, hi, x, n);
      WrittenStep(s, a[..], old(a[..]), h, hi, high, c, k, v, w, x, n);
      hi, v := h, w;
    }
    WrittenAll(a[..], low, hi, high, c, k, v);
  }

  /**
   * The placing loop of the char sort on a range of more than NUM_CHAR_VALUES
   * elements: for every value from the greatest down, the copies from the top
   * of what is left down to `high - count`, over all values of the type.
   */
  method PlaceAllChars(a: array<int>, low: int, high: int, count: array<int>, ghost c: seq<int>)
    requires 0 <= low <= high <= a.Length && a != count
    requires count[..] == c && Histogram(c, Char) && |Tail(c, Char, 0)| == high - low
    modifies a
    ensures a[low..high] == Tail(c, Char, 0) && SameOutside(a[..], old(a[..]), low, high)
  {
    var i := NumValues(Char);
    var hi := high;
    WrittenStart(a[..], high, c, Char);
    while i > 0
      invariant 0 <= i <= NumValues(Char) && low <= hi
      invariant Written(a[..], hi, high, c, Char, i) && SameOutside(a[..], old(a[..]), hi, high)
      decreases i
    {
      ghost var v := i;
      i := i - 1;
      Visit(Char, i, i);
      TailShrinks(c, Char, 0, i);
      var lo := hi - count[i];
      ghost var n := hi - lo;
      assert n == c[Slot(Char, i)];
      ghost var s := a[..];
      var x := Narrow(Char, i);
      var h := FillDown(a, lo, hi, x);
      WrittenStep(s, a[..], old(a[..]), h, hi, high, c, Char, v, i, x, n);
      hi := h;
    }
    WrittenAll(a[..], low, hi, high, c, Char, i);
  }

  /**
   * The placing loop on a range of at most NUM_VALUES elements: from the
   * greatest value down, values without a count are skipped, and the copies
   * of the next value with a count go below the part already written, until
   * the range is full.
   */
  method PlaceCounted(a: array<int>, k: Kind, low: int, high: int, count: array<int>, ghost c: seq<int>)
    requires 0 <= low <= high <= a.Length && a != count
    requires count[..] == c && Histogram(c, k) && |Tail(c, k, MinValue(k))| == high - low
    modifies a
    ensures a[low..high] == Tail(c, k, MinValue(k)) && SameOutside(a[..], old(a[..]), low, high)
  {
    var i := Start(k);
    var hi := high;
    ghost var v := MaxValue(k) + 1;
    WrittenStart(a[..], high, c, k);
    while hi > low
      invariant v == i + Offset(k) && low <= hi
      invariant Written(a[..], hi, high, c, k, v) && SameOutside(a[..], old(a[..]), hi, high)
      decreases v - MinValue(k)
    {
      ghost var w;
      i, w := SkipEmpty(count, k, i, c, v);
      TailRun(c, k, w, v);
      var num := count[Slot(k, i)];
      ghost var s := a[..];
      var x := Narrow(k, i);
      var h := FillRun(a, low, hi, x, num);
      WrittenStep(s, a[..], old(a[..]), h, hi, high, c, k, v, w, x, num);
      hi, v := h, w;
    }
    WrittenAll(a[..], low, hi, high, c, k, v);
  }

  /**
   * `while (count[--i & mask] == 0);`: steps i down to the next value below
   * v with a count. One exists as long as the values from v up do not fill
   * the range; the values skipped have no count.
   */
  method SkipEmpty(count: array<int>, k: Kind, i0: int, ghost c: seq<int>, ghost v: int) returns (i: int, ghost w: int)
    requires count[..] == c && |c| == NumValues(k) && MinValue(k) <= v <= MaxValue(k) + 1 && v == i0 + Offset(k)
    requires |Tail(c, k, v)| < |Tail(c, k, MinValue(k))|
    ensures w == i + Offset(k) && MinValue(k) <= w < v && Slot(k, i) == Slot(k, w) && Narrow(k, i) == w
    ensures c[Slot(k, w)] != 0 && (v == w + 1 || Tail(c, k, w + 1) == Tail(c, k, v))
  {
    i, w := i0 - 1, v - 1;
    ghost var u := v;
    NotAllWritten(c, k, v);
    Visit(k, i, w);
    while count[Slot(k, i)] == 0
      invariant w == i + Offset(k) && MinValue(k) <= w < v && Slot(k, i) == Slot(k, w) && Narrow(k, i) == w
      invariant u == w + 1 && Tail(c, k, u) == Tail(c, k, v)
      decreases w - MinValue(k)
    {
      SkipStep(c, k, w, u, v);
      i, w, u := i - 1, w - 1, w;
      Visit(k, i, w);
    }
    assert count[Slot(k, i)] == c[Slot(k, w)];
  }

  /** While the values from v up do not fill the range, v is above the least value. */
  lemma NotAllWritten(c: seq<int>, k: Kind, v: int)
    requires |c| == NumValues(k) && MinValue(k) <= v <= MaxValue(k) + 1
    requires |Tail(c, k, v)| < |Tail(c, k, MinValue(k))|
    ensures MinValue(k) < v
  {
  }

  /** A value w without a count, above which nothing is left to write before v, is not the least value. */
  lemma SkipStep(c: seq<int>, k: Kind, w: int, u: int, v: int)
    requires |c| == NumValues(k) && MinValue(k) <= w < v <= MaxValue(k) + 1 && u == w + 1
    requires c[Slot(k, w)] == 0 && Tail(c, k, u) == Tail(c, k, v)
    requires |Tail(c, k, v)| < |Tail(c, k, MinValue(k))|
    ensures MinValue(k) < w && Tail(c, k, w) == Tail(c, k, v)
  {
    TailSkip(c, k, w);
  }

  /** The run of the value w found below v fits below the part already written. */
  lemma TailRun(c: seq<int>, k: Kind, w: int, v: int)
    requires Histogram(c, k) && MinValue(k) <= w < v <= MaxValue(k) + 1
    requires v == w + 1 || Tail(c, k, w + 1) == Tail(c, k, v)
    ensures |Tail(c, k, w)| == Max(c[Slot(k, w)], 0) + |Tail(c, k, v)| && c[Slot(k, w)] >= 0
    ensures |Tail(c, k, w)| <= |Tail(c, k, MinValue(k))|
  {
    assert Tail(c, k, w) == Repeat(w, c[Slot(k, w)]) + Tail(c, k, w + 1);
    TailShrinks(c, k, MinValue(k), w);
  }

  /**
   * `countingSort(a, low, high)` for the byte, char and short arrays: the
   * histogram of the range, then the placing loop for a large or a small
   * range. The range ends up sorted and a permutation of its old contents;
   * nothing outside it changes.
   */
  method Sort(a: array<int>, k: Kind, low: int, high: int)
    requires 0 <= low <= high <= a.Length && AllInType(k, a[..])
    modifies a
    ensures SortedRange(a[..], low, high)
    ensures multiset(a[..]) == multiset(old(a[..]))
    ensures SameOutside(a[..], old(a[..]), low, high)
  {
    ghost var a0 := a[..];
    var count := new int[NumValues(k)](_ => 0);
    ghost var s := a[low..high];
    AllInTypeSlice(k, a[..], low, high);
    CountValues(a, k, low, high, count);
    ghost var c := count[..];
    CountsHistogram(c, k, s);
    TailOfCounts(c, k, s);
    assert a[..] == a0;
    if high - low > NumValues(k) {
      if k == Char {
        PlaceAllChars(a, low, high, count, c);
      } else {
        PlaceAll(a, k, low, high, count, c);
      }
    } else {
      PlaceCounted(a, k, low, high, count, c);
    }
    SortedPlaced(a[..], a0, low, high, Tail(c, k, MinValue(k)));
  }

  /** Writing a sorted permutation t of s0[low..high) over that range, and nothing else, sorts the range as a permutation. */
  lemma SortedPlaced(s1: seq<int>, s0: seq<int>, low: int, high: int, t: seq<int>)
    requires 0 <= low <= high <= |s0| && SameOutside(s1, s0, low, high)
    requires s1[low..high] == t && Sorted(t) && multiset(t) == multiset(s0[low..high])
    ensures SortedRange(s1, low, high) && multiset(s1) == multiset(s0)
  {
    SortedRangeSlice(s1, low, high);
    RangePerm(s1, s0, low, high);
  }
}
