/**
 * The digits the LSD radix sort of the r32 sorter reads from a Java `int`.
 *
 * A key is split into a 10-bit digit and two 11-bit digits, least significant
 * first; the top digit has the sign bit flipped, so that the three digits,
 * read as one unsigned number, are in the signed order of the ints.
 */
module RadixDigits {
  import opened SortSpec
  import opened RadixBuckets

  /** The three digits of an int, least significant first: 10, 11 and 11 bits. */
  datatype Digit = First | Second | Third

  /** The number of values of a digit: the length of its count array. */
  function Radix(d: Digit): (n: int)
    ensures n == 1024 || n == 2048
  {
    if d == First then 1024 else 2048
  }

  /** The 32 bits of x read as an unsigned number, as `>>>` sees a Java int. */
  function Unsigned(x: int): (u: int)
    ensures 0 <= u < 0x1_0000_0000
    ensures IsInt32(x) && x >= 0 ==> u == x
    ensures IsInt32(x) && x < 0 ==> u == x + 0x1_0000_0000
  {
    x % 0x1_0000_0000
  }

  /** `t ^ 0x400` for an 11-bit t: bit 10 flipped, the lower ten bits kept. */
  function FlipBit10(t: int): (r: int)
    requires 0 <= t < 2048
    ensures 0 <= r < 2048 && r % 1024 == t % 1024
    ensures r < 1024 <==> t >= 1024
  {
    if t < 1024 then t + 1024 else t - 1024
  }

  /**
   * Digit d of x as the counting loop reads it: `x & 0x3FF`,
   * `(x >>> 10) & 0x7FF` and `(x >>> 21) ^ 0x400`.
   */
  function DigitOf(d: Digit, x: int): (v: int)
    ensures 0 <= v < Radix(d)
  {
    match d
    case First => x % 1024
    case Second => Unsigned(x) / 1024 % 2048
    case Third => FlipBit10(Unsigned(x) / 0x20_0000)
  }

  /** x with its sign bit flipped, read as unsigned. */
  function Biased(x: int): (k: int)
    ensures 0 <= k < 0x1_0000_0000
  {
    (x + 0x8000_0000) % 0x1_0000_0000
  }

  /** The biased keys of Java ints are in the signed order of the ints. */
  lemma BiasedOrder(x: int, y: int)
    requires IsInt32(x) && IsInt32(y)
    ensures x <= y <==> Biased(x) <= Biased(y)
  {
    assert Biased(x) == x + 0x8000_0000 && Biased(y) == y + 0x8000_0000;
  }

  /** The weight of digit d in the biased key. */
  function Base(d: Digit): int {
    match d
    case First => 1
    case Second => 0x400
    case Third => 0x20_0000
  }

  /** The weight of the digit above d. */
  function Top(d: Digit): int {
    match d
    case First => 0x400
    case Second => 0x20_0000
    case Third => 0x1_0000_0000
  }

  /** The part of the biased key below digit d. */
  function KeyBelow(d: Digit, x: int): int {
    Biased(x) % Base(d)
  }

  /** The part of the biased key up to digit d, that digit included. */
  function KeyUpTo(d: Digit, x: int): int {
    Biased(x) % Top(d)
  }

  /** x differs from its unsigned value by a multiple of 2^32, and its biased key is that value with bit 31 flipped. */
  lemma UnsignedSplit(x: int) returns (q: int)
    ensures x == 0x1_0000_0000 * q + Unsigned(x)
    ensures Unsigned(x) < 0x8000_0000 ==> Biased(x) == Unsigned(x) + 0x8000_0000
    ensures Unsigned(x) >= 0x8000_0000 ==> Biased(x) == Unsigned(x) - 0x8000_0000
  {
    q := x / 0x1_0000_0000;
  }

  /** The first digit: the lowest ten bits of the biased key, with nothing below them. */
  lemma FirstSplit(x: int)
    ensures KeyUpTo(First, x) == DigitOf(First, x) && KeyBelow(First, x) == 0
  {
    var q := UnsignedSplit(x);
    var u, k := Unsigned(x), Biased(x);
    var c, r := u / 1024, u % 1024;
    assert u == 1024 * c + r;
    ModOfSplit(x, 1024, 0x40_0000 * q + c, r);
    var c' := if u < 0x8000_0000 then c + 0x20_0000 else c - 0x20_0000;
    ModOfSplit(k, 1024, c', r);
  }

  /** The second digit: bits 10 to 20 of the biased key, above its lowest ten bits. */
  lemma SecondSplit(x: int)
    ensures KeyUpTo(Second, x) == DigitOf(Second, x) * 0x400 + KeyBelow(Second, x)
    ensures KeyBelow(Second, x) == KeyUpTo(First, x)
  {
    var q := UnsignedSplit(x);
    var u, k := Unsigned(x), Biased(x);
    var r, t := u % 1024, u / 1024;
    var c, e := t % 2048, t / 2048;
    assert u == 0x20_0000 * e + (1024 * c + r);
    var e' := if u < 0x8000_0000 then e + 0x400 else e - 0x400;
    assert k == 0x20_0000 * e' + (1024 * c + r);
    ModOfSplit(k, 0x20_0000, e', 1024 * c + r);
    ModOfSplit(k, 1024, 2048 * e' + c, r);
  }

  /** n % m is r when n is m * q + r with r in [0, m), for the moduli of the digits. */
  lemma ModOfSplit(n: int, m: int, q: int, r: int)
    requires m == 1024 || m == 0x20_0000
    requires n == m * q + r && 0 <= r < m
    ensures n % m == r
  {
    if m == 1024 {
      assert n == 1024 * q + r;
    } else {
      assert n == 0x20_0000 * q + r;
    }
  }

  /** The third digit: the top eleven bits with bit 31 flipped, above the lowest 21 bits. */
  lemma ThirdSplit(x: int)
    ensures KeyUpTo(Third, x) == Biased(x)
    ensures Biased(x) == DigitOf(Third, x) * 0x20_0000 + KeyBelow(Third, x)
    ensures KeyBelow(Third, x) == KeyUpTo(Second, x)
  {
    var q := UnsignedSplit(x);
    var u, k := Unsigned(x), Biased(x);
    var r, t := u % 0x20_0000, u / 0x20_0000;
    assert u == 0x20_0000 * t + r;
    if u < 0x8000_0000 {
      assert k == 0x20_0000 * (t + 1024) + r;
    } else {
      assert k == 0x20_0000 * (t - 1024) + r;
    }
  }

  /**
   * The key up to digit d is digit d, as the counting loop reads it, above
   * the key below d. The key below the first digit is empty, the key below
   * every other digit is the key up to the one before, and the key up to the
   * last digit is the whole biased key.
   */
  lemma DigitSplit(d: Digit, x: int)
    ensures KeyUpTo(d, x) == DigitOf(d, x) * Base(d) + KeyBelow(d, x)
    ensures 0 <= KeyBelow(d, x) < Base(d)
    ensures d == First ==> KeyBelow(d, x) == 0
    ensures d == Second ==> KeyBelow(d, x) == KeyUpTo(First, x)
    ensures d == Third ==> KeyBelow(d, x) == KeyUpTo(Second, x) && KeyUpTo(d, x) == Biased(x)
  {
    match d
    case First => FirstSplit(x);
    case Second => SecondSplit(x);
    case Third => ThirdSplit(x);
  }

  /** Digit d decides the order of the keys up to d, and the keys below d break a tie. */
  lemma DigitsOrder(d: Digit, x: int, y: int)
    ensures DigitOf(d, x) < DigitOf(d, y) ==> KeyUpTo(d, x) < KeyUpTo(d, y)
    ensures DigitOf(d, x) == DigitOf(d, y) && KeyBelow(d, x) <= KeyBelow(d, y) ==> KeyUpTo(d, x) <= KeyUpTo(d, y)
  {
    DigitSplit(d, x);
    DigitSplit(d, y);
  }

  /** Digit d as a function, for the counting passes. */
  function DigitFn(d: Digit): int -> int {
    x => DigitOf(d, x)
  }

  /** The key below digit d as a function. */
  function KeyBelowFn(d: Digit): int -> int {
    x => KeyBelow(d, x)
  }

  /** The key up to digit d as a function. */
  function KeyUpToFn(d: Digit): int -> int {
    x => KeyUpTo(d, x)
  }

  /** s is in ascending order of the keys up to digit d. */
  ghost predicate SortedUpTo(s: seq<int>, d: Digit) {
    SortedBy(s, KeyUpToFn(d))
  }

  /** s is in ascending order of the keys below digit d. */
  ghost predicate SortedBelow(s: seq<int>, d: Digit) {
    SortedBy(s, KeyBelowFn(d))
  }

  /** Every int has each of its digits in range. */
  lemma DigitsInRadix(s: seq<int>, d: Digit)
    ensures InRadix(s, DigitFn(d), Radix(d))
  {
    forall i | 0 <= i < |s| ensures 0 <= DigitFn(d)(s[i]) < Radix(d) {
      assert DigitFn(d)(s[i]) == DigitOf(d, s[i]);
    }
  }

  /** Digit d, the key below it and the key up to it fit together as a counting pass needs. */
  lemma DigitRefines(d: Digit)
    ensures Refines(DigitFn(d), KeyBelowFn(d), KeyUpToFn(d))
  {
    forall x, y
      ensures (DigitFn(d)(x) < DigitFn(d)(y) ==> KeyUpToFn(d)(x) < KeyUpToFn(d)(y)) &&
              (DigitFn(d)(x) == DigitFn(d)(y) && KeyBelowFn(d)(x) <= KeyBelowFn(d)(y) ==> KeyUpToFn(d)(x) <= KeyUpToFn(d)(y))
    {
      DigitsOrder(d, x, y);
    }
  }

  /** Every sequence is in order of the empty key below the first digit. */
  lemma NothingBelowFirst(s: seq<int>)
    ensures SortedBelow(s, First)
  {
    forall i, j | 0 <= i < j < |s| ensures KeyBelowFn(First)(s[i]) <= KeyBelowFn(First)(s[j]) {
      DigitSplit(First, s[i]);
      DigitSplit(First, s[j]);
    }
  }

  /**
   * A counting pass by digit d over a sequence in order of the keys below d
   * keeps its elements and puts them in order of the keys up to d.
   */
  lemma DigitPass(s: seq<int>, d: Digit)
    requires SortedBelow(s, d)
    ensures multiset(Buckets(s, DigitFn(d), Radix(d))) == multiset(s)
    ensures SortedUpTo(Buckets(s, DigitFn(d), Radix(d)), d)
  {
    DigitsInRadix(s, d);
    DigitRefines(d);
    PassSorts(s, DigitFn(d), Radix(d), KeyBelowFn(d), KeyUpToFn(d));
  }

  /** A sequence in order of the keys below d whose elements share digit d is in order of the keys up to d. */
  lemma DigitSkip(s: seq<int>, d: Digit, v: int)
    requires SortedBelow(s, d) && OneDigit(s, DigitFn(d), v)
    ensures SortedUpTo(s, d)
  {
    DigitRefines(d);
    OneDigitSorted(s, DigitFn(d), v, KeyBelowFn(d), KeyUpToFn(d));
  }

  /** Every element of s is a Java int. */
  ghost predicate AllInt32(s: seq<int>) {
    forall i :: 0 <= i < |s| ==> IsInt32(s[i])
  }

  /** Ints in ascending order of the whole biased key are in ascending order. */
  lemma SortedByKey(s: seq<int>)
    requires SortedUpTo(s, Third) && AllInt32(s)
    ensures Sorted(s)
  {
    forall i, j | 0 <= i < j < |s| ensures s[i] <= s[j] {
      assert KeyUpToFn(Third)(s[i]) <= KeyUpToFn(Third)(s[j]);
      ThirdSplit(s[i]);
      ThirdSplit(s[j]);
      BiasedOrder(s[i], s[j]);
    }
  }

  /** A sorting by digit d continues a sorting by the digits below it: the keys of the two agree. */
  lemma NextDigit(s: seq<int>, d: Digit)
    requires SortedUpTo(s, d) && d != Third
    ensures SortedBelow(s, if d == First then Second else Third)
  {
    var e := if d == First then Second else Third;
    forall i, j | 0 <= i < j < |s| ensures KeyBelowFn(e)(s[i]) <= KeyBelowFn(e)(s[j]) {
      assert KeyUpToFn(d)(s[i]) <= KeyUpToFn(d)(s[j]);
      DigitSplit(e, s[i]);
      DigitSplit(e, s[j]);
    }
  }

  /** A permutation of Java ints holds Java ints. */
  lemma AllInt32Perm(s: seq<int>, t: seq<int>)
    requires AllInt32(s) && multiset(s) == multiset(t)
    ensures AllInt32(t)
  {
    forall i | 0 <= i < |t| ensures IsInt32(t[i]) {
      assert t[i] in multiset(s);
    }
  }
}
