/**
 * IntArrayTweaker: the ways a benchmark input `a` is turned into the array
 * `r` to sort. Every tweak first copies a into r; REVERSE___ then reverses
 * the whole of r, REVERSE_FR its first half, REVERSE_BA its second half, and
 * DITHER____ adds `i % 5` to every r[i] with Java `int` wrap-around.
 * SORT______, which calls the library sort, is not part of this model.
 */
module Tweaker {
  import opened SortSpec

  /** The tweaks of the enum, without SORT______. */
  datatype Tweak = Ident | Reverse | ReverseFront | ReverseBack | Dither

  /** s with s[lo..hi) reversed. */
  function ReverseRange(s: seq<int>, lo: int, hi: int): (r: seq<int>)
    requires 0 <= lo <= hi <= |s|
    ensures |r| == |s|
  {
    s[..lo] + Reversed(s[lo..hi]) + s[hi..]
  }

  /** r after `copy(r, a)`: a, followed by what r held beyond a's length. */
  function Copied(a: seq<int>, r: seq<int>): (c: seq<int>)
    requires |a| <= |r|
    ensures |c| == |r|
    ensures forall i :: 0 <= i < |a| ==> c[i] == a[i]
    ensures forall i :: |a| <= i < |r| ==> c[i] == r[i]
  {
    a + r[|a|..]
  }

  /** s after the DITHER____ loop: s[i] + i % 5 in 32-bit arithmetic. */
  function Dithered(s: seq<int>): (d: seq<int>)
    ensures |d| == |s|
    decreases |s|
  {
    if s == [] then [] else Dithered(s[..|s| - 1]) + [WrapInt32(s[|s| - 1] + (|s| - 1) % 5)]
  }

  /** The content of r after `tweak(a, r)`, given a and the old r. */
  function Tweaked(t: Tweak, a: seq<int>, r: seq<int>): (s: seq<int>)
    requires |a| <= |r|
    ensures |s| == |r|
  {
    var c := Copied(a, r);
    match t
    case Ident => c
    case Reverse => ReverseRange(c, 0, |c|)
    case ReverseFront => ReverseRange(c, 0, |c| / 2)
    case ReverseBack => ReverseRange(c, |c| / 2, |c|)
    case Dither => Dithered(c)
  }

  /**
   * `reverse(r, start, end)`: swaps with start and end converging until they
   * meet. The new r is the old one with r[start..end) reversed.
   */
  method ReverseInPlace(r: array<int>, start: int, end: int)
    requires 0 <= start <= end <= r.Length
    modifies r
    ensures r[..] == ReverseRange(old(r[..]), start, end)
  {
    var lo, hi := start, end - 1;
    while lo < hi
      invariant start <= lo <= hi + 1 && lo + hi == start + end - 1 && hi < end
      invariant forall p :: start <= p < lo || hi < p < end ==> r[p] == old(r[start + end - 1 - p])
      invariant forall p :: 0 <= p < r.Length && !(start <= p < lo || hi < p < end) ==> r[p] == old(r[p])
      decreases hi - lo
    {
      var t := r[lo];
      r[lo] := r[hi];
      r[hi] := t;
      lo, hi := lo + 1, hi - 1;
    }
    ReverseRangeAt(old(r[..]), r[..], start, end);
  }

  /** The pointwise description of a reversed range gives ReverseRange. */
  lemma ReverseRangeAt(s: seq<int>, t: seq<int>, lo: int, hi: int)
    requires 0 <= lo <= hi <= |s| == |t|
    requires forall p :: lo <= p < hi ==> t[p] == s[lo + hi - 1 - p]
    requires forall p :: 0 <= p < |s| && !(lo <= p < hi) ==> t[p] == s[p]
    ensures t == ReverseRange(s, lo, hi)
  {
    ReversedRange(s, t, lo, hi);
    assert t == t[..lo] + t[lo..hi] + t[hi..];
  }

  /**
   * `reverse` puts the old r[end - 1 - i] at r[start + i], keeps the elements
   * of r and changes nothing outside [start, end).
   */
  lemma ReverseRangeProps(s: seq<int>, lo: int, hi: int)
    requires 0 <= lo <= hi <= |s|
    ensures forall p :: lo <= p < hi ==> ReverseRange(s, lo, hi)[p] == s[lo + hi - 1 - p]
    ensures multiset(ReverseRange(s, lo, hi)) == multiset(s)
    ensures SameOutside(ReverseRange(s, lo, hi), s, lo, hi)
  {
    var x, m, y := s[..lo], Reversed(s[lo..hi]), s[hi..];
    var r := x + m + y;
    assert r == ReverseRange(s, lo, hi);
    forall p | lo <= p < hi ensures r[p] == s[lo + hi - 1 - p] {
      assert r[p] == m[p - lo] == s[lo..hi][hi - lo - 1 - (p - lo)];
    }
    ReversedPerm(s[lo..hi]);
    assert s == x + s[lo..hi] + y;
    assert r[..lo] == x && r[hi..] == y;
  }

  /** `reverse` applied twice on the same range gives r back; a range of at most one element is left as it is. */
  lemma ReverseRangeTwice(s: seq<int>, lo: int, hi: int)
    requires 0 <= lo <= hi <= |s|
    ensures ReverseRange(ReverseRange(s, lo, hi), lo, hi) == s
    ensures hi - lo <= 1 ==> ReverseRange(s, lo, hi) == s
  {
    var r := ReverseRange(s, lo, hi);
    var t := ReverseRange(r, lo, hi);
    ReverseRangeProps(s, lo, hi);
    ReverseRangeProps(r, lo, hi);
    SameOutsidePointwise(r, s, lo, hi);
    SameOutsidePointwise(t, r, lo, hi);
    forall p | lo <= p < hi ensures t[p] == s[p] {
      assert t[p] == r[lo + hi - 1 - p];
    }
    assert t == s;
    if hi - lo <= 1 {
      assert r == s;
    }
  }

  /**
   * `copy(r, a)`: r[i] = a[i] for every index of a, which needs r to be at
   * least as long as a; r beyond a's length is left alone.
   */
  method Copy(r: array<int>, a: array<int>)
    requires a.Length <= r.Length
    modifies r
    ensures r[..] == Copied(old(a[..]), old(r[..]))
  {
    var i := 0;
    while i < a.Length
      invariant 0 <= i <= a.Length
      invariant forall p :: 0 <= p < i ==> r[p] == old(a[p])
      invariant forall p :: i <= p < r.Length ==> r[p] == old(r[p])
      invariant a == r || a[..] == old(a[..])
    {
      r[i] := a[i];
      i := i + 1;
    }
    assert r[..] == old(a[..]) + old(r[..])[a.Length..];
  }

  /** The DITHER____ loop over the whole of r. */
  method DitherInPlace(r: array<int>)
    modifies r
    ensures r[..] == Dithered(old(r[..]))
  {
    var i := 0;
    while i < r.Length
      invariant 0 <= i <= r.Length
      invariant forall p :: 0 <= p < i ==> r[p] == WrapInt32(old(r[p]) + p % 5)
      invariant forall p :: i <= p < r.Length ==> r[p] == old(r[p])
    {
      r[i] := WrapInt32(r[i] + i % 5);
      i := i + 1;
    }
    DitheredAt(old(r[..]));
  }

  /** Dithering adds i % 5 to each element, wrapped into a Java int. */
  lemma {:induction false} DitheredAt(s: seq<int>)
    ensures forall i :: 0 <= i < |s| ==> Dithered(s)[i] == WrapInt32(s[i] + i % 5)
    decreases |s|
  {
    if s != [] {
      DitheredAt(s[..|s| - 1]);
    }
  }

  /** `tweak(a, r)`: copy, then the tweak's own step. */
  method TweakArray(t: Tweak, a: array<int>, r: array<int>)
    requires a.Length <= r.Length
    modifies r
    ensures r[..] == Tweaked(t, old(a[..]), old(r[..]))
  {
    Copy(r, a);
    match t
    case Ident =>
    case Reverse => ReverseInPlace(r, 0, r.Length);
    case ReverseFront => ReverseInPlace(r, 0, r.Length / 2);
    case ReverseBack => ReverseInPlace(r, r.Length / 2, r.Length);
    case Dither => DitherInPlace(r);
  }

  /**
   * What each tweak makes of r, for a and r of the same length: IDENT_____
   * an equal copy of a, REVERSE___ its full reverse, REVERSE_FR a with only
   * the first half reversed, REVERSE_BA a with only the second half reversed,
   * and DITHER____ a[i] + i % 5 wrapped into a Java int at every index.
   * Every tweak but DITHER____ keeps the elements of a.
   */
  lemma TweakedMeaning(t: Tweak, a: seq<int>, r: seq<int>)
    requires |a| == |r|
    ensures t == Ident ==> Tweaked(t, a, r) == a
    ensures t == Reverse ==> Tweaked(t, a, r) == Reversed(a)
    ensures t == ReverseFront ==>
              Tweaked(t, a, r)[..|a| / 2] == Reversed(a[..|a| / 2]) && Tweaked(t, a, r)[|a| / 2..] == a[|a| / 2..]
    ensures t == ReverseBack ==>
              Tweaked(t, a, r)[..|a| / 2] == a[..|a| / 2] && Tweaked(t, a, r)[|a| / 2..] == Reversed(a[|a| / 2..])
    ensures t == Dither ==> forall i :: 0 <= i < |a| ==> Tweaked(t, a, r)[i] == WrapInt32(a[i] + i % 5)
    ensures t != Dither ==> multiset(Tweaked(t, a, r)) == multiset(a)
  {
    assert Copied(a, r) == a;
    match t
    case Ident =>
    case Reverse => WholeReversed(a);
    case ReverseFront => HalvesReversed(a, |a| / 2);
    case ReverseBack => HalvesReversed(a, |a| / 2);
    case Dither => DitheredAt(a);
  }

  /** Reversing the whole range is Reversed. */
  lemma WholeReversed(a: seq<int>)
    ensures ReverseRange(a, 0, |a|) == Reversed(a)
    ensures multiset(Reversed(a)) == multiset(a)
  {
    assert a[..0] == [] && a[|a|..] == [] && a[0..|a|] == a;
    ReversedPerm(a);
  }

  /** Reversing either half leaves the other half alone and keeps the elements. */
  lemma HalvesReversed(a: seq<int>, h: int)
    requires 0 <= h <= |a|
    ensures ReverseRange(a, 0, h)[..h] == Reversed(a[..h]) && ReverseRange(a, 0, h)[h..] == a[h..]
    ensures ReverseRange(a, h, |a|)[..h] == a[..h] && ReverseRange(a, h, |a|)[h..] == Reversed(a[h..])
    ensures multiset(ReverseRange(a, 0, h)) == multiset(a) && multiset(ReverseRange(a, h, |a|)) == multiset(a)
  {
    assert a[..0] == [] && a[|a|..] == [] && a[0..h] == a[..h] && a[h..|a|] == a[h..];
    var f := ReverseRange(a, 0, h);
    assert f == Reversed(a[..h]) + a[h..];
    var b := ReverseRange(a, h, |a|);
    assert b == a[..h] + Reversed(a[h..]);
    ReverseRangeProps(a, 0, h);
    ReverseRangeProps(a, h, |a|);
  }
}
