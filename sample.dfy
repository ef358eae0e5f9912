/**
 * The five-element sample of the dual-pivot quicksort drivers: the sample
 * indices e1 < e2 < e3 < e4 < e5 spread over the range, the 4-element sorting
 * network on e1, e2, e4, e5 (in the order of each sorter version) and the
 * insertion of the middle element a3 = a[e3]. Afterwards the five slots are in
 * ascending order and hold the same elements as before.
 */
module Sample {
  import opened SortSpec

  /** The sample indices of the drivers, from the outer ones e1 and e5 (`>>> 1` of a non-negative sum is halving). */
  datatype Five = Five(e1: int, e2: int, e3: int, e4: int, e5: int)

  function Spread(e1: int, e5: int): (f: Five)
    requires e1 + 4 <= e5
    ensures f.e1 == e1 && f.e5 == e5
    ensures e1 < f.e2 < f.e3 < f.e4 < e5
  {
    var e3 := (e1 + e5) / 2;
    Five(e1, (e1 + e3) / 2, e3, (e3 + e5) / 2, e5)
  }

  /** r32: `step = (size >> 2) + (size >> 3) + (size >> 7)`, with e1 = low + step and e5 = high - step. */
  function R32Step(size: int): int
    requires size >= 0
  {
    size / 4 + size / 8 + size / 128
  }

  /** For every range the r32 driver samples (at least 51 elements) the sample lies strictly inside a(low..high - 1). */
  lemma R32SampleInside(low: int, high: int)
    requires 0 <= low && high - low >= 51
    ensures low + R32Step(high - low) + 4 <= high - R32Step(high - low)
    ensures var f := Spread(low + R32Step(high - low), high - R32Step(high - low));
      low < f.e1 && f.e5 < high - 1
  {
    var n := high - low;
    assert n / 4 * 4 <= n && n / 8 * 8 <= n && n / 128 * 128 <= n;
    assert n / 4 >= 12 && n / 8 >= 6;
  }

  /** b01: `step = (size >> 3) * 3 + 3`, with e1 = low + step and e5 = end - step. */
  function B01Step(size: int): int
    requires size >= 0
  {
    size / 8 * 3 + 3
  }

  /** For every range the b01 driver samples (at least 44 elements) the sample lies strictly inside a(low..high - 1). */
  lemma B01SampleInside(low: int, high: int)
    requires 0 <= low && high - low >= 44
    ensures low + B01Step(high - low) + 4 <= high - 1 - B01Step(high - low)
    ensures var f := Spread(low + B01Step(high - low), high - 1 - B01Step(high - low));
      low < f.e1 && f.e5 < high - 1
  {
    var n := high - low;
    assert n / 8 * 8 <= n;
  }

  /** The sample indices are strictly increasing inside s. */
  predicate Inside(f: Five, n: int) {
    0 <= f.e1 < f.e2 < f.e3 < f.e4 < f.e5 < n
  }

  /** The five slots of f are in ascending order. */
  ghost predicate SampleSorted(s: seq<int>, f: Five)
    requires Inside(f, |s|)
  {
    s[f.e1] <= s[f.e2] <= s[f.e3] <= s[f.e4] <= s[f.e5]
  }

  /** The slots of f that the sample sort may change; everything else is left alone. */
  ghost predicate OnlySlots(s: seq<int>, t: seq<int>, f: Five) {
    |s| == |t| &&
    forall x :: 0 <= x < |s| && x != f.e1 && x != f.e2 && x != f.e3 && x != f.e4 && x != f.e5 ==> s[x] == t[x]
  }

  /** `if (a[i] > a[j]) { int t = a[i]; a[i] = a[j]; a[j] = t; }`: afterwards a[i] <= a[j], and the pair is the old pair. */
  method CompareExchange(a: array<int>, i: int, j: int)
    requires 0 <= i < a.Length && 0 <= j < a.Length && i != j
    modifies a
    ensures a[i] == Min(old(a[i]), old(a[j])) && a[j] == Max(old(a[i]), old(a[j]))
    ensures forall x :: 0 <= x < a.Length && x != i && x != j ==> a[x] == old(a[x])
    ensures multiset(a[..]) == multiset(old(a[..]))
  {
    ghost var s := a[..];
    if a[i] > a[j] {
      var t := a[i];
      a[i] := a[j];
      a[j] := t;
      SwapAt(s, a[..], i, j);
    }
  }

  /**
   * The 4-element sorting network of the r32 driver: (e1, e4), (e2, e5),
   * (e4, e5), (e1, e2), (e2, e4). It sorts a[e1], a[e2], a[e4], a[e5] and
   * does not touch a[e3].
   */
  method R32Network(a: array<int>, f: Five)
    requires Inside(f, a.Length)
    modifies a
    ensures a[f.e1] <= a[f.e2] <= a[f.e4] <= a[f.e5]
    ensures OnlySlots(a[..], old(a[..]), f) && a[f.e3] == old(a[f.e3])
    ensures multiset(a[..]) == multiset(old(a[..]))
  {
    CompareExchange(a, f.e1, f.e4);
    CompareExchange(a, f.e2, f.e5);
    CompareExchange(a, f.e4, f.e5);
    CompareExchange(a, f.e1, f.e2);
    CompareExchange(a, f.e2, f.e4);
  }

  /**
   * The reversed-order network of the b01 driver: (e2, e5), (e1, e4),
   * (e4, e5), (e1, e2), (e2, e4), each written as `if (a[hi] < a[lo])`.
   */
  method B01Network(a: array<int>, f: Five)
    requires Inside(f, a.Length)
    modifies a
    ensures a[f.e1] <= a[f.e2] <= a[f.e4] <= a[f.e5]
    ensures OnlySlots(a[..], old(a[..]), f) && a[f.e3] == old(a[f.e3])
    ensures multiset(a[..]) == multiset(old(a[..]))
  {
    CompareExchange(a, f.e2, f.e5);
    CompareExchange(a, f.e1, f.e4);
    CompareExchange(a, f.e4, f.e5);
    CompareExchange(a, f.e1, f.e2);
    CompareExchange(a, f.e2, f.e4);
  }

  /**
   * The insertion of the third element a3 = a[e3] into the sorted four: it
   * goes below e2 (and below e1), above e4 (and above e5), or stays.
   */
  method InsertThird(a: array<int>, f: Five)
    requires Inside(f, a.Length)
    requires a[f.e1] <= a[f.e2] <= a[f.e4] <= a[f.e5]
    modifies a
    ensures SampleSorted(a[..], f)
    ensures OnlySlots(a[..], old(a[..]), f)
    ensures multiset(a[..]) == multiset(old(a[..]))
  {
    var a3 := a[f.e3];
    if a3 < a[f.e2] {
      InsertBelow(a, f);
    } else if a3 > a[f.e4] {
      InsertAbove(a, f);
    } else {
      assert OnlySlots(a[..], old(a[..]), f);
    }
  }

  /** InsertThird for an a3 below a[e2]: `a[e3] = a[e2]; ...` moving the smaller slots up by one. */
  method InsertBelow(a: array<int>, f: Five)
    requires Inside(f, a.Length)
    requires a[f.e1] <= a[f.e2] <= a[f.e4] <= a[f.e5] && a[f.e3] < a[f.e2]
    modifies a
    ensures SampleSorted(a[..], f)
    ensures OnlySlots(a[..], old(a[..]), f)
    ensures multiset(a[..]) == multiset(old(a[..]))
  {
    ghost var s := a[..];
    var a3 := a[f.e3];
    if a3 < a[f.e1] {
      a[f.e3] := a[f.e2]; a[f.e2] := a[f.e1]; a[f.e1] := a3;
      assert a[..] == s[f.e3 := s[f.e2]][f.e2 := s[f.e1]][f.e1 := s[f.e3]];
      BelowBoth(s, a[..], f);
    } else {
      a[f.e3] := a[f.e2]; a[f.e2] := a3;
      assert a[..] == s[f.e3 := s[f.e2]][f.e2 := s[f.e3]];
      BelowOne(s, a[..], f);
    }
  }

  /** a3 below both a[e2] and a[e1]: the rotation of e3, e2 and e1 sorts the slots. */
  lemma BelowBoth(s: seq<int>, t: seq<int>, f: Five)
    requires Inside(f, |s|) && s[f.e3] < s[f.e1] <= s[f.e2] <= s[f.e4] <= s[f.e5]
    requires t == s[f.e3 := s[f.e2]][f.e2 := s[f.e1]][f.e1 := s[f.e3]]
    ensures SampleSorted(t, f) && OnlySlots(t, s, f) && multiset(t) == multiset(s)
  {
    Cycled(s, t, f, f.e3, f.e2, f.e1);
  }

  /** a3 between a[e1] and a[e2]: exchanging e3 and e2 sorts the slots. */
  lemma BelowOne(s: seq<int>, t: seq<int>, f: Five)
    requires Inside(f, |s|) && s[f.e1] <= s[f.e3] < s[f.e2] <= s[f.e4] <= s[f.e5]
    requires t == s[f.e3 := s[f.e2]][f.e2 := s[f.e3]]
    ensures SampleSorted(t, f) && OnlySlots(t, s, f) && multiset(t) == multiset(s)
  {
    Swapped(s, t, f, f.e3, f.e2);
  }

  /** InsertThird for an a3 above a[e4]: `a[e3] = a[e4]; ...` moving the larger slots down by one. */
  method InsertAbove(a: array<int>, f: Five)
    requires Inside(f, a.Length)
    requires a[f.e1] <= a[f.e2] <= a[f.e4] <= a[f.e5] && a[f.e3] > a[f.e4]
    modifies a
    ensures SampleSorted(a[..], f)
    ensures OnlySlots(a[..], old(a[..]), f)
    ensures multiset(a[..]) == multiset(old(a[..]))
  {
    ghost var s := a[..];
    var a3 := a[f.e3];
    if a3 > a[f.e5] {
      a[f.e3] := a[f.e4]; a[f.e4] := a[f.e5]; a[f.e5] := a3;
      assert a[..] == s[f.e3 := s[f.e4]][f.e4 := s[f.e5]][f.e5 := s[f.e3]];
      AboveBoth(s, a[..], f);
    } else {
      a[f.e3] := a[f.e4]; a[f.e4] := a3;
      assert a[..] == s[f.e3 := s[f.e4]][f.e4 := s[f.e3]];
      AboveOne(s, a[..], f);
    }
  }

  /** a3 above both a[e4] and a[e5]: the rotation of e3, e4 and e5 sorts the slots. */
  lemma AboveBoth(s: seq<int>, t: seq<int>, f: Five)
    requires Inside(f, |s|) && s[f.e1] <= s[f.e2] <= s[f.e4] <= s[f.e5] < s[f.e3]
    requires t == s[f.e3 := s[f.e4]][f.e4 := s[f.e5]][f.e5 := s[f.e3]]
    ensures SampleSorted(t, f) && OnlySlots(t, s, f) && multiset(t) == multiset(s)
  {
    Cycled(s, t, f, f.e3, f.e4, f.e5);
  }

  /** a3 between a[e4] and a[e5]: exchanging e3 and e4 sorts the slots. */
  lemma AboveOne(s: seq<int>, t: seq<int>, f: Five)
    requires Inside(f, |s|) && s[f.e1] <= s[f.e2] <= s[f.e4] < s[f.e3] <= s[f.e5]
    requires t == s[f.e3 := s[f.e4]][f.e4 := s[f.e3]]
    ensures SampleSorted(t, f) && OnlySlots(t, s, f) && multiset(t) == multiset(s)
  {
    Swapped(s, t, f, f.e3, f.e4);
  }

  predicate IsSlot(f: Five, x: int) {
    x == f.e1 || x == f.e2 || x == f.e3 || x == f.e4 || x == f.e5
  }

  /** Rotating three slots permutes the array and changes only slots. */
  lemma Cycled(s: seq<int>, t: seq<int>, f: Five, i: int, j: int, l: int)
    requires Inside(f, |s|) && |t| == |s| && IsSlot(f, i) && IsSlot(f, j) && IsSlot(f, l) && l != i && l != j
    requires t == s[i := s[j]][j := s[l]][l := s[i]]
    ensures multiset(t) == multiset(s) && OnlySlots(t, s, f)
  {
    CyclePerm(s, i, j, l);
  }

  /** Exchanging two slots permutes the array and changes only slots. */
  lemma Swapped(s: seq<int>, t: seq<int>, f: Five, i: int, j: int)
    requires Inside(f, |s|) && |t| == |s| && IsSlot(f, i) && IsSlot(f, j)
    requires t == s[i := s[j]][j := s[i]]
    ensures multiset(t) == multiset(s) && OnlySlots(t, s, f)
  {
    SwapPerm(s, i, j);
  }

  /** The whole sample sort of the r32 driver: the five slots end in ascending order, permuted among themselves. */
  method R32SortSample(a: array<int>, f: Five)
    requires Inside(f, a.Length)
    modifies a
    ensures SampleSorted(a[..], f)
    ensures OnlySlots(a[..], old(a[..]), f)
    ensures multiset(a[..]) == multiset(old(a[..]))
  {
    R32Network(a, f);
    InsertThird(a, f);
  }

  /** The whole sample sort of the b01 driver. */
  method B01SortSample(a: array<int>, f: Five)
    requires Inside(f, a.Length)
    modifies a
    ensures SampleSorted(a[..], f)
    ensures OnlySlots(a[..], old(a[..]), f)
    ensures multiset(a[..]) == multiset(old(a[..]))
  {
    B01Network(a, f);
    InsertThird(a, f);
  }
}
