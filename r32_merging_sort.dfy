/**
 * tryMergingSort of the r32 sorter: the range is scanned for ascending,
 * descending (reversed on the spot) and constant sequences, whose start
 * indices go into a run table; when the runs are long enough and few enough,
 * they are merged with mergeRuns through a buffer of the range's size.
 */
module R32MergingSort {
  import opened SortSpec
  import opened Merging
  import opened R32Merging

  /** The minimal average run length: scanning stops when runs are shorter. */
  const MIN_RUN_SIZE: int := 64
  /** The largest run table allocated. */
  const MAX_RUN_CAPACITY: int := 10 * 1024

  /** `Math.min((high - low) >> 6, MAX_RUN_CAPACITY) | 8`: the length of the run table for a range of n elements. */
  function RunTableLength(n: int): (len: int)
    requires 0 <= n
    ensures 8 <= len <= MAX_RUN_CAPACITY + 8
  {
    SetBit3(Min(n / 64, MAX_RUN_CAPACITY))
  }

  /** `m | 8` for a non-negative m: bit 3 set, every other bit (the value mod 8 and the value div 16) kept. */
  function SetBit3(m: int): (r: int)
    requires 0 <= m
    ensures r % 16 >= 8 && r % 8 == m % 8 && r / 16 == m / 16
    ensures r == m || r == m + 8
  {
    if m % 16 >= 8 then m else m + 8
  }

  /**
   * `run[count] = k`: records k as the end of run count - 1, given that the
   * runs before it are recorded and a[run[count - 1]..k) is sorted.
   */
  method SaveRun(run: array<int>, count: int, k: int, ghost s: seq<int>)
    requires 1 <= count < run.Length && 0 <= run[0] && 0 <= run[count - 1] < k <= |s|
    requires count > 1 ==> RunsOk(run[..], 0, count - 1) && RunsSorted(s, run[..], 0, count - 1)
    requires SortedRange(s, run[count - 1], k)
    modifies run
    ensures run[..] == old(run[..])[count := k]
    ensures RunsOk(run[..], 0, count) && RunsSorted(s, run[..], 0, count)
  {
    RunAppended(s, run[..], run[..][count := k], count, k);
    run[count] := k;
  }

  /** How the scanning loop goes on after a run was noted: with the next run, or stopping with the result. */
  datatype Step = Next | Stop(result: bool)

  /**
   * The part of the scanning loop that notes the run a[last..k) just found:
   * the first run allocates the run table (or ends the sort when it covers
   * the range), a run after a descent opens a new entry (or fails when the
   * table is full), any other run extends the last entry; then k is saved as
   * the end of the last run.
   */
  method NoteRun(a: array<int>, run: array?<int>, count: int, low: int, last: int, k: int, high: int)
      returns (run2: array?<int>, count2: int, step: Step)
    requires 0 <= low <= last < k <= high <= a.Length
    requires SortedRange(a[..], last, k)
    requires run == null ==> count == 1 && last == low
    requires run != null ==> run != a && 1 <= count < run.Length && run[0] == low && run[count] == last
    requires run != null ==> RunsOk(run[..], 0, count) && RunsSorted(a[..], run[..], 0, count)
    requires run != null ==> run.Length == RunTableLength(high - low)
    modifies if run == null then {} else {run}
    ensures a[..] == old(a[..])
    ensures step == Stop(true) <==> run == null && k == high
    ensures step == Stop(true) ==> SortedRange(a[..], low, high)
    ensures step == Stop(false) <==> run != null && a[last - 1] > a[last] && count + 1 == run.Length
    ensures step == Next ==> run2 != null && run2 != a && (run2 == run || fresh(run2))
    ensures step == Next ==> run2.Length == RunTableLength(high - low)
    ensures step == Next ==> count2 == if run != null && a[last - 1] > a[last] then count + 1 else count
    ensures step == Next ==> 1 <= count2 < run2.Length && run2[0] == low && run2[count2] == k
    ensures step == Next ==> RunsOk(run2[..], 0, count2) && RunsSorted(a[..], run2[..], 0, count2)
  {
    if run == null {
      run2, step := FirstRun(a, low, k, high);
      count2 := 1;
    } else {
      run2 := run;
      count2, step := NextRun(a, run, count, low, last, k);
    }
  }

  /**
   * The first run a[low..k): the range is sorted when it reaches `high`;
   * otherwise a new run table records it.
   */
  method FirstRun(a: array<int>, low: int, k: int, high: int) returns (run: array?<int>, step: Step)
    requires 0 <= low < k <= high <= a.Length && SortedRange(a[..], low, k)
    ensures step != Stop(false) && (step == Stop(true) <==> k == high)
    ensures step == Stop(true) ==> SortedRange(a[..], low, high)
    ensures step == Next ==> run != null && fresh(run) && run.Length == RunTableLength(high - low)
    ensures step == Next ==> 1 < run.Length && run[0] == low && run[1] == k
    ensures step == Next ==> RunsOk(run[..], 0, 1) && RunsSorted(a[..], run[..], 0, 1)
  {
    if k == high {
      return null, Stop(true);
    }
    run := new int[RunTableLength(high - low)];
    run[0] := low;
    SaveRun(run, 1, k, a[..]);
    step := Next;
  }

  /**
   * A later run a[last..k): after a descent it opens a new entry, or fails
   * when `++count == run.length`; without a descent it extends the last
   * entry. Then the end of the last run is saved.
   */
  method NextRun(a: array<int>, run: array<int>, count: int, low: int, last: int, k: int)
      returns (count2: int, step: Step)
    requires 0 <= low <= last < k <= a.Length && SortedRange(a[..], last, k)
    requires run != a && 1 <= count < run.Length && run[0] == low && run[count] == last
    requires RunsOk(run[..], 0, count) && RunsSorted(a[..], run[..], 0, count)
    modifies run
    ensures step != Stop(true)
    ensures step == Stop(false) <==> a[last - 1] > a[last] && count + 1 == run.Length
    ensures step == Next ==> count2 == if a[last - 1] > a[last] then count + 1 else count
    ensures step == Next ==> 1 <= count2 < run.Length && run[0] == low && run[count2] == k
    ensures step == Next ==> RunsOk(run[..], 0, count2) && RunsSorted(a[..], run[..], 0, count2)
  {
    count2, step := count, Next;
    if a[last - 1] > a[last] {
      count2 := count2 + 1;
      if count2 == run.Length {
        return count2, Stop(false);
      }
    } else {
      RunJoined(a[..], run[..], count2, k);
      RunsPrefix(a[..], run[..], count2);
    }
    SaveRun(run, count2, k, a[..]);
  }

  /**
   * The state at the head of the scanning loop of tryMergingSort, with s0 the
   * contents on entry. a[last..k) is the constant start of the run being
   * scanned, the table (when allocated) records sorted runs ending at `last`,
   * and the range is a permutation of s0 with the same outside. An ascending
   * or descending s0 is still untouched and has no table yet.
   */
  ghost predicate Scanning(s: seq<int>, s0: seq<int>, low: int, high: int, hasRun: bool, r: seq<int>,
                           count: int, last: int, k: int)
  {
    0 <= low <= last <= high <= |s| && low + 1 <= k <= high + 1 && last <= k &&
    (k <= high ==> AllEqual(s, last, k, s[k - 1])) &&
    (k == high ==> !hasRun && high == low + 1) &&
    (k > high ==> last == high) &&
    (!hasRun ==> count == 1 && last == low) &&
    (hasRun ==> 1 <= count < |r| && r[0] == low && r[count] == last &&
                RunsOk(r, 0, count) && RunsSorted(s, r, 0, count)) &&
    multiset(s) == multiset(s0) && SameOutside(s, s0, low, high) &&
    (SortedRange(s0, low, high) ==> !hasRun && s == s0) &&
    (DescendingRange(s0, low, high) ==> !hasRun && s == s0)
  }

  /** The run table as a sequence, empty before it is allocated. */
  function Table(run: array?<int>): seq<int>
    reads run
  {
    if run == null then [] else run[..]
  }

  /**
   * One iteration of the scanning loop of tryMergingSort: scans the next
   * sequence and, unless it is a constant one stopping before `high`, checks
   * the run length and notes the run. The sequence scanned ends at `end`;
   * `finished` tells that it is a run, not a constant stretch going on. `stop`
   * reports a `return result`: false exactly when the runs are too short on
   * average, or a new run finds the table full; true exactly when the first
   * run covers the range.
   */
  method ScanStep(a: array<int>, low: int, high: int, run: array?<int>, count: int, last: int, k: int,
                  ghost s0: seq<int>, ghost prev: int)
      returns (run2: array?<int>, count2: int, last2: int, k2: int, stop: bool, result: bool, end: int, finished: bool,
               ghost prev2: int)
    requires k < high && run != a
    requires Scanning(a[..], s0, low, high, run != null, Table(run), count, last, k)
    requires run != null ==> run.Length == RunTableLength(high - low)
    requires Tracked(a[..], s0, low, high, run != null, prev, last) && (k == last ==> k + 1 == high)
    modifies a, if run == null then {} else {run}
    ensures !stop && run2 != null ==> run2.Length == RunTableLength(high - low)
    ensures k < end <= high
    ensures finished ==> SortedRange(a[..], last, end)
    ensures !finished ==> !stop && end < high && AllEqual(a[..], last, end, a[end - 1])
    ensures stop && !result <==>
              finished && (end - low < count * MIN_RUN_SIZE ||
                           (run != null && a[last - 1] > a[last] && count + 1 == run.Length))
    ensures stop && result <==> finished && end - low >= count * MIN_RUN_SIZE && run == null && end == high
    ensures !stop ==> run2 != a && (run2 == run || fresh(run2)) && k < k2
    ensures !stop ==> Scanning(a[..], s0, low, high, run2 != null, Table(run2), count2, last2, k2)
    ensures stop ==> multiset(a[..]) == multiset(s0) && SameOutside(a[..], s0, low, high)
    ensures stop && result ==> SortedRange(a[..], low, high)
    ensures stop && SortedRange(s0, low, high) && high - low >= MIN_RUN_SIZE ==> result && a[..] == s0
    ensures stop && DescendingRange(s0, low, high) && high - low >= MIN_RUN_SIZE ==> result
    ensures (end, !finished) == if k == last then (high, false) else SequenceEnd(s0, k, high)
    ensures finished && run != null ==> (a[last - 1] > a[last] <==> MaxOf(s0, prev, last) > MinOf(s0, last, end))
    ensures !finished ==> run2 == run && count2 == count && prev2 == prev && last2 == last && k2 == end
    ensures finished && !stop ==> run2 != null && prev2 == last && last2 == end && k2 == NextStart(end, high)
    ensures finished && !stop ==> count2 == if run != null && a[last - 1] > a[last] then count + 1 else count
    ensures !stop ==> Tracked(a[..], s0, low, high, run2 != null, prev2, last2)
  {
    ghost var before := a[..];
    var k1, more := ScanRun(a, low, last, k, high);
    ghost var scanned := a[..];
    ScanKept(before, scanned, s0, low, high, run != null, Table(run), count, last, k, k1, more);
    if last < k {
      SequenceEndAgrees(before, s0, k, high);
    }
    end, finished := k1, !more;
    if more {
      return run, count, last, k1, false, false, end, finished, prev;
    }
    run2, count2, last2, k2, stop, result, prev2 := ProcessRun(a, low, high, run, count, last, k1, s0, before, prev);
  }

  /**
   * The part of the scanning loop after a run a[last..end) is found: the
   * scan fails when the runs are too short on average, and otherwise the run
   * is noted; then the scan goes on past it.
   */
  method ProcessRun(a: array<int>, low: int, high: int, run: array?<int>, count: int, last: int, end: int,
                    ghost s0: seq<int>, ghost before: seq<int>, ghost prev: int)
      returns (run2: array?<int>, count2: int, last2: int, k2: int, stop: bool, result: bool, ghost prev2: int)
    requires run != a && 0 <= low <= last < end <= high <= a.Length && SortedRange(a[..], last, end)
    requires run == null ==> count == 1 && last == low
    requires run != null ==> 1 <= count < run.Length && run[0] == low && run[count] == last
    requires run != null ==> RunsOk(run[..], 0, count) && RunsSorted(a[..], run[..], 0, count)
    requires run != null ==> run.Length == RunTableLength(high - low)
    requires multiset(a[..]) == multiset(s0) && SameOutside(a[..], s0, low, high)
    requires SortedRange(s0, low, high) || DescendingRange(s0, low, high) ==> run == null && end == high
    requires Tracked(before, s0, low, high, run != null, prev, last)
    requires |before| == a.Length && multiset(a[..]) == multiset(before) && SameOutside(a[..], before, last, end)
    modifies if run == null then {} else {run}
    ensures a[..] == old(a[..])
    ensures run != null ==> (a[last - 1] > a[last] <==> MaxOf(s0, prev, last) > MinOf(s0, last, end))
    ensures stop && !result <==>
              end - low < count * MIN_RUN_SIZE || (run != null && a[last - 1] > a[last] && count + 1 == run.Length)
    ensures stop && result <==> end - low >= count * MIN_RUN_SIZE && run == null && end == high
    ensures stop && result ==> SortedRange(a[..], low, high)
    ensures !stop ==> run2 != a && (run2 == run || fresh(run2)) && run2 != null
    ensures !stop ==> run2.Length == RunTableLength(high - low) && last2 == end && k2 == NextStart(end, high)
    ensures !stop ==> Scanning(a[..], s0, low, high, true, Table(run2), count2, last2, k2)
    ensures !stop ==> Tracked(a[..], s0, low, high, true, prev2, last2) && prev2 == last
    ensures !stop ==> count2 == if run != null && a[last - 1] > a[last] then count + 1 else count
  {
    SequenceScanned(before, a[..], s0, low, high, run != null, prev, last, end);
    run2, count2, last2, k2, stop, result, prev2 := run, count, last, end, true, false, last;
    if end - low < count * MIN_RUN_SIZE {
      return;
    }
    var step;
    run2, count2, step := NoteRun(a, run, count, low, last, end, high);
    if step.Stop? {
      return run2, count2, last2, k2, true, step.result, prev2;
    }
    last2, stop := end, false;
    k2 := end + 1;
    if k2 == high {
      k2 := k2 - 1;
    }
    RunNoted(a[..], s0, low, high, Table(run2), count2, end, k2);
  }

  /**
   * What the scan of one sequence keeps: a sequence that goes on as a constant
   * one leaves the loop state valid with k moved to its end; a finished one is
   * sorted from `last`, the table still records sorted runs, and an ascending
   * or descending s0 is recognised as one run reaching `high`.
   */
  lemma ScanKept(before: seq<int>, s: seq<int>, s0: seq<int>, low: int, high: int, hasRun: bool, r: seq<int>,
                 count: int, last: int, k: int, k1: int, more: bool)
    requires k < high && Scanning(before, s0, low, high, hasRun, r, count, last, k)
    requires k < k1 <= high && |s| == |before|
    requires more ==> k1 < high && AllEqual(s, last, k1, s[k1 - 1])
    requires !more ==> SortedRange(s, last, k1)
    requires multiset(s) == multiset(before) && SameOutside(s, before, last, k1)
    requires SortedRange(before, k - 1, high) ==> s == before && (more || k1 == high)
    requires DescendingRange(before, k - 1, high) ==> k1 == high || (more && s == before)
    ensures more ==> Scanning(s, s0, low, high, hasRun, r, count, last, k1)
    ensures multiset(s) == multiset(s0) && SameOutside(s, s0, low, high)
    ensures hasRun ==> RunsOk(r, 0, count) && RunsSorted(s, r, 0, count)
    ensures SortedRange(s0, low, high) ==> !hasRun && s == s0 && (more || k1 == high)
    ensures DescendingRange(s0, low, high) ==> !hasRun && (k1 == high || (more && s == s0))
  {
    SameOutsideTrans(s, before, s0, low, high, last, k1);
    if hasRun {
      RunsSortedPart(before, s, r, 0, count, 0, count, last, k1);
    }
  }

  /** After a run ending at k1 is noted, the loop state is valid again with `last` at k1. */
  lemma RunNoted(s: seq<int>, s0: seq<int>, low: int, high: int, r: seq<int>, count: int, k1: int, k2: int)
    requires 0 <= low < k1 <= high <= |s| && 1 <= count < |r| && r[0] == low && r[count] == k1
    requires RunsOk(r, 0, count) && RunsSorted(s, r, 0, count)
    requires k2 == (if k1 + 1 == high then k1 else k1 + 1)
    requires multiset(s) == multiset(s0) && SameOutside(s, s0, low, high)
    requires !SortedRange(s0, low, high) && !DescendingRange(s0, low, high)
    ensures Scanning(s, s0, low, high, true, r, count, k1, k2)
  {
  }

  /**
   * Why tryMergingSort returned what it did: success, or one of its three
   * `return false`s.
   */
  datatype Cause =
    | Success
      /** `k - low < count * MIN_RUN_SIZE` for a run ending at `end` with `runs` runs so far. */
    | RunsTooShort(end: int, runs: int)
      /** `++count == run.length`: a new run found all `runs` entries of the table taken. */
    | TableFull(runs: int)
      /** `runs` runs to merge, and no buffer. */
    | NoBuffer(runs: int)

  /** How the scan for runs ends: the first run covers the range, all runs are found, or the scan gives up. */
  datatype ScanEnd = Monotonous | AllRuns(runs: int) | GaveUp(cause: Cause)

  /** Where the scan goes on after a run ending at `end`: past it, or at it for a single element at the end. */
  function NextStart(end: int, high: int): (k: int)
    ensures k == end || k == end + 1
    ensures k == end <==> end + 1 == high
  {
    if end + 1 == high then end else end + 1
  }

  /**
   * The scanning loop of tryMergingSort computed on the input s itself,
   * without reversing anything: from the state `count` runs, the sequence
   * s[prev..last) scanned last, the current run starting at `last` and the
   * scan at k, the sequences of s are found, and each finished one is a
   * run, dealt with by RunScanned. A sequence starting at `last == k` is the
   * single element before `high`.
   */
  ghost function ScanFrom(s: seq<int>, low: int, high: int, count: int, prev: int, last: int, k: int,
                          hasRun: bool): ScanEnd
    requires 0 <= low <= prev <= last <= k && low < k && high <= |s|
    requires k == last ==> k + 1 == high
    requires hasRun ==> prev < last
    decreases high - k, 0
  {
    if k >= high then AllRuns(count)
    else
      var (end, more) := if k == last then (high, false) else SequenceEnd(s, k, high);
      if more then ScanFrom(s, low, high, count, prev, last, end, hasRun)
      else RunScanned(s, low, high, count, prev, last, end, hasRun)
  }

  /**
   * The run s[last..end) found by ScanFrom: the scan gives up when the runs
   * are too short on average; the first run ends it when it covers the
   * range; a later one starts a new run exactly when the largest element of
   * the previous sequence exceeds the least of this one, giving up when the
   * table is full.
   */
  ghost function RunScanned(s: seq<int>, low: int, high: int, count: int, prev: int, last: int, end: int,
                            hasRun: bool): ScanEnd
    requires 0 <= low <= prev <= last < end <= high <= |s|
    requires hasRun ==> prev < last
    decreases high - end, 1
  {
    if end - low < count * MIN_RUN_SIZE then GaveUp(RunsTooShort(end, count))
    else if !hasRun then
      if end == high then Monotonous else ScanFrom(s, low, high, 1, last, end, NextStart(end, high), true)
    else if MaxOf(s, prev, last) > MinOf(s, last, end) then
      if count + 1 == RunTableLength(high - low) then GaveUp(TableFull(count + 1))
      else ScanFrom(s, low, high, count + 1, last, end, NextStart(end, high), true)
    else ScanFrom(s, low, high, count, last, end, NextStart(end, high), true)
  }

  /**
   * What tryMergingSort returns for the input s, as a cause: the scan's, or
   * for several runs found, a missing buffer.
   */
  ghost function Outcome(s: seq<int>, low: int, high: int, canAllocate: bool): Cause
    requires 0 <= low <= high <= |s|
  {
    match ScanFrom(s, low, high, 1, low, low, low + 1, false)
    case Monotonous => Success
    case AllRuns(n) => if n > 1 && !canAllocate then NoBuffer(n) else Success
    case GaveUp(c) => c
  }

  /**
   * On an ascending or descending range of at least MIN_RUN_SIZE elements,
   * the scan from any k inside the first run finds that run reaching
   * `high`, or has nothing left to scan.
   */
  lemma {:induction false} MonotoneScan(s: seq<int>, low: int, high: int, k: int)
    requires 0 <= low < k && high <= |s| && (SortedRange(s, low, high) || DescendingRange(s, low, high))
    requires high - low >= MIN_RUN_SIZE
    ensures ScanFrom(s, low, high, 1, low, low, k, false) in {Monotonous, AllRuns(1)}
    decreases high - k
  {
    if k < high {
      if s[k - 1] < s[k] {
        AscentToEnd(s, k + 1, high);
      } else if s[k - 1] > s[k] {
        DescentToEnd(s, k + 1, high);
      } else {
        var e := EqualEnd(s, s[k], k + 1, high);
        if e < high {
          MonotoneScan(s, low, high, e);
        }
      }
    }
  }

  /** tryMergingSort succeeds on every ascending or descending range of at least MIN_RUN_SIZE elements, whatever the buffer. */
  lemma MonotoneOutcome(s: seq<int>, low: int, high: int, canAllocate: bool)
    requires 0 <= low <= high <= |s| && (SortedRange(s, low, high) || DescendingRange(s, low, high))
    requires high - low >= MIN_RUN_SIZE
    ensures Outcome(s, low, high, canAllocate) == Success
  {
    MonotoneScan(s, low, high, low + 1);
  }

  /**
   * One iteration of the scanning loop follows ScanFrom: when the sequence
   * scanned at k and the descent test are those of the input, and the loop
   * goes on, stops or changes its state as ScanStep states, the scan of the
   * input from the new state ends as it did from the old one, or ends with
   * the result the loop returns.
   */
  lemma ScanAdvances(s: seq<int>, low: int, high: int, count: int, prev: int, last: int, k: int, hasRun: bool,
                     end: int, more: bool, descent: bool, stop: bool, result: bool,
                     count2: int, prev2: int, last2: int, k2: int, hasRun2: bool)
    requires 0 <= low <= prev <= last <= k && low < k < high <= |s|
    requires (k == last ==> k + 1 == high) && (hasRun ==> prev < last) && (!hasRun ==> count == 1)
    requires (end, more) == if k == last then (high, false) else SequenceEnd(s, k, high)
    requires hasRun && !more ==> (descent <==> MaxOf(s, prev, last) > MinOf(s, last, end))
    requires more ==> !stop && count2 == count && prev2 == prev && last2 == last && k2 == end && hasRun2 == hasRun
    requires !more ==> (stop && !result <==>
                        end - low < count * MIN_RUN_SIZE || (hasRun && descent && count + 1 == RunTableLength(high - low)))
    requires !more ==> (stop && result <==> end - low >= count * MIN_RUN_SIZE && !hasRun && end == high)
    requires !more && !stop ==> hasRun2 && prev2 == last && last2 == end && k2 == NextStart(end, high)
    requires !more && !stop ==> count2 == if hasRun && descent then count + 1 else count
    ensures !stop ==> 0 <= low <= prev2 <= last2 <= k2 && low < k2 && (k2 == last2 ==> k2 + 1 == high)
    ensures !stop ==> (hasRun2 ==> prev2 < last2) &&
                      ScanFrom(s, low, high, count, prev, last, k, hasRun) ==
                      ScanFrom(s, low, high, count2, prev2, last2, k2, hasRun2)
    ensures stop ==> ScanFrom(s, low, high, count, prev, last, k, hasRun) ==
                     if result then Monotonous
                     else if end - low < count * MIN_RUN_SIZE then GaveUp(RunsTooShort(end, count))
                     else GaveUp(TableFull(count + 1))
  {
    assert ScanFrom(s, low, high, count, prev, last, k, hasRun) ==
           if more then ScanFrom(s, low, high, count, prev, last, end, hasRun)
           else RunScanned(s, low, high, count, prev, last, end, hasRun);
    if !more && !stop {
      assert end - low >= count * MIN_RUN_SIZE;
      if !hasRun {
        assert RunScanned(s, low, high, count, prev, last, end, hasRun) ==
               ScanFrom(s, low, high, 1, last, end, NextStart(end, high), true);
      } else if descent {
        assert RunScanned(s, low, high, count, prev, last, end, hasRun) ==
               ScanFrom(s, low, high, count + 1, last, end, NextStart(end, high), true);
      } else {
        assert RunScanned(s, low, high, count, prev, last, end, hasRun) ==
               ScanFrom(s, low, high, count, last, end, NextStart(end, high), true);
      }
    }
  }

  /**
   * tryMergingSort on a[low..high), with the buffer allocation outcome as the
   * parameter `canAllocate`. A true result means the range is sorted; a false
   * one comes with its cause: runs too short on average, a full run table, or
   * several runs and no buffer. In every case the range holds a permutation of
   * its old contents (descending runs may be reversed already) and nothing
   * outside it changes. An ascending or descending range of at least
   * MIN_RUN_SIZE elements succeeds without a buffer, an ascending one without
   * being touched.
   */
  method TryMergingSort(a: array<int>, low: int, high: int, canAllocate: bool) returns (sorted: bool, ghost cause: Cause)
    requires 0 <= low <= high <= a.Length
    modifies a
    ensures cause == Outcome(old(a[..]), low, high, canAllocate)
    ensures sorted <==> cause == Success
    ensures cause.RunsTooShort? ==> low < cause.end <= high && cause.end - low < cause.runs * MIN_RUN_SIZE
    ensures cause.TableFull? ==> cause.runs == RunTableLength(high - low)
    ensures cause.NoBuffer? ==> !canAllocate && cause.runs > 1
    ensures sorted ==> SortedRange(a[..], low, high)
    ensures multiset(a[..]) == multiset(old(a[..]))
    ensures SameOutside(a[..], old(a[..]), low, high)
    ensures SortedRange(old(a[..]), low, high) && high - low >= MIN_RUN_SIZE ==> sorted && a[..] == old(a[..])
    ensures DescendingRange(old(a[..]), low, high) && high - low >= MIN_RUN_SIZE ==> sorted
  {
    var count := 1;
    var run: array?<int> := null;
    var k, last := low + 1, low;
    ghost var prev := low;
    while k < high
      invariant run != null ==> fresh(run) && run.Length == RunTableLength(high - low)
      invariant Scanning(a[..], old(a[..]), low, high, run != null, Table(run), count, last, k)
      invariant Tracked(a[..], old(a[..]), low, high, run != null, prev, last) && (k == last ==> k + 1 == high)
      invariant ScanFrom(old(a[..]), low, high, count, prev, last, k, run != null) ==
                ScanFrom(old(a[..]), low, high, 1, low, low, low + 1, false)
      decreases high + 1 - k
    {
      var stop, result, end, finished;
      var count0, last0, k0, hasRun0 := count, last, k, run != null;
      ghost var prev0 := prev;
      run, count, last, k, stop, result, end, finished, prev :=
        ScanStep(a, low, high, run, count, last, k, old(a[..]), prev);
      ghost var descent := hasRun0 && finished && a[last0 - 1] > a[last0];
      ScanAdvances(old(a[..]), low, high, count0, prev0, last0, k0, hasRun0, end, !finished, descent, stop, result,
                   count, prev, last, k, run != null);
      if stop {
        if result {
          cause := Success;
        } else if end - low < count0 * MIN_RUN_SIZE {
          cause := RunsTooShort(end, count0);
        } else {
          cause := TableFull(count0 + 1);
        }
        return result, cause;
      }
    }
    sorted := MergeAllRuns(a, low, high, run, count, last, k, canAllocate, old(a[..]));
    cause := if sorted then Success else NoBuffer(count);
  }

  /**
   * The end of tryMergingSort, once the whole range is scanned: several runs
   * are merged through a new buffer, when one can be allocated; a single run
   * is the sorted range.
   */
  method MergeAllRuns(a: array<int>, low: int, high: int, run: array?<int>, count: int, last: int, k: int,
                      canAllocate: bool, ghost s0: seq<int>)
      returns (sorted: bool)
    requires run != a && high <= k && Scanning(a[..], s0, low, high, run != null, Table(run), count, last, k)
    modifies a
    ensures sorted <==> count == 1 || canAllocate
    ensures sorted ==> SortedRange(a[..], low, high)
    ensures multiset(a[..]) == multiset(old(a[..])) && SameOutside(a[..], old(a[..]), low, high)
  {
    if count > 1 {
      if !canAllocate {
        return false;
      }
      var b := new int[high - low];
      ghost var before := a[..];
      MergeRuns(a, b, low, true, run[..], 0, count);
      SortedRangeSlice(a[..], low, high);
      RangePerm(a[..], before, low, high);
      SameOutsideTrans(a[..], before, old(a[..]), low, high, low, high);
    } else if run != null {
      OneRun(a[..], run[..], 0, 1);
      SortedRangeSlice(a[..], low, high);
    }
    return true;
  }
}
