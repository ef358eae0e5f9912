/**
 * tryMergingSort of the b01 sorter. The scan for runs is that of the r32
 * sorter, and so are the loop state and the run table (R32MergingSort); what
 * differs is when scanning gives up: only the first run must be
 * MIN_RUN_SIZE long, a range that is one run is sorted whatever its size, the
 * average run length is checked only when a new run starts, the run table has
 * `((n >> 9) & 0x1FF) | 0x3F` entries, and the runs are merged by
 * B01Merging.MergeRuns with the buffer's offset at low.
 */
module B01MergingSort {
  import opened SortSpec
  import opened Merging
  import opened R32MergingSort
  import B01Merging

  /** The minimal run length: the first run, and then the average one, must not be shorter. */
  const MIN_RUN_SIZE: int := 128

  /** `m | 0x3F` for a non-negative m: the low six bits set, the higher ones kept. */
  function SetLow6(m: int): (r: int)
    requires 0 <= m
    ensures r % 64 == 63 && r / 64 == m / 64
    ensures m <= r < m + 64
  {
    m / 64 * 64 + 63
  }

  /** `((n >> 9) & 0x1FF) | 0x3F`: the length of the run table for a range of n elements. */
  function RunTableLength(n: int): (len: int)
    requires 0 <= n
    ensures 63 <= len <= 511 && len % 64 == 63
    ensures len / 64 == n / 512 % 512 / 64
  {
    SetLow6(n / 512 % 512)
  }

  /**
   * The part of the scanning loop that notes the run a[last..k) just found:
   * the first run ends the sort when it covers the range and fails when it is
   * shorter than MIN_RUN_SIZE, or else allocates the run table; a run after a
   * descent fails when the runs so far are too short on average or the table
   * is full, and otherwise opens a new entry; any other run extends the last
   * entry. Then k is saved as the end of the last run.
   */
  method NoteRun(a: array<int>, run: array?<int>, count: int, low: int, last: int, k: int, high: int)
      returns (run2: array?<int>, count2: int, step: Step)
    requires 0 <= low <= last < k <= high <= a.Length
    requires SortedRange(a[..], last, k)
    requires run == null ==> count == 1 && last == low
    requires run != null ==> run != a && 1 <= count < run.Length && run[0] == low && run[count] == last
    requires run != null ==> RunsOk(run[..], 0, count) && RunsSorted(a[..], run[..], 0, count)
    requires run != null ==> run.Length == RunTableLength(high - low)
    modifies if run == null then {} else {run}
    ensures a[..] == old(a[..])
    ensures step == Stop(true) <==> run == null && k == high
    ensures step == Stop(true) ==> SortedRange(a[..], low, high)
    ensures run == null && k < high ==> (step == Stop(false) <==> k - low < MIN_RUN_SIZE)
    ensures run != null && a[last - 1] <= a[last] ==> step == Next
    ensures run != null && a[last - 1] > a[last] ==>
              (step == Stop(false) <==> k - low < count * MIN_RUN_SIZE || count + 1 == run.Length)
    ensures step == Next ==> run2 != null && run2 != a && (run2 == run || fresh(run2))
    ensures step == Next ==> run2.Length == RunTableLength(high - low)
    ensures step == Next ==> count2 == if run != null && a[last - 1] > a[last] then count + 1 else count
    ensures step == Next ==> 1 <= count2 < run2.Length && run2[0] == low && run2[count2] == k
    ensures step == Next ==> RunsOk(run2[..], 0, count2) && RunsSorted(a[..], run2[..], 0, count2)
  {
    if run == null {
      count2 := 1;
      run2, step := FirstRun(a, low, k, high);
    } else {
      run2 := run;
      count2, step := NextRun(a, run, count, low, last, k);
    }
  }

  /**
   * The first run a[low..k): the range is sorted when it reaches `high`;
   * otherwise the scan fails when the run is shorter than MIN_RUN_SIZE, and
   * else a new run table records it.
   */
  method FirstRun(a: array<int>, low: int, k: int, high: int) returns (run: array?<int>, step: Step)
    requires 0 <= low < k <= high <= a.Length && SortedRange(a[..], low, k)
    ensures step == Stop(true) <==> k == high
    ensures step == Stop(true) ==> SortedRange(a[..], low, high)
    ensures k < high ==> (step == Stop(false) <==> k - low < MIN_RUN_SIZE)
    ensures step == Next ==> run != null && fresh(run) && run.Length == RunTableLength(high - low)
    ensures step == Next ==> 1 < run.Length && run[0] == low && run[1] == k
    ensures step == Next ==> RunsOk(run[..], 0, 1) && RunsSorted(a[..], run[..], 0, 1)
  {
    run := null;
    if k == high {
      return run, Stop(true);
    }
    if k - low < MIN_RUN_SIZE {
      return run, Stop(false);
    }
    run := new int[RunTableLength(high - low)];
    run[0] := low;
    SaveRun(run, 1, k, a[..]);
    step := Next;
  }

  /**
   * A later run a[last..k): after a descent it fails when the runs so far are
   * too short on average or the table is full, and otherwise opens a new
   * entry; without a descent it extends the last entry. Then the end of the
   * last run is saved.
   */
  method NextRun(a: array<int>, run: array<int>, count: int, low: int, last: int, k: int)
      returns (count2: int, step: Step)
    requires 0 <= low <= last < k <= a.Length && SortedRange(a[..], last, k)
    requires run != a && 1 <= count < run.Length && run[0] == low && run[count] == last
    requires RunsOk(run[..], 0, count) && RunsSorted(a[..], run[..], 0, count)
    modifies run
    ensures step != Stop(true)
    ensures a[last - 1] <= a[last] ==> step == Next && count2 == count
    ensures a[last - 1] > a[last] ==>
              (step == Stop(false) <==> k - low < count * MIN_RUN_SIZE || count + 1 == run.Length)
    ensures step == Next ==> count2 == if a[last - 1] > a[last] then count + 1 else count
    ensures step == Next ==> 1 <= count2 < run.Length && run[count2] == k
    ensures step == Next ==> run[0] == low && RunsOk(run[..], 0, count2) && RunsSorted(a[..], run[..], 0, count2)
  {
    count2 := count;
    if a[last - 1] > a[last] {
      if k - low < count2 * MIN_RUN_SIZE {
        return count2, Stop(false);
      }
      count2 := count2 + 1;
      if count2 == run.Length {
        return count2, Stop(false);
      }
    } else {
      RunJoined(a[..], run[..], count2, k);
      RunsPrefix(a[..], run[..], count2);
    }
    SaveRun(run, count2, k, a[..]);
    step := Next;
  }

  /**
   * One iteration of the scanning loop of tryMergingSort: scans the next
   * sequence and, unless it is a constant one stopping before `high`, notes
   * the run. The sequence scanned ends at `end`; `finished` tells that it is
   * a run, not a constant stretch going on. `stop` reports a `return result`:
   * false exactly when the first run is shorter than MIN_RUN_SIZE without
   * reaching `high`, or a new run finds the runs too short on average or the
   * table full; true exactly when the first run reaches `high`.
   */
  method ScanStep(a: array<int>, low: int, high: int, run: array?<int>, count: int, last: int, k: int,
                  ghost s0: seq<int>, ghost prev: int)
      returns (run2: array?<int>, count2: int, last2: int, k2: int, stop: bool, result: bool, end: int, finished: bool,
               ghost prev2: int)
    requires k < high && run != a
    requires Scanning(a[..], s0, low, high, run != null, Table(run), count, last, k)
    requires run != null ==> run.Length == RunTableLength(high - low)
    requires Tracked(a[..], s0, low, high, run != null, prev, last) && (k == last ==> k + 1 == high)
    modifies a, if run == null then {} else {run}
    ensures !stop && run2 != null ==> run2.Length == RunTableLength(high - low)
    ensures k < end <= high
    ensures finished ==> SortedRange(a[..], last, end)
    ensures !finished ==> !stop && end < high && AllEqual(a[..], last, end, a[end - 1])
    ensures stop && !result <==>
              finished && ((run == null && end < high && end - low < MIN_RUN_SIZE) ||
                           (run != null && a[last - 1] > a[last] &&
                            (end - low < count * MIN_RUN_SIZE || count + 1 == run.Length)))
    ensures stop && result <==> finished && run == null && end == high
    ensures !stop ==> run2 != a && (run2 == run || fresh(run2)) && k < k2
    ensures !stop ==> Scanning(a[..], s0, low, high, run2 != null, Table(run2), count2, last2, k2)
    ensures stop ==> multiset(a[..]) == multiset(s0) && SameOutside(a[..], s0, low, high)
    ensures stop && result ==> SortedRange(a[..], low, high)
    ensures stop && SortedRange(s0, low, high) ==> result && a[..] == s0
    ensures stop && DescendingRange(s0, low, high) ==> result
    ensures (end, !finished) == if k == last then (high, false) else SequenceEnd(s0, k, high)
    ensures finished && run != null ==> (a[last - 1] > a[last] <==> MaxOf(s0, prev, last) > MinOf(s0, last, end))
    ensures !finished ==> run2 == run && count2 == count && prev2 == prev && last2 == last && k2 == end
    ensures finished && !stop ==> run2 != null && prev2 == last && last2 == end && k2 == NextStart(end, high)
    ensures finished && !stop ==> count2 == if run != null && a[last - 1] > a[last] then count + 1 else count
    ensures !stop ==> Tracked(a[..], s0, low, high, run2 != null, prev2, last2)
  {
    ghost var before := a[..];
    var k1, more := ScanRun(a, low, last, k, high);
    ghost var scanned := a[..];
    ScanKept(before, scanned, s0, low, high, run != null, Table(run), count, last, k, k1, more);
    if last < k {
      SequenceEndAgrees(before, s0, k, high);
    }
    end, finished := k1, !more;
    if more {
      return run, count, last, k1, false, false, end, finished, prev;
    }
    run2, count2, last2, k2, stop, result, prev2 := ProcessRun(a, low, high, run, count, last, k1, s0, before, prev);
  }

  /** The part of the scanning loop after a run a[last..end) is found: the run is noted, then the scan goes on past it. */
  method ProcessRun(a: array<int>, low: int, high: int, run: array?<int>, count: int, last: int, end: int,
                    ghost s0: seq<int>, ghost before: seq<int>, ghost prev: int)
      returns (run2: array?<int>, count2: int, last2: int, k2: int, stop: bool, result: bool, ghost prev2: int)
    requires run != a && 0 <= low <= last < end <= high <= a.Length && SortedRange(a[..], last, end)
    requires run == null ==> count == 1 && last == low
    requires run != null ==> 1 <= count < run.Length && run[0] == low && run[count] == last
    requires run != null ==> RunsOk(run[..], 0, count) && RunsSorted(a[..], run[..], 0, count)
    requires run != null ==> run.Length == RunTableLength(high - low)
    requires multiset(a[..]) == multiset(s0) && SameOutside(a[..], s0, low, high)
    requires SortedRange(s0, low, high) || DescendingRange(s0, low, high) ==> run == null && end == high
    requires Tracked(before, s0, low, high, run != null, prev, last)
    requires |before| == a.Length && multiset(a[..]) == multiset(before) && SameOutside(a[..], before, last, end)
    modifies if run == null then {} else {run}
    ensures a[..] == old(a[..])
    ensures run != null ==> (a[last - 1] > a[last] <==> MaxOf(s0, prev, last) > MinOf(s0, last, end))
    ensures stop && !result <==>
              (run == null && end < high && end - low < MIN_RUN_SIZE) ||
              (run != null && a[last - 1] > a[last] && (end - low < count * MIN_RUN_SIZE || count + 1 == run.Length))
    ensures stop && result <==> run == null && end == high
    ensures stop && result ==> SortedRange(a[..], low, high)
    ensures !stop ==> run2 != a && (run2 == run || fresh(run2)) && run2 != null
    ensures !stop ==> run2.Length == RunTableLength(high - low) && last2 == end && k2 == NextStart(end, high)
    ensures !stop ==> Scanning(a[..], s0, low, high, true, Table(run2), count2, last2, k2)
    ensures !stop ==> Tracked(a[..], s0, low, high, true, prev2, last2) && prev2 == last
    ensures !stop ==> count2 == if run != null && a[last - 1] > a[last] then count + 1 else count
  {
    SequenceScanned(before, a[..], s0, low, high, run != null, prev, last, end);
    var step;
    run2, count2, step := NoteRun(a, run, count, low, last, end, high);
    last2, k2, prev2 := last, end, last;
    if step.Stop? {
      return run2, count2, last2, k2, true, step.result, prev2;
    }
    last2, stop, result := end, false, false;
    k2 := end + 1;
    if k2 == high {
      k2 := k2 - 1;
    }
    RunNoted(a[..], s0, low, high, Table(run2), count2, end, k2);
  }

  /**
   * The scanning loop of tryMergingSort computed on the input s itself,
   * without reversing anything, as R32MergingSort.ScanFrom does for the
   * r32 sorter; the runs found are dealt with by RunScanned.
   */
  ghost function ScanFrom(s: seq<int>, low: int, high: int, count: int, prev: int, last: int, k: int,
                          hasRun: bool): ScanEnd
    requires 0 <= low <= prev <= last <= k && low < k && high <= |s|
    requires k == last ==> k + 1 == high
    requires hasRun ==> prev < last
    decreases high - k, 0
  {
    if k >= high then AllRuns(count)
    else
      var (end, more) := if k == last then (high, false) else SequenceEnd(s, k, high);
      if more then ScanFrom(s, low, high, count, prev, last, end, hasRun)
      else RunScanned(s, low, high, count, prev, last, end, hasRun)
  }

  /**
   * The run s[last..end) found by ScanFrom: the first run ends the scan when
   * it covers the range and makes it give up when it is shorter than
   * MIN_RUN_SIZE; a later one starts a new run exactly when the largest
   * element of the previous sequence exceeds the least of this one, and then
   * the scan gives up when the runs are too short on average or the table is
   * full.
   */
  ghost function RunScanned(s: seq<int>, low: int, high: int, count: int, prev: int, last: int, end: int,
                            hasRun: bool): ScanEnd
    requires 0 <= low <= prev <= last < end <= high <= |s|
    requires hasRun ==> prev < last
    decreases high - end, 1
  {
    if !hasRun then
      if end == high then Monotonous
      else if end - low < MIN_RUN_SIZE then GaveUp(RunsTooShort(end, 1))
      else ScanFrom(s, low, high, 1, last, end, NextStart(end, high), true)
    else if MaxOf(s, prev, last) > MinOf(s, last, end) then
      if end - low < count * MIN_RUN_SIZE then GaveUp(RunsTooShort(end, count))
      else if count + 1 == RunTableLength(high - low) then GaveUp(TableFull(count + 1))
      else ScanFrom(s, low, high, count + 1, last, end, NextStart(end, high), true)
    else ScanFrom(s, low, high, count, last, end, NextStart(end, high), true)
  }

  /**
   * What tryMergingSort returns for the input s, as a cause: the scan's, or
   * for several runs found, a missing buffer.
   */
  ghost function Outcome(s: seq<int>, low: int, high: int, canAllocate: bool): Cause
    requires 0 <= low <= high <= |s|
  {
    match ScanFrom(s, low, high, 1, low, low, low + 1, false)
    case Monotonous => Success
    case AllRuns(n) => if n > 1 && !canAllocate then NoBuffer(n) else Success
    case GaveUp(c) => c
  }

  /**
   * On an ascending or descending range, the scan from any k inside the
   * first run finds that run reaching `high`, or has nothing left to scan.
   */
  lemma {:induction false} MonotoneScan(s: seq<int>, low: int, high: int, k: int)
    requires 0 <= low < k && high <= |s| && (SortedRange(s, low, high) || DescendingRange(s, low, high))
    ensures ScanFrom(s, low, high, 1, low, low, k, false) in {Monotonous, AllRuns(1)}
    decreases high - k
  {
    if k < high {
      if s[k - 1] < s[k] {
        AscentToEnd(s, k + 1, high);
      } else if s[k - 1] > s[k] {
        DescentToEnd(s, k + 1, high);
      } else {
        var e := EqualEnd(s, s[k], k + 1, high);
        if e < high {
          MonotoneScan(s, low, high, e);
        }
      }
    }
  }

  /** tryMergingSort succeeds on every ascending or descending range, whatever the buffer. */
  lemma MonotoneOutcome(s: seq<int>, low: int, high: int, canAllocate: bool)
    requires 0 <= low <= high <= |s| && (SortedRange(s, low, high) || DescendingRange(s, low, high))
    ensures Outcome(s, low, high, canAllocate) == Success
  {
    MonotoneScan(s, low, high, low + 1);
  }

  /**
   * One iteration of the scanning loop follows ScanFrom: when the sequence
   * scanned at k and the descent test are those of the input, and the loop
   * goes on, stops or changes its state as ScanStep states, the scan of the
   * input from the new state ends as it did from the old one, or ends with
   * the result the loop returns.
   */
  lemma ScanAdvances(s: seq<int>, low: int, high: int, count: int, prev: int, last: int, k: int, hasRun: bool,
                     end: int, more: bool, descent: bool, stop: bool, result: bool,
                     count2: int, prev2: int, last2: int, k2: int, hasRun2: bool)
    requires 0 <= low <= prev <= last <= k && low < k < high <= |s|
    requires (k == last ==> k + 1 == high) && (hasRun ==> prev < last) && (!hasRun ==> count == 1)
    requires (end, more) == if k == last then (high, false) else SequenceEnd(s, k, high)
    requires hasRun && !more ==> (descent <==> MaxOf(s, prev, last) > MinOf(s, last, end))
    requires more ==> !stop && count2 == count && prev2 == prev && last2 == last && k2 == end && hasRun2 == hasRun
    requires !more ==> (stop && !result <==>
                        (!hasRun && end < high && end - low < MIN_RUN_SIZE) ||
                        (hasRun && descent &&
                         (end - low < count * MIN_RUN_SIZE || count + 1 == RunTableLength(high - low))))
    requires !more ==> (stop && result <==> !hasRun && end == high)
    requires !more && !stop ==> hasRun2 && prev2 == last && last2 == end && k2 == NextStart(end, high)
    requires !more && !stop ==> count2 == if hasRun && descent then count + 1 else count
    ensures !stop ==> 0 <= low <= prev2 <= last2 <= k2 && low < k2 && (k2 == last2 ==> k2 + 1 == high)
    ensures !stop ==> (hasRun2 ==> prev2 < last2) &&
                      ScanFrom(s, low, high, count, prev, last, k, hasRun) ==
                      ScanFrom(s, low, high, count2, prev2, last2, k2, hasRun2)
    ensures stop ==> ScanFrom(s, low, high, count, prev, last, k, hasRun) ==
                     if result then Monotonous
                     else if end - low < count * MIN_RUN_SIZE then GaveUp(RunsTooShort(end, count))
                     else GaveUp(TableFull(count + 1))
  {
    assert ScanFrom(s, low, high, count, prev, last, k, hasRun) ==
           if more then ScanFrom(s, low, high, count, prev, last, end, hasRun)
           else RunScanned(s, low, high, count, prev, last, end, hasRun);
    if !more && !stop {
      if !hasRun {
        assert RunScanned(s, low, high, count, prev, last, end, hasRun) ==
               ScanFrom(s, low, high, 1, last, end, NextStart(end, high), true);
      } else if descent {
        assert RunScanned(s, low, high, count, prev, last, end, hasRun) ==
               ScanFrom(s, low, high, count + 1, last, end, NextStart(end, high), true);
      } else {
        assert RunScanned(s, low, high, count, prev, last, end, hasRun) ==
               ScanFrom(s, low, high, count, last, end, NextStart(end, high), true);
      }
    }
  }

  /**
   * tryMergingSort on a[low..high), with the buffer allocation outcome as the
   * parameter `canAllocate`. The result is the Outcome of the input: true
   * means the range is sorted, and a false one comes with its cause, a first
   * run shorter than MIN_RUN_SIZE, runs too short on average, a full run
   * table, or several runs and no buffer. In every case the range holds a
   * permutation of its old contents (descending runs may be reversed
   * already) and nothing outside it changes. An ascending or descending
   * range of any size succeeds without a buffer, an ascending one without
   * being touched.
   */
  method TryMergingSort(a: array<int>, low: int, high: int, canAllocate: bool) returns (sorted: bool, ghost cause: Cause)
    requires 0 <= low <= high <= a.Length
    modifies a
    ensures cause == Outcome(old(a[..]), low, high, canAllocate)
    ensures sorted <==> cause == Success
    ensures cause.RunsTooShort? ==> low < cause.end <= high && cause.end - low < cause.runs * MIN_RUN_SIZE
    ensures cause.TableFull? ==> cause.runs == RunTableLength(high - low)
    ensures cause.NoBuffer? ==> !canAllocate && cause.runs > 1
    ensures sorted ==> SortedRange(a[..], low, high)
    ensures multiset(a[..]) == multiset(old(a[..]))
    ensures SameOutside(a[..], old(a[..]), low, high)
    ensures SortedRange(old(a[..]), low, high) ==> sorted && a[..] == old(a[..])
    ensures DescendingRange(old(a[..]), low, high) ==> sorted
  {
    var count := 1;
    var run: array?<int> := null;
    var k, last := low + 1, low;
    ghost var prev := low;
    while k < high
      invariant run != null ==> fresh(run) && run.Length == RunTableLength(high - low)
      invariant Scanning(a[..], old(a[..]), low, high, run != null, Table(run), count, last, k)
      invariant Tracked(a[..], old(a[..]), low, high, run != null, prev, last) && (k == last ==> k + 1 == high)
      invariant ScanFrom(old(a[..]), low, high, count, prev, last, k, run != null) ==
                ScanFrom(old(a[..]), low, high, 1, low, low, low + 1, false)
      decreases high + 1 - k
    {
      var stop, result, end, finished;
      var count0, last0, k0, hasRun0 := count, last, k, run != null;
      ghost var prev0 := prev;
      run, count, last, k, stop, result, end, finished, prev :=
        ScanStep(a, low, high, run, count, last, k, old(a[..]), prev);
      ghost var descent := hasRun0 && finished && a[last0 - 1] > a[last0];
      ScanAdvances(old(a[..]), low, high, count0, prev0, last0, k0, hasRun0, end, !finished, descent, stop, result,
                   count, prev, last, k, run != null);
      if stop {
        if result {
          cause := Success;
        } else if end - low < count0 * MIN_RUN_SIZE {
          cause := RunsTooShort(end, count0);
        } else {
          cause := TableFull(count0 + 1);
        }
        return result, cause;
      }
    }
    sorted := MergeAllRuns(a, low, high, run, count, last, k, canAllocate, old(a[..]));
    cause := if sorted then Success else NoBuffer(count);
  }

  /**
   * The end of tryMergingSort, once the whole range is scanned: several runs
   * are merged into a through a new buffer, when one can be allocated; a
   * single run is the sorted range.
   */
  method MergeAllRuns(a: array<int>, low: int, high: int, run: array?<int>, count: int, last: int, k: int,
                      canAllocate: bool, ghost s0: seq<int>)
      returns (sorted: bool)
    requires run != a && high <= k && Scanning(a[..], s0, low, high, run != null, Table(run), count, last, k)
    modifies a
    ensures sorted <==> count == 1 || canAllocate
    ensures sorted ==> SortedRange(a[..], low, high)
    ensures count == 1 ==> a[..] == old(a[..])
    ensures multiset(a[..]) == multiset(old(a[..])) && SameOutside(a[..], old(a[..]), low, high)
  {
    if count > 1 {
      if !canAllocate {
        return false;
      }
      var b := new int[high - low];
      ghost var before := a[..];
      var r := B01Merging.MergeRuns(a, b, low, 1, run[..], 0, count);
      assert B01Merging.Holds(true, a[..], b[..], low, low, high, before);
      SortedRangeSlice(a[..], low, high);
      RangePerm(a[..], before, low, high);
    } else if run != null {
      OneRun(a[..], run[..], 0, 1);
      SortedRangeSlice(a[..], low, high);
    }
    return true;
  }
}
