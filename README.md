# Dual-pivot quicksort engines, modelled in Dafny

This project models the sequential `int` core of two revisions of a hand-tuned
dual-pivot quicksort for primitive arrays. It also models the small-value sorts
of the newer revision, a legacy Bentley–McIlroy quicksort, a hex byte codec and
an array tweaking utility. Each sorter is an imperative Dafny method over an
`array<int>` and is proved against the same specification:

- `a[low..high)` ends in ascending order;
- the array is a permutation of its old contents;
- nothing outside the range changes.

Partitioning, merging, digit passes and the placing loops of counting sort are
proved against their own specification functions or predicates, and lemmas
relate those to each other.

- **r32 revision** (`DualPivotQuicksort_r32.java`, modules `R32*` with the shared `Partitioning`, `InsertionSteps`, `Sample`, `HeapSort`, `Merging` and `QuicksortSteps`):
  - the driver `sort(null, a, bits, low, high)`: mixed insertion sort for small non-leftmost parts, insertion sort for small leftmost parts, run-detecting merging sort, the five-element sample sort, a heap sort fallback once `bits` exceeds `MAX_RECURSION_DEPTH`, and two-pivot or one-pivot partitioning with iteration on the left part;
  - the LSD radix sort `tryRadixSort`/`processDigit` (modules `RadixDigits`, `RadixBuckets`, `R32Radix`);
  - the counting sorts for byte, char and short arrays and the byte/char/short front doors with the char/short quicksort (`CountingSort`, `SmallValueSorts`).
- **b01 revision** (`DualPivotQuicksort_b01_mrg.java`, modules `B01*`): `getDepth`, the driver, `partitionDualPivot`, the pin-search `mixedInsertionSort`, `tryMergingSort`, the `mergeRuns` that returns the array holding its result, and the `mergeParts` whose destination may be its second source.
- **Legacy sorter** (`test/Arrays.java`, `LegacyArrays`): `rangeCheck`, `med3`, `swap`, `vecswap`, `sort1` and the two `sort(int[] ...)` entry points; `rangeCheck`'s exceptions are a result value.
- **Hex codec** (`test/MainUUE.java`, `HexCodec`): the per-byte logic of `encode` and `decode`, `toByte` and `HEX`, with the round trip `decode(encode(bs)) == bs`. Java bytes are the integers -128..127.
- **Tweaker** (`test/IntArrayTweaker.java`, `Tweaker`): `reverse`, `copy` and the IDENT, REVERSE, REVERSE_FR, REVERSE_BA and DITHER tweaks, with DITHER's 32-bit wrap-around written out.

Elements are Dafny `int`s. Where the width of a Java type matters, a range
predicate states it and the code's arithmetic is written out:

- the radix digits read the 32 bits of an `int` as unsigned;
- DITHER wraps into 32 bits;
- the narrowing casts of the counting sorts wrap into their types.

The buffer of the merging and radix sorts is a second array `b` used with an
`offset`. A buffer allocation that may fail is a boolean parameter
(`canAllocate`).

Where a prose description of these sorters could suggest otherwise, the model
follows the code:

- The radix digits are 10, 11 and 11 bits wide.
- The char and short quicksort falls back on counting sort, not heap sort, once the recursion is too deep.
- The r32 merging sort checks `k - low < count * MIN_RUN_SIZE` for every run, the first one included.

## Model

| member | source | states |
|---|---|---|
| SortSpec.WrapInt32 | test/IntArrayTweaker.java:10 | the result is a Java int congruent to x modulo 2^32, and x itself when x is already a Java int: the wrap-around of `r[i] += i % 5` |
| Partitioning.PartitionWithOnePivot | radixsort/done/DualPivotQuicksort_r32.java:509-574 | a[low..lower) is below the pivot old a[pi1], a[lower..upper) equals it, a[upper..high) is above it; the array is a permutation and nothing outside the range changes (also partitionSinglePivot of the b01 revision, the same code) |
| Partitioning.OnePivotLoop | radixsort/done/DualPivotQuicksort_r32.java:548-566 | the loop over k leaves the unscanned part empty with the three parts of the Dutch National Flag state established |
| Partitioning.TwoPivotStart | radixsort/done/DualPivotQuicksort_r32.java:425-450 | the pivots are the old a[pi1] and a[pi2]; the first and last elements are copied into their places and nothing else changes; the two skip scans leave lower < e3 < upper with the scanned elements on their sides |
| Partitioning.PlacePivots | radixsort/done/DualPivotQuicksort_r32.java:493-494 | writing the pivots back to lower and upper gives the three parts of two-pivot partitioning and permutes the range with its two holes filled by the pivots |
| R32Partition.PartitionWithTwoPivots | radixsort/done/DualPivotQuicksort_r32.java:419-497 | pivot1 at lower and pivot2 at upper, a[low..lower) below pivot1, a(lower..upper) between the pivots, a(upper..high) above pivot2; a permutation with the outside unchanged |
| R32Partition.TwoPivotLoop | radixsort/done/DualPivotQuicksort_r32.java:467-488 | the loop over k, including the `lower > k` break, ends with the unknown part empty and every element on its side of the pivots |
| B01Partition.PartitionDualPivot | radixsort/done/DualPivotQuicksort_b01_mrg.java:401-475 | the same three parts, pivots at lower and upper, permutation and frame, for the loop with the bounded left scan |
| B01Partition.ScanUpBounded | radixsort/done/DualPivotQuicksort_b01_mrg.java:450-461 | the bounded scan finds the first index above lower whose element is not below pivot1, or k when there is none, and every element skipped is below pivot1 |
| InsertionSteps.InsertionSort | radixsort/done/DualPivotQuicksort_r32.java:682-694 | sorts a[low..high) with no sentinel, as a permutation, leaving the outside alone |
| InsertionSteps.SimplePhase | radixsort/done/DualPivotQuicksort_r32.java:602-612 | the plain insertion part of mixed insertion sort sorts the range when a[low - 1] is a sentinel |
| InsertionSteps.PairPhase | radixsort/done/DualPivotQuicksort_r32.java:640-672 | two elements at a time, the pair insertion extends the sorted a[low..end) to a sorted a[low..high) as a permutation |
| InsertionSteps.PairInsert | radixsort/done/DualPivotQuicksort_r32.java:648-671 | the larger of the pair moves two places at a time, then the smaller one from where the larger stopped; a[lo..h0+2) ends sorted with the old prefix plus the two elements |
| R32Insertion.SplitEnd | radixsort/done/DualPivotQuicksort_r32.java:597 | end == high exactly when the range has fewer than 8 elements; high - end is even; otherwise the pin part has at least two elements |
| R32Insertion.PinStaysAbove | radixsort/done/DualPivotQuicksort_r32.java:617-618 | the pin index `--p` of step k stays in [k - 1, high): it can reach k - 1 but never a sorted element below it |
| R32Insertion.PinPhase | radixsort/done/DualPivotQuicksort_r32.java:617-635 | the pin insertion part sorts a[low..end) and keeps the sentinel below the range, as a permutation |
| R32Insertion.MixedInsertionSort | radixsort/done/DualPivotQuicksort_r32.java:592-673 | with a[low - 1] not larger than any element of the range, sorts a[low..high) as a permutation and leaves the outside alone |
| B01Insertion.SplitEnd | radixsort/done/DualPivotQuicksort_b01_mrg.java:567-569 | end == high exactly when the range has fewer than 32 elements; high - end is even; otherwise the pin part has at least eight elements |
| B01Insertion.PinScan | radixsort/done/DualPivotQuicksort_b01_mrg.java:615 | `while (a[--p] > pin)` stops at the largest index below p0 whose element is not above the pin, at worst the sentinel a[low - 1], and skips only elements above the pin |
| B01Insertion.PinPhase | radixsort/done/DualPivotQuicksort_b01_mrg.java:593-633 | small elements are inserted, large ones exchanged with elements not above the pin from the top; a[low..end) ends sorted as a permutation, the sentinel kept |
| B01Insertion.MixedInsertionSort | radixsort/done/DualPivotQuicksort_b01_mrg.java:566-672 | with a[low - 1] as sentinel, sorts a[low..high) as a permutation and leaves the outside alone |
| HeapSort.HeapRootMax | radixsort/done/DualPivotQuicksort_r32.java:1124-1128 | the root of a heap is at least every element of the heap, which is what the extraction loop moves to the end |
| HeapSort.PushDown | radixsort/done/DualPivotQuicksort_r32.java:1140-1155 | with every node below p in heap order, sifting value down from p puts the heap order on every node from p on; the range holds the old contents with a[p] replaced by value, and nothing outside [p, high) changes |
| HeapSort.BuildHeap | radixsort/done/DualPivotQuicksort_r32.java:1121-1123 | pushing down every inner node, last first, makes a[low..high) a heap, as a permutation |
| HeapSort.ExtractMax | radixsort/done/DualPivotQuicksort_r32.java:1124-1128 | one extraction moves the maximum to a[h]: the heap shrinks by one and the sorted tail above it, all at least the heap's elements, grows by one |
| HeapSort.HeapSort | radixsort/done/DualPivotQuicksort_r32.java:1120-1129 | sorts a[low..high) as a permutation with the outside unchanged (also heapSort of the b01 revision, the same code) |
| Sample.Spread | radixsort/done/DualPivotQuicksort_r32.java:297-299 | the midpoints e3, e2 and e4 lie strictly between e1 and e5, in order, once e5 - e1 >= 4 |
| Sample.R32SampleInside | radixsort/done/DualPivotQuicksort_r32.java:287-299 | for every range of at least 51 elements the five indices satisfy low < e1 < e2 < e3 < e4 < e5 < high - 1 |
| Sample.B01SampleInside | radixsort/done/DualPivotQuicksort_b01_mrg.java:288-300 | for every range of at least 44 elements `step = (size >> 3) * 3 + 3` keeps the five indices strictly inside, e5 below the last element |
| Sample.CompareExchange | radixsort/done/DualPivotQuicksort_r32.java:323 | afterwards a[i] is the smaller and a[j] the larger of the old pair, and nothing else changes |
| Sample.R32Network | radixsort/done/DualPivotQuicksort_r32.java:323-327 | the five compare-exchanges order a[e1] <= a[e2] <= a[e4] <= a[e5], touch only sample slots, leave a[e3] alone and permute the array |
| Sample.B01Network | radixsort/done/DualPivotQuicksort_b01_mrg.java:315-319 | the reversed-order network gives the same ordering of the four slots, with a[e3] unchanged |
| Sample.InsertThird | radixsort/done/DualPivotQuicksort_r32.java:332-344 | inserting a3 into the four sorted slots leaves all five slots in ascending order, permuted among themselves |
| Sample.R32SortSample | radixsort/done/DualPivotQuicksort_r32.java:323-344 | a[e1] <= a[e2] <= a[e3] <= a[e4] <= a[e5] afterwards, only the slots change, and the array is a permutation |
| Sample.B01SortSample | radixsort/done/DualPivotQuicksort_b01_mrg.java:315-333 | the same for the reversed-order network and the insertion of a3 |
| QuicksortSteps.OrOne | radixsort/done/DualPivotQuicksort_r32.java:385 | `bits \| 1` is odd and is bits or bits + 1, and bits itself when bits is already odd |
| QuicksortSteps.TwoPivotsSorted | radixsort/done/DualPivotQuicksort_r32.java:372-387 | after two-pivot partitioning and sorting the middle and right parts in place, a[lower..high) is sorted and at least every element of the left part, as a permutation with the outside unchanged |
| QuicksortSteps.OnePivotSorted | radixsort/done/DualPivotQuicksort_r32.java:389-403 | after one-pivot partitioning and sorting the right part, a[lower..high) is sorted and above the left part |
| QuicksortSteps.InvLeftPart | radixsort/done/DualPivotQuicksort_r32.java:405 | `high = indices[0]` keeps the driver invariant: what is right of the new left part is sorted and above it |
| R32Sort.TryDirectSorts | radixsort/done/DualPivotQuicksort_r32.java:259-280 | mixed insertion sort on a small odd-bits part, insertion sort on a small part, or merging sort; when it reports done the range is sorted, otherwise it has at least MAX_INSERTION_SORT_SIZE elements; a permutation either way |
| R32Sort.SortSample | radixsort/done/DualPivotQuicksort_r32.java:287-344 | `step = (size >> 2) + (size >> 3) + (size >> 7)` gives five indices strictly inside the range, sorted in place, with only those slots changed |
| R32Sort.SortParts | radixsort/done/DualPivotQuicksort_r32.java:372-404 | two pivots when the five sample elements are distinct, one otherwise; a[lower..high) ends sorted and above a[low..lower) |
| R32Sort.SortTwoPivotParts | radixsort/done/DualPivotQuicksort_r32.java:372-387 | partitioning with a[e1] and a[e5] and sorting the two parts right of pivot1 with `bits \| 1` leaves a[lower..high) sorted above the left part |
| R32Sort.SortOnePivotParts | radixsort/done/DualPivotQuicksort_r32.java:389-403 | partitioning with a[e3] and sorting the right part leaves a[lower..high) sorted above the left part |
| R32Sort.Sort | radixsort/done/DualPivotQuicksort_r32.java:252-407 | the driver sorts a[low..high) as a permutation with the outside unchanged, given the sentinel before low whenever bits is odd |
| R32Sort.SortRange | radixsort/done/DualPivotQuicksort_r32.java:234-240 | the sequential entry point sorts the range, as a permutation, leaving the outside alone |
| B01Sort.LevelsIsMin | radixsort/done/DualPivotQuicksort_b01_mrg.java:204-206 | the loop's number of iterations is the smaller of the base-8 logarithm of parallelism and the base-4 logarithm of size |
| B01Sort.GetDepth | radixsort/done/DualPivotQuicksort_b01_mrg.java:201-208 | the depth is minus twice that minimum: even, never positive, and 0 when parallelism is below 8 |
| B01Sort.TryDirectSorts | radixsort/done/DualPivotQuicksort_b01_mrg.java:254-273 | the b01 thresholds for mixed insertion, insertion and merging sort; done means sorted, otherwise the range has at least MAX_INSERTION_SORT_SIZE elements |
| B01Sort.SortSample | radixsort/done/DualPivotQuicksort_b01_mrg.java:288-333 | five indices strictly inside the range, sorted by the reversed-order network and the insertion of a3 |
| B01Sort.SortParts | radixsort/done/DualPivotQuicksort_b01_mrg.java:342-385 | a[lower..high) ends sorted and above a[low..lower) |
| B01Sort.SortTwoPivotParts | radixsort/done/DualPivotQuicksort_b01_mrg.java:342-364 | partitionDualPivot, then the two parts right of pivot1 sorted with `bits \| 1` |
| B01Sort.SortOnePivotParts | radixsort/done/DualPivotQuicksort_b01_mrg.java:366-384 | single-pivot partitioning, then the right part sorted |
| B01Sort.Sort | radixsort/done/DualPivotQuicksort_b01_mrg.java:248-388 | the driver, with the heap sort switch on `bits += DELTA` before any sampling, sorts the range as a permutation with the outside unchanged |
| B01Sort.SortRange | radixsort/done/DualPivotQuicksort_b01_mrg.java:225-235 | the sequential entry point sorts the range as a permutation |
| Merging.InOrderCopied | radixsort/done/DualPivotQuicksort_r32.java:934-984 | when the last element of the first part is not above the head of the second, any sorted permutation of the two parts is the two copied one after the other, as mergeParts then does |
| Merging.FindMiddle | radixsort/done/DualPivotQuicksort_r32.java:833-834 | lo < mi < hi; every boundary after lo up to mi is at most the middle position and the one after mi is beyond it |
| Merging.ArrayCopy | radixsort/done/DualPivotQuicksort_r32.java:825 | `System.arraycopy` between two arrays: dst[to..to+n) is src[from..from+n), the rest of dst unchanged |
| Merging.ReverseRun | radixsort/done/DualPivotQuicksort_r32.java:733-735 | the early-stopping exchange loop reverses a descending a[lo..hi) completely and changes nothing else |
| Merging.AscentEnd | radixsort/done/DualPivotQuicksort_r32.java:725 | the reference end of an ascending sequence scanned from j lies between j and high |
| Merging.DescentEnd | radixsort/done/DualPivotQuicksort_r32.java:730 | the reference end of a descending sequence scanned from j lies between j and high |
| Merging.EqualEnd | radixsort/done/DualPivotQuicksort_r32.java:737 | the reference end of a stretch of elements equal to x scanned from j lies between j and high |
| Merging.SequenceEnd | radixsort/done/DualPivotQuicksort_r32.java:722-742 | the reference scan of one sequence from s[k - 1] and s[k] ends after k and at most at high; a constant stretch that goes on ends before high |
| Merging.SequenceScanned | radixsort/done/DualPivotQuicksort_r32.java:767 | a finished sequence scanned where the range was untouched holds the input's elements of [last, end) sorted; so `a[last - 1] > a[last]` holds exactly when the largest input element of the previous sequence exceeds the least of this one |
| Merging.AscendingEnd | radixsort/done/DualPivotQuicksort_r32.java:725 | finds the end of the ascending sequence: a[k - 1..k2) is sorted, a[k2 - 1] > a[k2] when k2 < high, and k2 is AscentEnd of the array |
| Merging.DescendingEnd | radixsort/done/DualPivotQuicksort_r32.java:730 | finds the end of the descending sequence: a[k - 1..k2) descends, a[k2 - 1] < a[k2] when k2 < high, and k2 is DescentEnd of the array |
| Merging.ConstantEnd | radixsort/done/DualPivotQuicksort_r32.java:737 | finds the end of the stretch equal to a[k], which is EqualEnd of the array |
| Merging.ScanRun | radixsort/done/DualPivotQuicksort_r32.java:722-742 | the run scanned from k - 1 ends sorted (descending ones reversed) or goes on as a constant stretch, leaving the array unchanged; its end and whether it goes on are SequenceEnd of the old contents; an ascending remainder is left unchanged and a descending one is one run |
| R32Merging.MergeStep | radixsort/done/DualPivotQuicksort_r32.java:938-945 | one round takes the head of the left part when not above the right head, then the right head when not above the old left head; the merge written so far grows and stays a merge prefix |
| R32Merging.MergeLoops | radixsort/done/DualPivotQuicksort_r32.java:934-970 | the loop chosen by the last elements of the parts merges until one part is used up or the rests are in order |
| R32Merging.CopyTails | radixsort/done/DualPivotQuicksort_r32.java:975-984 | the two array copies put what is left of the left part, then of the right part, behind the output |
| R32Merging.MergeSequential | radixsort/done/DualPivotQuicksort_r32.java:934-984 | dst[k..) holds a sorted sequence with exactly the elements of both parts, and dst changes nowhere else |
| R32Merging.MergeParts | radixsort/done/DualPivotQuicksort_r32.java:875-985 | the sequential mergeParts writes the sorted merge of src[lo1..hi1) and src[lo2..hi2) into dst[k..k + len1 + len2) and changes nothing else of dst |
| R32Merging.CopyRun | radixsort/done/DualPivotQuicksort_r32.java:823-827 | a single run is copied to b at index - offset |
| R32Merging.MergeRunsBack | radixsort/done/DualPivotQuicksort_r32.java:833-858 | with aim, the merged runs end sorted in a[run[lo]..run[hi]) as a permutation |
| R32Merging.MergeRunsOut | radixsort/done/DualPivotQuicksort_r32.java:823-858 | without aim, the merged runs end sorted in b[run[lo] - offset..run[hi] - offset) |
| R32Merging.MergeRuns | radixsort/done/DualPivotQuicksort_r32.java:820-859 | aim puts the sorted merge of the runs in a, !aim in b at index - offset; a and b change only in those two ranges |
| R32MergingSort.SetBit3 | radixsort/done/DualPivotQuicksort_r32.java:764 | `m \| 8` sets bit 3 and keeps every other bit |
| R32MergingSort.RunTableLength | radixsort/done/DualPivotQuicksort_r32.java:764 | the run table has between 8 and MAX_RUN_CAPACITY + 8 entries |
| R32MergingSort.NoteRun | radixsort/done/DualPivotQuicksort_r32.java:754-781 | the first run ends the sort with true exactly when it reaches high; a run after a descent returns false exactly when `++count == run.length`; otherwise count goes up by one exactly after a descent and the table, of the allocated length, records only sorted, non-empty runs ending at k; the array is not touched |
| R32MergingSort.FirstRun | radixsort/done/DualPivotQuicksort_r32.java:754-765 | the first run ends the sort with true exactly when it reaches high, and never fails here; otherwise a new table of RunTableLength(high - low) entries records it |
| R32MergingSort.NextRun | radixsort/done/DualPivotQuicksort_r32.java:767-781 | a run after a descent fails exactly when `++count == run.length`, otherwise opens a new entry; a run without a descent extends the last entry; the table records only sorted runs ending at k |
| R32MergingSort.ScanStep | radixsort/done/DualPivotQuicksort_r32.java:717-789 | one iteration keeps the scanning state or stops; it stops with false exactly when a finished run ends too early (`k - low < count * MIN_RUN_SIZE`) or a new run finds the table full, and with true exactly when the first run reaches high, which means sorted; the sequence's end is SequenceEnd of the input, and the descent test is the input's; a sorted or descending input of at least MIN_RUN_SIZE stops with true |
| R32MergingSort.ProcessRun | radixsort/done/DualPivotQuicksort_r32.java:744-787 | after a run is found: false exactly when the runs are too short on average or a new run finds the table full, true exactly when the first run reaches high; otherwise the run is noted, the scan goes on at NextStart and the run is the sequence scanned last |
| R32MergingSort.NextStart | radixsort/done/DualPivotQuicksort_r32.java:786-788 | the scan goes on right after the run, or at its end when only one element is left |
| R32MergingSort.ScanAdvances | radixsort/done/DualPivotQuicksort_r32.java:717-789 | an iteration that scans the input's sequence and applies the input's descent test, and continues or stops as ScanStep states, leaves the reference scan ScanFrom of the input unchanged, or ends it with the loop's result |
| R32MergingSort.MonotoneScan | radixsort/done/DualPivotQuicksort_r32.java:717-760 | on an ascending or descending range of at least MIN_RUN_SIZE elements the reference scan finds one run reaching high |
| R32MergingSort.MonotoneOutcome | radixsort/done/DualPivotQuicksort_r32.java:705-805 | the reference outcome of an ascending or descending range of at least MIN_RUN_SIZE elements is success, with or without a buffer |
| R32MergingSort.MergeAllRuns | radixsort/done/DualPivotQuicksort_r32.java:794-804 | success exactly when there is one run or a buffer; success means sorted |
| R32MergingSort.TryMergingSort | radixsort/done/DualPivotQuicksort_r32.java:705-805 | the cause returned is Outcome of the old contents: the reference scan ScanFrom, computed on the input without reversing anything, and a missing buffer when it finds several runs; true exactly for Success, and then sorted; false for runs too short on average at a run end `end` (`end - low < runs * MIN_RUN_SIZE`), a table full at RunTableLength(high - low) runs, or several runs and no buffer; always a permutation with the outside unchanged; a sorted range of at least MIN_RUN_SIZE is left as it is with true; a descending one returns true |
| B01Merging.MergeLoop | radixsort/done/DualPivotQuicksort_b01_mrg.java:998-1002 | the merge loop takes the smaller head, the second one on a tie, until one part is used up |
| B01Merging.CopyFirst | radixsort/done/DualPivotQuicksort_b01_mrg.java:1003-1007 | the rest of the first part, all below the rest of the second, is copied behind the output |
| B01Merging.CopySecond | radixsort/done/DualPivotQuicksort_b01_mrg.java:1008-1012 | the rest of the second part is copied unless dst is its array, where it already stands in place |
| B01Merging.MergeParts | radixsort/done/DualPivotQuicksort_b01_mrg.java:998-1012 | writes the sorted merge of a1[lo1..hi1) and a2[lo2..hi2) into dst from k, even when dst is a2, and changes nothing else of dst |
| B01Merging.SingleRun | radixsort/done/DualPivotQuicksort_b01_mrg.java:873-879 | a single run stays in a unless aim < 0, when it is copied to b |
| B01Merging.MergeHalves | radixsort/done/DualPivotQuicksort_b01_mrg.java:892-908 | the two merged halves are merged into the array other than the first half's, and the range is where the result says |
| B01Merging.MergeRuns | radixsort/done/DualPivotQuicksort_b01_mrg.java:870-909 | returns a when aim > 0 and b when aim < 0; the returned array holds the runs' span sorted as a permutation; nothing else of a or b changes |
| B01MergingSort.SetLow6 | radixsort/done/DualPivotQuicksort_b01_mrg.java:808 | `m \| 0x3F` sets the low six bits and keeps the higher ones |
| B01MergingSort.RunTableLength | radixsort/done/DualPivotQuicksort_b01_mrg.java:808 | the run table has between 63 and 511 entries, 63 modulo 64 |
| B01MergingSort.FirstRun | radixsort/done/DualPivotQuicksort_b01_mrg.java:789-810 | the first run: true exactly when it reaches high, false exactly when it is shorter than MIN_RUN_SIZE, otherwise a new table of RunTableLength(high - low) entries |
| B01MergingSort.NextRun | radixsort/done/DualPivotQuicksort_b01_mrg.java:811-831 | a run after a descent fails exactly when k - low < count * MIN_RUN_SIZE or the table is full, and otherwise opens a new entry; without a descent it extends the last run |
| B01MergingSort.NoteRun | radixsort/done/DualPivotQuicksort_b01_mrg.java:789-831 | the three ways of failing and the one of succeeding early, exactly as the code tests them; otherwise count goes up by one exactly after a descent, and the array is not touched |
| B01MergingSort.ScanStep | radixsort/done/DualPivotQuicksort_b01_mrg.java:759-839 | one iteration keeps the scanning state or stops; it stops with false exactly when the first run ends before high and is shorter than MIN_RUN_SIZE, or a run after a descent finds the runs too short on average or the table full; with true exactly when the first run reaches high, which means sorted; the sequence's end is SequenceEnd of the input, and the descent test is the input's |
| B01MergingSort.ProcessRun | radixsort/done/DualPivotQuicksort_b01_mrg.java:787-837 | after a run is found: false exactly when the first run is too short or a run after a descent finds the runs too short on average or the table full, true exactly when the first run reaches high; otherwise the run is noted and the scan goes on at NextStart |
| B01MergingSort.ScanAdvances | radixsort/done/DualPivotQuicksort_b01_mrg.java:759-839 | an iteration that scans the input's sequence and applies the input's descent test, and continues or stops as ScanStep states, leaves the reference scan ScanFrom of the input unchanged, or ends it with the loop's result |
| B01MergingSort.MonotoneScan | radixsort/done/DualPivotQuicksort_b01_mrg.java:759-803 | on an ascending or descending range the reference scan finds one run reaching high |
| B01MergingSort.MonotoneOutcome | radixsort/done/DualPivotQuicksort_b01_mrg.java:747-855 | the reference outcome of an ascending or descending range of any size is success, with or without a buffer |
| B01MergingSort.MergeAllRuns | radixsort/done/DualPivotQuicksort_b01_mrg.java:844-854 | success exactly when there is one run or a buffer; one run leaves the array unchanged |
| B01MergingSort.TryMergingSort | radixsort/done/DualPivotQuicksort_b01_mrg.java:747-855 | the cause returned is Outcome of the old contents: the reference scan ScanFrom of the b01 rules, computed on the input without reversing anything, and a missing buffer when it finds several runs; true exactly for Success, and then sorted; false for a first run shorter than MIN_RUN_SIZE or runs too short on average (`end - low < runs * MIN_RUN_SIZE`), a table full at RunTableLength(high - low) runs, or several runs and no buffer; always a permutation with the outside unchanged; a sorted range is left unchanged with true and a descending one returns true |
| RadixDigits.Unsigned | radixsort/done/DualPivotQuicksort_r32.java:1021 | the 32 bits read as unsigned: x itself for a non-negative Java int, x + 2^32 for a negative one |
| RadixDigits.FlipBit10 | radixsort/done/DualPivotQuicksort_r32.java:1022 | `^ 0x400` on 11 bits keeps the low ten bits and flips whether the value is below 1024 |
| RadixDigits.DigitOf | radixsort/done/DualPivotQuicksort_r32.java:1020-1022 | each digit lies below its count array's length, 1024 or 2048 |
| RadixDigits.BiasedOrder | radixsort/done/DualPivotQuicksort_r32.java:1022 | with the sign bit flipped, the unsigned order of two Java ints is their signed order |
| RadixDigits.DigitSplit | radixsort/done/DualPivotQuicksort_r32.java:1020-1022 | the key up to each digit is that digit above the key below it, and the three digits make up the biased key |
| RadixDigits.DigitsOrder | radixsort/done/DualPivotQuicksort_r32.java:1020-1022 | a smaller digit means a smaller key up to that digit; equal digits leave the order to the keys below |
| RadixDigits.DigitPass | radixsort/done/DualPivotQuicksort_r32.java:1035-1069 | a stable counting pass by a digit over a sequence ordered by the lower digits keeps its elements and orders them up to that digit |
| RadixDigits.DigitSkip | radixsort/done/DualPivotQuicksort_r32.java:1093-1098 | when every element shares a digit, the order by the lower digits is already the order up to that digit, so the pass can be skipped |
| RadixDigits.SortedByKey | radixsort/done/DualPivotQuicksort_r32.java:1074-1077 | Java ints ordered by the whole biased key are in ascending order |
| RadixBuckets.BucketsPerm | radixsort/done/DualPivotQuicksort_r32.java:1036-1038 | the buckets of a counting pass hold exactly the elements of the sequence |
| RadixBuckets.PassSorts | radixsort/done/DualPivotQuicksort_r32.java:1036-1038 | a stable pass by digit f over a sequence sorted by `below` sorts it by the key that f refines |
| RadixBuckets.SkipMeansOneDigit | radixsort/done/DualPivotQuicksort_r32.java:1093-1100 | the skip test succeeds on a count array exactly when every element has the same digit |
| R32Radix.CountDigits | radixsort/done/DualPivotQuicksort_r32.java:1015-1023 | one loop fills the count arrays of the three digits of a[low..high) |
| R32Radix.CanSkip | radixsort/done/DualPivotQuicksort_r32.java:1093-1100 | the scan finds a count equal to total before any positive count |
| R32Radix.Accumulate | radixsort/done/DualPivotQuicksort_r32.java:1105-1109 | count[v] becomes low plus the sum of the old counts up to v, the end of bucket v |
| R32Radix.ProcessDigit | radixsort/done/DualPivotQuicksort_r32.java:1088-1111 | false exactly when the skip test succeeds, with the counts unchanged; true otherwise, with the counts turned into running sums from low |
| R32Radix.Scatter | radixsort/done/DualPivotQuicksort_r32.java:1036-1038 | the backward scatter writes the buckets of the digit, each in its old order, to the destination range and nothing else |
| R32Radix.Pass | radixsort/done/DualPivotQuicksort_r32.java:1035-1069 | a pass keeps the elements and orders them up to digit d; it is in b exactly when the elements were in a and the pass was not skipped or the other way round |
| R32Radix.CountAndDetect | radixsort/done/DualPivotQuicksort_r32.java:1019-1030 | the histograms of the three digits and each count array prepared by processDigit |
| R32Radix.Passes | radixsort/done/DualPivotQuicksort_r32.java:1035-1069 | after the three passes the elements, ordered by the whole biased key, are in b exactly when an odd number of digits was processed |
| R32Radix.CopyBack | radixsort/done/DualPivotQuicksort_r32.java:1074-1076 | the copy back leaves the result in a[low..high) and the outside unchanged |
| R32Radix.RadixResult | radixsort/done/DualPivotQuicksort_r32.java:1074-1077 | the elements ordered by their biased keys are the range sorted in signed order, as a permutation |
| R32Radix.TryRadixSort | radixsort/done/DualPivotQuicksort_r32.java:997-1078 | true exactly when a buffer is available, then the range is sorted; false leaves the array unchanged; always a permutation with the outside unchanged |
| CountingSort.Slot | radixsort/done/DualPivotQuicksort_r32.java:2154 | `x & 0xFF`, the char itself and `x & 0xFFFF` index the count array for every value of the type |
| CountingSort.Narrow | radixsort/done/DualPivotQuicksort_r32.java:2162 | the casts `(byte) i`, `(char) i` and `(short) i` give a value of the type |
| CountingSort.SlotOfValue | radixsort/done/DualPivotQuicksort_r32.java:2154 | the cast of a value's slot is the value |
| CountingSort.ValueOfSlot | radixsort/done/DualPivotQuicksort_r32.java:2161-2162 | every slot is the slot of the value the cast gives, so values and slots correspond one to one |
| CountingSort.Visit | radixsort/done/DualPivotQuicksort_r32.java:2160-2162 | the i the placing loops step through casts to i + offset, whose slot is the masked index: every value is visited once, from the greatest down |
| CountingSort.CountValues | radixsort/done/DualPivotQuicksort_r32.java:2154 | the backward counting loop leaves in each slot the number of occurrences of its value in a[low..high) |
| CountingSort.TailSorted | radixsort/done/DualPivotQuicksort_r32.java:2159-2175 | the values from v up, each repeated as often as its count says, form a sorted sequence with nothing below v |
| CountingSort.TailOccurrences | radixsort/done/DualPivotQuicksort_r32.java:2159-2175 | in that sequence a value occurs as often as its count when it is of the type and at least v, and otherwise not at all |
| CountingSort.TailOfCounts | radixsort/done/DualPivotQuicksort_r32.java:2148-2176 | for the histogram of s, the whole sequence is s sorted: ascending, with every element of s exactly as often as in s |
| CountingSort.FillCount | radixsort/done/DualPivotQuicksort_r32.java:2161-2163 | `for (k = count; k > 0; --k) a[--high] = x` writes count copies of x just below high and nothing else |
| CountingSort.FillDown | radixsort/done/DualPivotQuicksort_r32.java:2245-2247 | the char loop fills a[low..high) with copies of x and nothing else |
| CountingSort.FillRun | radixsort/done/DualPivotQuicksort_r32.java:2171-2173 | the do-while writes num copies of x just below high for num > 0 and nothing else |
| CountingSort.SkipEmpty | radixsort/done/DualPivotQuicksort_r32.java:2167 | `while (count[--i & mask] == 0)` stops at the next smaller value with a count, which exists while the range is not full; the values skipped add nothing |
| CountingSort.PlaceAll | radixsort/done/DualPivotQuicksort_r32.java:2159-2165 | the byte and short loop for a range larger than the count array writes the sorted sequence of the counts into a[low..high) |
| CountingSort.PlaceAllChars | radixsort/done/DualPivotQuicksort_r32.java:2240-2248 | the char loop for a range larger than the count array writes the same sequence |
| CountingSort.PlaceCounted | radixsort/done/DualPivotQuicksort_r32.java:2166-2175 | the loop for a smaller range, skipping values without a count, writes the same sequence |
| CountingSort.Sort | radixsort/done/DualPivotQuicksort_r32.java:2148-2176 | countingSort of byte, char and short arrays sorts a[low..high) as a permutation with the outside unchanged (also lines 2229-2260 and 2599-2628) |
| SmallValueSorts.SortBytes | radixsort/done/DualPivotQuicksort_r32.java:2128-2134 | counting sort above MIN_BYTE_COUNTING_SORT_SIZE elements, insertion sort otherwise; sorted, permutation, frame |
| SmallValueSorts.SortRange | radixsort/done/DualPivotQuicksort_r32.java:2209-2215 | the char and short front doors: counting sort for a large range, otherwise the quicksort with bits 0; sorted, permutation, frame (also lines 2579-2585) |
| SmallValueSorts.Quicksort | radixsort/done/DualPivotQuicksort_r32.java:2271-2379 | the char and short driver sorts the range as a permutation with the outside unchanged; too deep a recursion goes to counting sort (also lines 2639-2747) |
| SmallValueSorts.SortParts | radixsort/done/DualPivotQuicksort_r32.java:2355-2376 | a[lower..high) ends sorted and above a[low..lower) |
| SmallValueSorts.SortTwoPivotParts | radixsort/done/DualPivotQuicksort_r32.java:2355-2364 | two-pivot partitioning, then the middle and right parts sorted with `bits \| 1` |
| SmallValueSorts.SortOnePivotParts | radixsort/done/DualPivotQuicksort_r32.java:2366-2375 | one-pivot partitioning, then the right part sorted |
| LegacyArrays.RangeCheck | test/Arrays.java:1059-1067 | IllegalArgumentException exactly when fromIndex > toIndex; otherwise ArrayIndexOutOfBoundsException, carrying the offending index, exactly when fromIndex < 0 or toIndex > arrayLen; otherwise a normal return |
| LegacyArrays.Med3 | test/Arrays.java:630-634 | the result is one of the three indices |
| LegacyArrays.Med3IsMedian | test/Arrays.java:630-634 | its element is the median: with the smallest and the largest of the three it makes up the three elements, and lies between them |
| LegacyArrays.PivotIndex | test/Arrays.java:566-577 | the middle element, the median of three, or the pseudomedian of nine is an index inside the range |
| LegacyArrays.PivotValue | test/Arrays.java:578 | v is an element of x[off..off+len) |
| LegacyArrays.Swap | test/Arrays.java:613-617 | x[a] and x[b] are exchanged and nothing else changes |
| LegacyArrays.VecSwap | test/Arrays.java:622-625 | the disjoint blocks x[a..a+n) and x[b..b+n) are exchanged element by element, everything else kept |
| LegacyArrays.SmallSort | test/Arrays.java:558-563 | below 7 elements the adjacent-swap insertion sort leaves x[off..off+len) sorted as a permutation |
| LegacyArrays.PartitionLoop | test/Arrays.java:580-596 | the loop establishes `v* (<v)* (>v)* v*` and ends with b == c + 1 |
| LegacyArrays.Partition | test/Arrays.java:580-601 | after both vecswaps the range is below v, then equal to v (at least one copy), then above v, as a permutation |
| LegacyArrays.ThreeWaySorted | test/Arrays.java:603-607 | sorting the part below v and the part above v in place sorts the whole three-way split range |
| LegacyArrays.SortPart | test/Arrays.java:604-607 | the recursion on a part made only when it has more than one element still leaves that part sorted |
| LegacyArrays.SortLarge | test/Arrays.java:566-607 | partitioning and the two recursive calls sort a range of at least 7 elements |
| LegacyArrays.Sort1 | test/Arrays.java:556-608 | sorts x[off..off+len) as a permutation with the outside unchanged; ranges of at most one element are left as they are |
| LegacyArrays.SortAll | test/Arrays.java:95-97 | sorts the whole array as a permutation |
| LegacyArrays.SortRange | test/Arrays.java:119-122 | the result is rangeCheck's; after an exception nothing changed; otherwise the range is sorted, a permutation, with the outside unchanged; from == to leaves the array as it is |
| HexCodec.HighNibble | test/MainUUE.java:37 | `(b >> 4) & 0xF` is the high nibble, b / 16, plus 16 for a negative byte |
| HexCodec.LowNibble | test/MainUUE.java:37 | `b & 0xF` is the remainder of b modulo 16 |
| HexCodec.ToByte | test/MainUUE.java:66-89 | '0'-'9' map to 0-9, 'A'-'F' to 10-15, every other character to 0 |
| HexCodec.HexTable | test/MainUUE.java:91 | HEX[n] is the one-character string of the digit for n |
| HexCodec.HexCharValue | test/MainUUE.java:66-91 | toByte gives back the value of every digit |
| HexCodec.HexDigitValue | test/MainUUE.java:66-91 | `toByte(HEX[n].charAt(0)) == n` for every nibble value n |
| HexCodec.HexPair | test/MainUUE.java:37 | the two characters written for a byte are hex digits |
| HexCodec.HexPairValue | test/MainUUE.java:37 | their values under toByte are the high and the low nibble |
| HexCodec.Encoded | test/MainUUE.java:35-38 | encoding writes twice as many characters as there are bytes |
| HexCodec.EncodedAt | test/MainUUE.java:35-38 | characters 2j and 2j + 1 are the pair of byte j, and every character is a hex digit |
| HexCodec.Encode | test/MainUUE.java:35-38 | the loop writes the encoding of the byte array |
| HexCodec.ShiftedUp | test/MainUUE.java:56 | `(byte) (n << 4)` is 16n or 16n - 256, a byte with four low zero bits |
| HexCodec.NibblesJoin | test/MainUUE.java:56-58 | a byte is its high nibble shifted up and cast, plus its low nibble |
| HexCodec.Decoded | test/MainUUE.java:52-59 | decoding an even-length text gives half as many bytes |
| HexCodec.DecodedAt | test/MainUUE.java:55-59 | byte j is `(byte) ((toByte(c[2j]) << 4) \| toByte(c[2j + 1]))` |
| HexCodec.DecodePair | test/MainUUE.java:56-58 | the loop body computes the byte of two characters |
| HexCodec.Decode | test/MainUUE.java:52-59 | an even length gives the decoded bytes; an odd one gives the index-out-of-range failure of `charAt` at the text's length |
| HexCodec.PairRoundTrip | test/MainUUE.java:55-58 | decoding the two digits of a byte gives the byte back, negative bytes included |
| HexCodec.RoundTrip | test/MainUUE.java:35-59 | `decode(encode(bs)) == bs` for every byte sequence |
| Tweaker.ReverseInPlace | test/IntArrayTweaker.java:14-18 | the converging swaps leave r with r[start..end) reversed |
| Tweaker.ReverseRangeProps | test/IntArrayTweaker.java:14-18 | `reverse` puts old r[end - 1 - i] at r[start + i], keeps the multiset and changes nothing outside the range |
| Tweaker.ReverseRangeTwice | test/IntArrayTweaker.java:14-18 | reversing twice gives r back; a range of at most one element is untouched |
| Tweaker.Copied | test/IntArrayTweaker.java:20-24 | r[i] == a[i] below a's length and r unchanged beyond it |
| Tweaker.Copy | test/IntArrayTweaker.java:20-24 | the copy loop, for r at least as long as a, leaves r as described |
| Tweaker.DitheredAt | test/IntArrayTweaker.java:10 | each element becomes a[i] + i % 5, wrapped into a Java int |
| Tweaker.DitherInPlace | test/IntArrayTweaker.java:10 | the DITHER loop leaves r dithered |
| Tweaker.WholeReversed | test/IntArrayTweaker.java:6 | reversing the whole range is the reverse of the sequence and keeps its elements |
| Tweaker.HalvesReversed | test/IntArrayTweaker.java:7-8 | reversing one half leaves the other half alone and keeps the elements |
| Tweaker.TweakArray | test/IntArrayTweaker.java:5-10 | `tweak(a, r)` leaves r as the tweak's result on a and the old r |
| Tweaker.TweakedMeaning | test/IntArrayTweaker.java:5-10 | IDENT copies a, REVERSE reverses it, REVERSE_FR and REVERSE_BA reverse only the front or back half, DITHER adds i % 5 with wrap-around; all but DITHER keep the elements |

## Left out

- The parallel layer is not modelled: the `Sorter` and `Merger` tasks, `fork`, the parallel entry branches and the parallel loops of `mergeParts`. Every method models the path with `sorter == null` and `merger == null`, where the buffer offset is `low`.
- `tryAllocate` and `MAX_BUFFER_SIZE` depend on the JVM's memory. Whether a buffer can be allocated is the parameter `canAllocate`.
- The `@IntrinsicCandidate` wrappers `sort(Class, ...)` and `partition(Class, ...)` only call the method reference they are given and are inlined.
- The radix sort is not called from the sequential driver. `isLargeRandom` needs `sorter != null`, so on the sequential path it is always false. `R32Radix.TryRadixSort` is a method of its own.
- Float and double code is not modelled: NaN and -0.0 handling and the IEEE bit transforms. The long, float and double clones of the int algorithms are not modelled either, including the six-digit long radix sort.
- The byte, char and short copies of `insertionSort`, `partitionWithTwoPivots`, `partitionWithOnePivot` and the sample network are the int code with another element type. They are modelled by the int members over ints in the type's range.
- The insertionSort of the b01 revision (`DualPivotQuicksort_b01_mrg.java:681-692`) is modelled by `InsertionSteps.InsertionSort`. It tests `--i >= low` before each comparison, where the r32 code tests `i > low` after the first move; the two loops make the same moves.
- partitionSinglePivot and heapSort/pushDown of the b01 revision are the same code as the r32 ones. They are modelled once, by `Partitioning.PartitionWithOnePivot` and the `HeapSort` module.
- `CountingSort.Sort` is one method for the three element types. The type decides the count array's length, the mask and the cast. The counts are unbounded integers; in Java they cannot overflow, since a range has fewer than 2^31 elements.
- `R32Radix.ProcessDigit` and `R32Radix.Accumulate` require a non-empty count array. Every count array the radix sort passes has 1024 or 2048 entries.
- `Merging.ArrayCopy` models `System.arraycopy` between two different arrays only, the only way the sequential code calls it.
- The `sort(int[])` and `sort(int[], from, to)` front doors for the other element types of `test/Arrays.java` are not modelled. Neither are `sort2` and `binarySearch0`, which work on floating point.
- The file I/O, the charset of `new String(bytes)` and the message `toByte` prints for a non-hex character are not modelled. Only the values are.
- SORT______ of the tweaker calls the library `Arrays.sort` and is not modelled.
- LegacyArrays.PivotValue: states only that the partition element is an element of the range, not which one. `LegacyArrays.PivotIndex` and `LegacyArrays.Med3IsMedian` state how the index is chosen.
- LegacyArrays.VecSwap: requires the lower block to come first and the blocks to be disjoint, as in both calls of `sort1`.
- Elements and indices are unbounded integers. The sorters compare and move elements without arithmetic on them; the code computes with element bits in the radix digits, DITHER and the narrowing casts of counting sort, and those are written out. For indices the 32-bit width matters in pushDown alone, as the next line says.
- HeapSort.PushDown: does not model the 32-bit child index. The source computes the right child as `(p << 1) - low + 2` in an int (`DualPivotQuicksort_r32.java:1142`, `DualPivotQuicksort_b01_mrg.java:723`). That value wraps to a negative number once 2 * p - low + 2 exceeds 2^31 - 1, which a range reaching past about 2^30 elements allows (for example low = 0 and high = 2^31 - 1). The Java code then indexes the array with a negative k, while the model sorts every range.
