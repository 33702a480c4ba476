# Sorting kernels and branch predictor, modelled in Dafny

This project models the two sequential cores of a small benchmarking repository.

**Sorting kernels.** In-place sorts of a `uint32_t` buffer over an inclusive index range `[lo, hi]`. Each variant keeps the loops and the array updates of its C file:

- **Merge sort with a scratch buffer.** Found in mergesort.c and merge.c, which repeat the same kernels line for line. Modelled as module `ScratchMergeSort`.
- **Merge sort with temporaries.** Each merge copies both runs into freshly allocated `L` and `R` arrays. Found in sorting.c and test.c, which hold the same two functions. Modelled as `TempMergeSort`.
- **Pivot-at-`low` quicksort.** The partition places the pivot at its final index.
  - sorting.c has it as `LowPivotQuickSort`.
  - quicksort.c has it as `ThreadedQuickSort`.
  - The partition loops the two files share are in `LowPivot`.
- **Hoare quicksort of quicksort_serial.c.** Uses a median-of-three pivot. Modelled as `HoareQuickSort`.
- **Quicksort of test.c.** Uses a median-of-three pivot and stores the pivot where the scans meet. Its serial driver recurses on the smaller side and loops on the larger one. Modelled as `MedianQuickSort`.

**Threaded drivers.** These are read as sequential code: a forked thread becomes an ordinary call on its sub-range. The forks work on disjoint cells, so the result is the same. The fork decision, the depth, the global `thread_count` and the sub-ranges handed to each side are modelled exactly.

**Shared vocabulary.** `SortSpec` says what "sorts `[lo, hi]` in place" means:
- the range becomes a sorted permutation of its old contents;
- every cell outside the range is unchanged.

It also holds the `size_t` wrap-around and the median-of-three expression.

**Merge specification.** `MergeSpec` states the two-way merge on values and proves it:
- it permutes its inputs;
- it is sorted when its inputs are;
- it is stable;
- it is the identity on an already sorted range.

**Branch predictor.** `BranchPredictor` models the prediction table of pin/branch_predictor.cpp:
- a list of `(branch, taken, hysteresis)` records;
- the static, one-bit and two-bit predictors.

The list is a class field `nodes: seq<BranchNode>`. Its order is the order of the `next` links. The methods walk and update it as the C functions walk and update the linked list.

**Behaviour of the code worth noting:**
- test.c samples the middle element at `(i+j+1)/2`; quicksort_serial.c samples it at `(i+j)/2`.
- The two threaded drivers of test.c return after their first fork. Only the smaller side of that split is sorted (see Findings).
- A range with `low > high` is a no-op only when the bounds stay below `SIZE_MAX`. Several left calls compute `p - 1` in `size_t`, and that wraps (see Findings).
- The result of `pthread_create` is never checked. A failed thread creation is not recovered, and its sub-range stays unsorted.
- The thread counter of quicksort.c returns to its value on entry to each call, so to 0 for a top-level call that starts at 0.

## Model

| member | source | states |
|---|---|---|
| SortSpec.SizeSub | sorting.c:165 | `a - b` in 64-bit `size_t`: the true difference when `b <= a`, and `SIZE_MAX + 1 - (b - a)` when it underflows |
| SortSpec.Median3 | quicksort_serial.c:70 | the pivot expression picks one of the three samples, at least two samples are at or above it and at least two at or below it, so it is their median; the same code is at test.c:161 |
| SortSpec.Swap | quicksort_serial.c:88-90 | the swap through a temporary exchanges exactly the two cells and changes nothing else |
| SortSpec.AdjacentSortedIsSorted | quicksort_serial.c:107-109 | every neighbouring pair of a range is in order if and only if the whole range is sorted, which is why the neighbour scans decide sortedness |
| SortSpec.SortSidesOfSplit | quicksort_serial.c:96-100 | once a range is split around a pivot value, sorting each side in place, in either order, sorts the whole range |
| SortSpec.SortsRangeUnique | mergesort.c:126-143 | any two in-place sorts of the same range leave identical buffers, so the threaded merge sort read sequentially produces exactly what `merge_sort` produces |
| MergeSpec.MergePermutes | mergesort.c:60-73 | the merged run has `n1 + n2` elements and is exactly the multiset union of the two runs: every element is emitted once |
| MergeSpec.MergeSorted | mergesort.c:59-74 | merging two non-decreasing runs yields a non-decreasing run |
| MergeSpec.MergeStable | mergesort.c:63 | the merge is stable: among equal keys, no element of the right run is emitted before one of the left run; the same tie rule is at merge.c:31, sorting.c:84 and test.c:89 |
| MergeSpec.MergeOfSortedIsConcat | mergesort.c:134-138 | merging an already sorted range at any split point gives it back unchanged, so the extra merge after the serial sort is harmless; the same code is at merge.c:102-106 |
| MergeSpec.MergeAdvance | mergesort.c:63-67 | one step of the head loop writes the smaller head (the left on a tie), and the rest of the output is the merge of what remains |
| MergeSpec.HeadsAdvance | mergesort.c:62-68 | writing the smaller head at the next index keeps the head-loop invariant: the first `i + j` merged elements are in place and nothing else was written |
| MergeSpec.TailsWritten | mergesort.c:70-71 | once one run is used up, copying the left then the right remainder completes the merged run, and nothing outside it is written |
| MergeSpec.TailsPlaced | sorting.c:97-108 | heads followed by the two copied remainders lay out the whole merged run |
| MergeSpec.MergedRangePermutes | mergesort.c:73 | writing the merged run back over `[left, right]` permutes that range, and sorts it when both runs were sorted |
| MergeSpec.Midpoint | mergesort.c:87 | `left + (right-left)/2` lies in `[left, right]`, is below `right` when `left < right`, and splits the range into halves that differ by at most one |
| MergeSpec.SortedHalves | mergesort.c:88-89 | sorting the two halves one after the other permutes the range and leaves each half sorted |
| ScratchMergeSort.DriverMidpointAgrees | mergesort.c:129 | the top-level driver's `(left + right) / 2` is the same midpoint the thread body computes |
| ScratchMergeSort.Merge | mergesort.c:59-74 | `arr[left..right]` becomes the merge of its two old runs; `arr` and `temp` outside `[left, right]` are unchanged; the range is permuted, and sorted when both runs were; the same code is at merge.c:27-42 |
| ScratchMergeSort.MergeRuns | mergesort.c:60-71 | the three loops leave the merge of the two runs in `temp[left..right]` and write no other cell of `temp` |
| ScratchMergeSort.MergeHeads | mergesort.c:62-68 | the head loop ends with one run used up, with the merge's prefix in `temp` and positions that account for every element taken |
| ScratchMergeSort.CopyTails | mergesort.c:70-71 | the two tail loops finish the merged run in `temp[left..right]` and end at `right + 1` |
| ScratchMergeSort.CopyRun | mergesort.c:70 | a tail loop copies the rest of one run to consecutive `temp` cells and touches nothing else |
| ScratchMergeSort.IsSubarraySorted | mergesort.c:77-82 | returns true exactly when `arr[i] <= arr[i+1]` for every `i` in `[left, right)`, that is, when the range is sorted; the same code is at merge.c:45-50 |
| ScratchMergeSort.MergeSort | mergesort.c:85-92 | sorts and permutes `arr[left..right]`, leaves the rest of `arr` and of `temp` untouched, and is a no-op when `left >= right`; the same code is at merge.c:53-60 |
| ScratchMergeSort.ParallelMergeSortThread | mergesort.c:95-123 | whether it forks on the disjoint halves or sorts them itself, the range ends a sorted permutation, `temp` outside it is untouched, and the "not sorted" diagnostic is never printed; the same code is at merge.c:63-91 |
| ScratchMergeSort.ParallelMergeSort | mergesort.c:126-143 | the top-level driver sorts and permutes `[left, right]` on both branches, keeps `temp` outside it, and never reports a failed final merge; the same code is at merge.c:94-111 |
| ScratchMergeSort.SortedCheckRange | mergesort.c:147 | the range `is_sorted` hands on is `[0, size-1]`, and `[0, SIZE_MAX]` when `size` is 0; the same code is at merge.c:115 |
| ScratchMergeSort.EmptyArrayCheckOverruns | mergesort.c:146-148 | for an empty array the scanned range is non-empty and ends at `SIZE_MAX`, so the scan reads past the end |
| ScratchMergeSort.IsSorted | mergesort.c:146-148 | the check of the first `size` elements, with the empty prefix answered directly: true exactly when `arr[0..size-1]` is sorted |
| TempMergeSort.Merge | sorting.c:63-113 | through copies `L` and `R`, `arr[left..right]` becomes the merge of its old runs; nothing else changes; the range is permuted, and sorted when both runs were; the same code is at test.c:68-118 |
| TempMergeSort.CopyOut | sorting.c:73-76 | the copy loops give a fresh array holding exactly `n1` (or `n2`) elements of the run |
| TempMergeSort.MergeBack | sorting.c:79-108 | the merge loops write the merge of `L` and `R` to `arr[left..left+n1+n2-1]`, so `n1 + n2` cells cover the range once, and nothing else |
| TempMergeSort.MergeHeads | sorting.c:83-92 | the head loop ends with `L` or `R` used up and the merge's prefix written from `left` |
| TempMergeSort.CopyIn | sorting.c:97-108 | a remainder loop copies the rest of `L` or `R` to consecutive cells and touches nothing else |
| TempMergeSort.MergeSort | sorting.c:116-127 | sorts and permutes `arr[left..right]` and changes nothing outside it; the same code is at test.c:121-132 |
| LowPivot.PivotSides | sorting.c:165-166 | the two recursive ranges `[low, p-1]` and `[p+1, high]` are each shorter than `[low, high]`, and with the pivot cell they partition it: every index is in exactly one of the three |
| LowPivot.ScanUp | sorting.c:136-138 | the upward scan stops at the first element above the pivot, or at `high + 1`, having passed only elements at most the pivot; the same code is at quicksort.c:27-29 |
| LowPivot.ScanDown | sorting.c:140-142 | the downward scan stops on an element at most the pivot, never below `low`, because the pivot itself sits at `low`; the same code is at quicksort.c:30-32 |
| LowPivot.ScanRound | sorting.c:135-150 | one round of scans and swap keeps the partition invariant (permutation, pivot at `low`, small prefix, large suffix) and narrows the gap |
| LowPivot.PlacePivot | sorting.c:153-155 | the final swap puts the original `arr[low]` at `j` with everything before it at most it and everything after it greater |
| LowPivot.SortAroundPivot | sorting.c:164-166 | sorting both sides of a placed pivot, in either order, sorts the whole range |
| LowPivot.LeftCallAsWritten | sorting.c:165 | the left call's upper bound `p - 1` in `size_t` is `SIZE_MAX` when `p == 0`; the same code is at quicksort.c:76 |
| LowPivot.SortedPairLeftCallOverruns | sorting.c:165 | on `[1, 2]` every correct partition leaves the pivot at 0, so the left call as written is `[0, SIZE_MAX]` |
| LowPivotQuickSort.PopulateArray | sorting.c:45-49 | fills `arr[i]` with `size - i` truncated to 32 bits, a strictly decreasing run from `size` down to 1 when `size` fits, and leaves the rest alone |
| LowPivotQuickSort.Partition | sorting.c:130-159 | returns `p` in `[low, high]`, the range is permuted, `arr[p]` is the original `arr[low]`, everything before is at most it and everything after is greater |
| LowPivotQuickSort.QuickSort | sorting.c:162-168 | with a signed left bound the serial sort leaves `[low, high]` a sorted permutation and the rest untouched |
| LowPivotQuickSort.ParallelQuicksort | sorting.c:171-195 | recursing on the same sub-ranges as the serial sort, right side first, also sorts and permutes the range |
| LowPivotQuickSort.StartParallelQuicksort | sorting.c:198-201 | the entry point sorts the given range |
| HoareQuickSort.Pivot | quicksort_serial.c:68-70 | the pivot is one of the samples `a[i]`, `a[(i+j)/2]` and `a[j]`, with two samples at or above it and two at or below it: their median |
| HoareQuickSort.HoareStart | quicksort_serial.c:68-73 | before the first scan nothing is moved and the sampled cell equal to the pivot stops both scans |
| HoareQuickSort.ScanFromLeft | quicksort_serial.c:76-78 | the `do left++ while (a[left] < v)` scan stops at the first element at least the pivot, at or before a known stopper |
| HoareQuickSort.ScanFromRight | quicksort_serial.c:80-82 | the `do right-- while (a[right] > v)` scan stops at the last element at most the pivot, at or after a known stopper |
| HoareQuickSort.HoareRound | quicksort_serial.c:88-90 | a swap when the scans have not crossed keeps the invariant, with the swapped cells as the next stoppers, and narrows the gap |
| HoareQuickSort.HoareMeet | quicksort_serial.c:84-86 | when the scans cross, `right` splits the range around the pivot and, for two or more cells, lies below `j` |
| HoareQuickSort.Partition | quicksort_serial.c:67-92 | returns `p` with `i <= p < j` for `i < j`; only swaps inside `[i, j]` happen, so the range is permuted; `a[i..p]` is at most the pivot and `a[p+1..j]` at least it |
| HoareQuickSort.QuickSort | quicksort_serial.c:95-101 | the range ends a sorted permutation with every other index untouched; the left call on `[lo, p]` terminates because the partition returns `p < hi` |
| HoareQuickSort.IsSorted | quicksort_serial.c:106-113 | returns 1 exactly when `arr[k] <= arr[k+1]` for every `k + 1 < size`, that is, when the prefix is sorted; empty and one-element prefixes pass |
| ThreadedQuickSort.ThreadCounter.constructor | quicksort.c:17 | the global thread count starts at 0 |
| ThreadedQuickSort.Partition | quicksort.c:21-45 | returns `j` in `[low, high]` with `arr[j]` the original `arr[low]`, everything left of it at most it, everything right of it greater, and the range permuted |
| ThreadedQuickSort.SerialCallsAsWritten | quicksort.c:52-53 | the serial calls `[low, p]` and `[p+1, high]` are adjacent, and the left one shrinks only when `p < high` |
| ThreadedQuickSort.EqualPairLeftCallRepeats | quicksort.c:48-56 | on `[2, 2]` every correct partition returns `high`, so the left call as written repeats the range it came from |
| ThreadedQuickSort.QuickSort | quicksort.c:48-56 | with the left call on `[low, p-1]` the serial sort terminates and leaves a sorted permutation |
| ThreadedQuickSort.ShouldThread | quicksort.c:70-72 | a fork happens only below depth 3, only when `high - low` exceeds 10000, and only while fewer than 8 threads are live, so after the increment the count is at most 8 and the child depth at most 3 |
| ThreadedQuickSort.ForkBoundClosedForm | quicksort.c:70 | with forks allowed only below depth 3, a call at depth `d` forks at most `2^(3-d) - 1` times |
| ThreadedQuickSort.ParallelQuicksort | quicksort.c:59-107 | sorts and permutes `[low, high]`; the thread count is raised before each fork and lowered after its join, so it returns at its entry value; no fork happens at depth 3 or more or when `high - low` is at most 10000 |
| ThreadedQuickSort.StartRangeAsWritten | quicksort.c:111 | the start range is `[0, size-1]`, and `[0, SIZE_MAX]` when `size` is 0 |
| ThreadedQuickSort.EmptyStartOverruns | quicksort.c:110-113 | for an empty buffer the start range passes `low < high` and reaches past the buffer |
| ThreadedQuickSort.StartParallelQuicksort | quicksort.c:110-113 | with a signed bound, sorts `arr[0..size-1]`, restores the thread count and forks at most 7 times in all |
| ThreadedQuickSort.VerifySorted | quicksort.c:116-124 | reports nothing exactly when the prefix is sorted; otherwise the first `i >= 1` with `arr[i] < arr[i-1]`, everything before it being sorted |
| MedianQuickSort.Pivot | test.c:159-161 | the pivot is one of the samples `a[i]`, `a[(i+j+1)/2]` and `a[j]`, with two samples at or above it and two at or below it: their median |
| MedianQuickSort.PivotCell | test.c:159-161 | the pivot value sits at one of the three sampled cells of `[i, j]` |
| MedianQuickSort.ScanUp | test.c:163 | `while (a[i] < v && ++i < j)` stops at the first cell at least `v`, or at `j`, passing only cells below `v` |
| MedianQuickSort.ScanDown | test.c:164 | `while (v < a[j] && i < --j)` stops at the last cell at most `v`, or at `i`, passing only cells above `v` |
| MedianQuickSort.RoundAsWritten | test.c:163-167 | one pass as written: with a cell holding `v` inside `[i, j]`, both scans stop on either side of it |
| MedianQuickSort.Round | test.c:162-168 | one corrected pass either narrows `[i, j]` or starts stalled and ends not stalled, and keeps a cell holding `v` inside the new range |
| MedianQuickSort.PartitionLoop | test.c:162-170 | the loop followed by `a[i] = v` returns an index inside `[i, j]` and keeps the buffer's length |
| MedianQuickSort.PassThenLoop | test.c:162-168 | one pass followed by the rest of the loop returns an index inside `[i, j]` |
| MedianQuickSort.PartitionResult | test.c:157-172 | the partition of `[lo, hi]` keeps the buffer's length and returns an index inside the range; `PartitionStoresPivot` proves the split |
| MedianQuickSort.RoundKeeps | test.c:165-167 | a pass keeps the invariant: the range is permuted, cells before `i` are at most `v` and cells after `j` at least `v` |
| MedianQuickSort.PartitionLoopSplits | test.c:169-171 | when the loop ends, `i == j` on a cell that holds `v`, so the store `a[i] = v` writes the pivot where it belongs and the range is split around it |
| MedianQuickSort.PartitionStoresPivot | test.c:157-172 | the partition permutes `[lo, hi]`, stores the median-of-three pivot at the returned index and splits the range around it |
| MedianQuickSort.EqualPivotCellsRepeat | test.c:162-168 | on `[1, 5, 5]` a pass as written from `(1, 2)` returns to `(1, 2)` with the buffer unchanged, so the loop never ends; the corrected pass reaches `(2, 2)` |
| MedianQuickSort.MoveUp | test.c:163 | the upward scan on the array stops where `ScanUp` says, never past the cell holding `v` |
| MedianQuickSort.MoveDown | test.c:164 | the downward scan on the array stops where `ScanDown` says, never below the cell holding `v` |
| MedianQuickSort.PassIsRound | test.c:163-167 | the two scans, the swap and the step past an equal pair make exactly one corrected pass, after which the loop has the same outcome |
| MedianQuickSort.PartitionPass | test.c:163-167 | one pass on the array narrows `[i, j]` or ends a stall, and leaves the loop with the same outcome as from the old state |
| MedianQuickSort.Partition | test.c:157-172 | the corrected partition on the array leaves exactly the buffer and index `PartitionResult` describes, which `PartitionStoresPivot` shows is a split around the stored pivot |
| MedianQuickSort.TailDone | test.c:176 | when the loop condition `lo < hi` fails, the whole original range is a sorted permutation |
| MedianQuickSort.TailLeft | test.c:178-180 | sorting the left side and moving `lo` to `j + 1` keeps the driver's invariant: outside `[lo, hi]` everything is in order |
| MedianQuickSort.TailRight | test.c:181-183 | sorting the right side and moving `hi` to `j - 1` keeps the driver's invariant |
| MedianQuickSort.QuickSort | test.c:174-186 | with signed bounds, the loop over the larger side and the recursion on the smaller side leave `[lo, hi]` a sorted permutation |
| MedianQuickSort.SortSmallerSide | test.c:177-184 | one loop pass sorts the smaller side, keeps the invariant and strictly shrinks the remaining range |
| MedianQuickSort.ZeroSplitLeftCallOverruns | test.c:179 | on `[5, 0]` the partition leaves `[0, 5]` and returns 0, the left side is the smaller, and `j - 1` as written asks for `[0, SIZE_MAX]` |
| MedianQuickSort.ForkedSideSorted | test.c:203-222 | after one partition, sorting the smaller side (as the forked thread does) permutes the range and sorts exactly that side |
| MedianQuickSort.ForkSmallerSide | test.c:199-226 | one partition followed by the forked sort of the smaller side permutes the range and leaves exactly that side sorted, the larger side as the partition left it |
| MedianQuickSort.ParallelQuickSortAsWritten | test.c:197-230 | the `return` after the join permutes the range but sorts only the smaller side of one partition; the smaller side's bound `j - 1` is taken signed |
| MedianQuickSort.EarlyReturnLeavesLargerSide | test.c:227 | on `[0, 2, 3, 1]` the function as written leaves `[0, 1, 3, 2]`, which is not sorted |
| MedianQuickSort.OptimizedParallelQuickSortAsWritten | test.c:233-278 | always permutes the range; when `hi - lo` is at most 1000 it sorts the range completely, and above 1000 it returns after the first fork with only the smaller side of that partition sorted |
| MedianQuickSort.IsSortedAsWritten | test.c:280-286 | returns 1 exactly when every neighbouring pair of the prefix is strictly increasing |
| MedianQuickSort.StrictCheckRejectsDuplicates | test.c:282 | strict ascent implies sortedness, but the sorted `[1, 1]` is rejected |
| BranchPredictor.StaticPrediction | pin/branch_predictor.cpp:5-7 | the static prediction is always 1, never the "not found" value -1 |
| BranchPredictor.Find | pin/branch_predictor.cpp:70-77 | the search stops at the first node for the branch, every node before it belongs to another branch, and it returns the list length when there is none |
| BranchPredictor.Entry | pin/branch_predictor.cpp:9-16 | a branch has an entry exactly when some node carries its id, and the entry is such a node |
| BranchPredictor.Settle | pin/branch_predictor.cpp:79-82 | the answer is never the "not found" value -1; a found prediction is returned unchanged; the list grows by exactly one node on a miss and keeps its old nodes as a prefix |
| BranchPredictor.OneBit | pin/branch_predictor.cpp:64-84 | the one-bit answer is never -1; an answer other than the static 1 is the outcome stored in the branch's first node; the list grows by at most one node; no other branch's node changes |
| BranchPredictor.TwoBitUpdate | pin/branch_predictor.cpp:96-108 | the node keeps its branch id; its outcome stays or becomes `actual`, and it changes only when the hysteresis bit was not set |
| BranchPredictor.TwoBit | pin/branch_predictor.cpp:87-121 | the two-bit answer is never -1; an answer other than the static 1 is the outcome stored in the branch's first node; the list grows by at most one node; no other branch's node changes |
| BranchPredictor.BranchList.constructor | pin/branch_predictor.cpp:16 | the list starts empty |
| BranchPredictor.BranchList.AddBranchInfo | pin/branch_predictor.cpp:19-37 | the walk to the tail appends exactly one node, keeping the order of the old nodes |
| BranchPredictor.BranchList.FreeBranchList | pin/branch_predictor.cpp:39-47 | afterwards the list is empty |
| BranchPredictor.BranchList.Lookup | pin/branch_predictor.cpp:70-77 | the pointer walk finds the first node for the branch, or runs off the end |
| BranchPredictor.BranchList.OneBitPrediction | pin/branch_predictor.cpp:64-84 | the prediction and the new list are those of the one-bit predictor `OneBit` on the old list |
| BranchPredictor.BranchList.TwoBitPrediction | pin/branch_predictor.cpp:87-121 | the prediction and the new list are those of the two-bit predictor `TwoBit` on the old list |
| BranchPredictor.FindAppend | pin/branch_predictor.cpp:79-82 | appending a node for an unseen branch makes it that branch's first node and leaves every other branch's first node where it was |
| BranchPredictor.OneBitCases | pin/branch_predictor.cpp:70-82 | on a miss: prediction 1 and one node holding the actual outcome appended; on a hit: the stored outcome returned and only that node's outcome overwritten |
| BranchPredictor.OneBitRemembersOutcome | pin/branch_predictor.cpp:64-84 | as a map from branch to record, each id stays unique, the branch's record afterwards holds `actual`, other branches keep theirs, and the prediction is the old outcome or 1 |
| BranchPredictor.UpdateKeepsOthers | pin/branch_predictor.cpp:73 | overwriting a branch's first node in place changes no other branch's lookup |
| BranchPredictor.StoredSentinelLooksLikeMiss | pin/branch_predictor.cpp:79-82 | a stored outcome of -1 is mistaken for a miss: prediction 1 and a second node for the same branch |
| BranchPredictor.TwoBitTransitions | pin/branch_predictor.cpp:96-108 | a right prediction keeps `taken` and sets a clear hysteresis bit; a wrong one clears a set bit, and otherwise takes the actual outcome |
| BranchPredictor.TwoBitHysteresis | pin/branch_predictor.cpp:96-108 | with the bit 0 or 1 the state stays in those four states, one miss never flips a node whose bit is set, and two misses in a row always do |
| BranchPredictor.TwoBitStepsEntry | pin/branch_predictor.cpp:87-121 | as a map, each id stays unique, the branch's record afterwards is the two-bit step of the old one (or a new node holding `actual`), other branches keep theirs, and the prediction is the old outcome or 1 |

## Left out

- **Input and experiment code.** Not modelled: `populate_from_file`, `print_array`, the `perform_*_experiments` drivers, every `main`, `PrintAllNodes`, and the trace-file parser of pin/branch_predictor.cpp. They are file and console I/O.
- **Randomness and timing.** Not modelled: the `rand`-based `populate_array` variants of mergesort.c, merge.c and test.c, `rdtsc`, `get_time_seconds`, and the speed-up arithmetic. They are randomness, timing and floating point.
- **Threads.** `pthread_create`, `pthread_join` and the mutex are not modelled. A fork is an ordinary call on a disjoint sub-range, so interleavings, a failed thread creation and the unlocked read of `thread_count` at quicksort.c:72 are out of scope.
- **Allocation.** A `malloc` that returns NULL is not modelled:
  - for `L` and `R` in the merges of sorting.c and test.c;
  - for the fork parameters in test.c;
  - for the exit path of `AddBranchInfo`.

  Memory is unbounded here.
- **Memory release.** `free` is not modelled. `FreeBranchList` is modelled by its effect: the list becomes empty.
- **Index width.** Indices are unbounded integers except where `size_t` wraps below 0, which `SizeSub` models. The following are not modelled:
  - the overflow of `i + j` and `left + right` near `SIZE_MAX`;
  - the 32-bit `int i` loop counters of the `is_sorted` scans and fill loops;
  - the `int` return type of the partitions of sorting.c, quicksort.c and test.c.

  All of these matter only for ranges beyond 2^31 cells.
- **Dead code.** The commented-out partition at test.c:135-154 and the empty `sort_array` stubs are not modelled.
- **Other tools.** The other Pin tools under pin/, the Python sample generators and the cloud launcher script are not modelled.
- **Branch record fields.** The fields of a branch record are modelled as unbounded integers. The C code does no arithmetic on them, so their `int` width does not matter.
- BranchList.AddBranchInfo: takes the new node's hysteresis as an argument. The C code leaves that field uninitialised, so the model lets the caller choose any value.
- BranchList.OneBitPrediction: takes the appended node's hysteresis as the argument `h`, for the same reason. BranchList.TwoBitPrediction does the same.
- ThreadedQuickSort.ParallelQuicksort: states that the thread count returns to its value on entry. It does not say that the count stays below `MAX_THREADS`, because the unlocked read lets concurrent threads overshoot it.
- ThreadedQuickSort.QuickSort: models the serial sort with the left call on `[low, p-1]`. The call as written, on `[low, p]`, is captured only by `SerialCallsAsWritten` and `EqualPairLeftCallRepeats` (see Findings).
- LowPivotQuickSort.QuickSort: takes the left call's upper bound as a signed `p - 1`. The wrapped bound is captured by `LeftCallAsWritten` (see Findings). The same holds for LowPivotQuickSort.ParallelQuicksort and ThreadedQuickSort.ParallelQuicksort.
- MedianQuickSort.Partition: models the corrected loop. The loop as written is captured only pass by pass, by `RoundAsWritten`, and it need not terminate (see Findings).
- ParallelQuickSortAsWritten, OptimizedParallelQuickSortAsWritten (MedianQuickSort): the bound `j - 1` of the smaller left side is taken as a signed integer at test.c:208, test.c:247 and test.c:270. The C code wraps it in `size_t`, so on `[5, 0]` it asks to sort `[0, SIZE_MAX]`. Both members also call the corrected `Partition`, since the partition as written need not terminate. The wrap is exhibited by `ZeroSplitLeftCallOverruns` and the stall by `EqualPivotCellsRepeat` (see Findings). OptimizedParallelQuickSortAsWritten evaluates its fork test before the partition rather than after it; the test reads only `lo` and `hi`, which the partition does not change.
- HoareQuickSort.Partition: the model cannot state that the scans read no cell outside `[i, j]`. It shows that they stop at cells inside the range.
- ScratchMergeSort.ParallelMergeSortThread: requires `left <= right`. With `right < left`, `right - left` wraps to a huge value and the C code forks on wrapped bounds. The same holds for ScratchMergeSort.ParallelMergeSort. The callers in the repository pass `[0, size - 1]`.

## Findings

| source | as written | input that shows it | evidently intended | confidence | as-written member | corrected member |
|---|---|---|---|---|---|---|
| mergesort.c:147 | `is_sorted` passes `size - 1` in `size_t` to the range scan | `size == 0`: the scan covers `[0, SIZE_MAX]` and reads `arr[0]` and `arr[1]` of an empty array | an empty array counts as sorted | not executed | ScratchMergeSort.EmptyArrayCheckOverruns | ScratchMergeSort.IsSorted |
| sorting.c:165 | the left call's bound `pivot_location - 1` is computed in `size_t` (also sorting.c:181) | `[1, 2]`: the pivot stays at index 0 and the left call is `quick_sort(arr, 0, SIZE_MAX)` | an empty left range when the pivot lands at index 0 | not executed | LowPivot.SortedPairLeftCallOverruns | LowPivotQuickSort.QuickSort |
| quicksort.c:76 | `pivot_loc - 1` in `size_t` in both branches of `parallel_quicksort` (also quicksort.c:99) | `[1, 2]`: the pivot stays at index 0 and the left range is `[0, SIZE_MAX]` | an empty left range | not executed | LowPivot.SortedPairLeftCallOverruns | ThreadedQuickSort.ParallelQuicksort |
| quicksort.c:52 | the serial left call is on `[low, pivot_location]` | `[2, 2]`: the partition returns 1, so the call repeats on `[0, 1]` forever | `[low, pivot_location - 1]`, as in `parallel_quicksort` | not executed | ThreadedQuickSort.EqualPairLeftCallRepeats | ThreadedQuickSort.QuickSort |
| quicksort.c:111 | the start range's `size - 1` is computed in `size_t` | `size == 0`: the range `[0, SIZE_MAX]` passes `low < high` and the partition reads past the buffer | an empty buffer is left alone | not executed | ThreadedQuickSort.EmptyStartOverruns | ThreadedQuickSort.StartParallelQuicksort |
| test.c:162-168 | both scans stop on cells equal to the pivot and the swap exchanges equal values | `[1, 5, 5]`: every pass from `i = 1, j = 2` swaps the two 5s and changes nothing, so the loop never ends | after a swap that leaves the pivot value on both sides, `i` steps past the left one | not executed | MedianQuickSort.EqualPivotCellsRepeat | MedianQuickSort.Partition |
| test.c:179 | `quick_sort(a, lo, j-1)` with `j - 1` in `size_t` (also `params->hi = j - 1` at test.c:208 and test.c:247, and `quick_sort(a, lo, j - 1)` at test.c:270) | `[5, 0]`: the partition returns 0, the left side is the smaller, and the call is `quick_sort(a, 0, SIZE_MAX)` | an empty left range | not executed | MedianQuickSort.ZeroSplitLeftCallOverruns | MedianQuickSort.QuickSort |
| test.c:227 | `return` right after the join, inside the `while` loop; the same `return` is at test.c:266 when `hi - lo > 1000` | `[0, 2, 3, 1]`: the result is `[0, 1, 3, 2]`, with the larger side unsorted | keep looping on the larger side, as `quick_sort` does | not executed | MedianQuickSort.EarlyReturnLeavesLargerSide | MedianQuickSort.QuickSort |
| test.c:282 | `arr[i] >= arr[i+1]` rejects equal neighbours | `[1, 1]` is sorted but gives 0 | `arr[i] > arr[i+1]`, as at quicksort_serial.c:108 | not executed | MedianQuickSort.StrictCheckRejectsDuplicates | HoareQuickSort.IsSorted |
