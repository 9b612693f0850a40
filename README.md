# Frequency sorter: a Dafny model

`task1.c` reads a list of integers and annotates each one with its value, how
many times that value occurs in the whole list, and its position. It then sorts
the annotated records with one of three sorters: partition-exchange (quick)
sort, merge sort or heap sort. Two comparators are available:

- "value-freq": value ascending, then frequency descending, then position
  ascending;
- "freq-value": frequency descending, then value ascending, then position
  ascending.

This project models the annotator, both comparators and the three sorters, and
proves what each sorter promises:

- the sorted range is ordered by the comparator;
- the range is a rearrangement of what it held before;
- everything outside the range is untouched.

Because every comparator is a total order on records, a sorted rearrangement is
unique. Hence the three sorters produce the same output (`Sorters.SortersAgree`).

Modules, one per file:

- `Records` (`records.dfy`): the `NumberInfo` record and the comparators, both on
  mathematical integers and as 32-bit C arithmetic.
- `Frequencies` (`frequencies.dfy`): `calculate_frequencies`.
- `SortSpec` (`sortspec.dfy`): what "sorted" and "rearranged" mean, the swap of
  two array cells, and why sorted output is unique.
- `QuickSort` (`quicksort.dfy`): `partition` and `parallel_qsort`.
- `MergeSpec` (`mergespec.dfy`): the two-pointer merge as a function, and the
  record-by-record state the merge loops keep.
- `MergeSort` (`mergesort.dfy`): `parallel_merge` and `parallel_merge_sort`.
- `HeapSorter` (`heapsort.dfy`): `heapify` and `heap_sort`.
- `Sorters` (`sorters.dfy`): the three sorters run on copies of the same input,
  and their results compared.

The sorters are methods on an `array<NumberInfo>` that they change in place,
like the C functions. Each is proved against the predicates `Sorted` and
`Permuted`, which are stated once in `SortSpec`.

## Model

| member | source | states |
|---|---|---|
| Records.NumberInfo | task1.c:9-13 | The annotated record: value, frequency and original position |
| Records.Policy | task1.c:60 | The comparator the driver passes to every sorter: value-freq or freq-value |
| Records.Compare | task1.c:103-123 | Both comparators: the comparison is 0 exactly when the two records are identical |
| Records.CompareIsKeyOrder | task1.c:103-123 | The comparator says "less" (or "greater") exactly when the record's key is lexicographically smaller (or larger). The key is (value, -frequency, position) for value-freq and (-frequency, value, position) for freq-value |
| Records.CompareAntisymmetric | task1.c:103-123 | Swapping the arguments negates the comparison |
| Records.LeqAntisymmetric | task1.c:103-123 | Two records that may each come before the other are equal |
| Records.LeqTotal | task1.c:103-123 | Any two records are ordered one way or the other |
| Records.LeqTransitive | task1.c:103-123 | The comparator's `<= 0` is transitive |
| Records.Wrap32 | task1.c:108 | 32-bit two's-complement wrap-around: the result is a C `int`, congruent to the input modulo 2^32, and equal to the input when it already fits |
| Records.Compare32 | task1.c:103-123 | The comparators as the C code computes them: every subtraction wrapped to 32 bits |
| Records.Compare32NotTransitive | task1.c:107-108 | With the values INT_MIN, 0 and 1, the 32-bit comparator puts INT_MIN before 0 and 0 before 1, but 1 before INT_MIN |
| Records.Compare32AgreesWhenNoOverflow | task1.c:103-123 | When every key difference fits in an `int`, the 32-bit comparator equals the mathematical one |
| Frequencies.Count | task1.c:95-99 | The number of elements equal to `x` is at most the length of the list |
| Frequencies.CountIsMultiplicity | task1.c:95-99 | That count is the multiplicity of `x` in the list taken as a multiset |
| Frequencies.Annotate | task1.c:89-101 | One record per element: its value, its position, and the multiplicity of its value in the whole list |
| Frequencies.FrequencyPositive | task1.c:92 | Every frequency is at least 1 |
| Frequencies.EqualValuesEqualFrequencies | task1.c:95-99 | Equal values carry equal frequencies |
| Frequencies.AnnotatedRecordsDistinct | task1.c:93 | No two annotated records are equal, so the comparators never return 0 between two of them |
| Frequencies.CalculateFrequencies | task1.c:89-101 | The first `size` records of `result` become the annotated input; the rest of `result` is unchanged |
| SortSpec.Swap | task1.c:132-134 | The two cells are exchanged, every other cell is unchanged, and the array holds the same records |
| SortSpec.SortedUnique | task1.c:62-70 | Two sorted sequences holding the same records are equal |
| QuickSort.SmallerMoved | task1.c:130-135 | One step of the partition loop: a record that may come before the pivot is exchanged into the lower group, which grows by one |
| QuickSort.PivotPlaced | task1.c:138-142 | Exchanging the pivot with the first record of the upper group puts it between the groups: every record before it may come before it, and every record after it compares `> 0` to it |
| QuickSort.Partition | task1.c:125-143 | The returned index lies in the range and holds the old `a[high]`. Records before it compare `<= 0` to it, records after it compare `> 0`, and the range is rearranged |
| QuickSort.SortedAroundPivot | task1.c:145-157 | A sorted run of records `<=` a pivot, then the pivot, then a sorted run of records `>` it, is sorted |
| QuickSort.SortedAfterSides | task1.c:145-157 | Partitioning the range and then sorting both sides leaves the whole range sorted and rearranged |
| QuickSort.QSort | task1.c:145-157 | `a[low..high]` (inclusive) ends up sorted and rearranged; everything outside is unchanged |
| MergeSpec.Merged | task1.c:174-183 | The two-pointer merge of what is left of two runs: its length is the sum of the lengths left |
| MergeSpec.MergedPermutes | task1.c:174-183 | The merge holds exactly the records left in both inputs |
| MergeSpec.MergedSorted | task1.c:174-183 | Merging two sorted runs gives a sorted run |
| MergeSpec.MergedOrderedHalves | task1.c:176-177 | On a tie the left record is taken: when every left record may come before every right one, the merge is the left run followed by the right run |
| MergeSpec.MergedWrites | task1.c:174-183 | The merge, read record by record, is what the three loops write: at each step, the left head when it compares `<= 0` to the right head, otherwise the right head, then whatever remains |
| MergeSpec.ProgressStart | task1.c:174 | Before the first loop nothing has been written, and the whole array is as it was |
| MergeSpec.ProgressDone | task1.c:182-183 | When both temporaries are used up, `a[left..right]` holds the merge and the rest of the array is as it was |
| MergeSort.MergeHeads | task1.c:175-180 | The first loop keeps writing the merge record by record, and stops when one temporary is used up |
| MergeSort.CopyLeftRest | task1.c:182 | The second loop keeps writing the merge until the left temporary is used up |
| MergeSort.CopyRightRest | task1.c:183 | The third loop keeps writing the merge until the right temporary is used up |
| MergeSort.Merge | task1.c:159-187 | `a[left..right]` becomes the merge of the old `a[left..mid]` and `a[mid+1..right]`; the rest of the array is unchanged |
| MergeSort.SortedAfterMerge | task1.c:189-203 | Sorting both halves and then merging them leaves the whole range sorted and rearranged |
| MergeSort.MSort | task1.c:189-203 | `a[left..right]` (inclusive) ends up sorted and rearranged; everything outside is unchanged |
| HeapSorter.RootIsGreatest | task1.c:224-238 | In a heap, every record may come before the root |
| HeapSorter.LeavesAreHeaps | task1.c:225 | The nodes from `n/2` on have no children below `n`, so they already form a heap |
| HeapSorter.Largest | task1.c:206-214 | The node `heapify` picks is `i` or one of its children below `n`, and `i` and both children may come before it |
| HeapSorter.SwappedKeepsHeapBelow | task1.c:216-220 | Exchanging `i` with its child `c` keeps the heap intact below `c` |
| HeapSorter.SiftedDown | task1.c:216-221 | After the exchange and the recursive call, the heap holds from `i` down and the range is rearranged |
| HeapSorter.Heapify | task1.c:205-222 | Given a heap at every node after `i`, leaves a heap at every node from `i` on. Only `i..n` is rearranged, and `i` receives one of the records at `i` or at its children |
| HeapSorter.RootSwapped | task1.c:230-235 | Exchanging the root with the last heap record leaves the heap intact below the root |
| HeapSorter.ExtractedRoot | task1.c:229-237 | One round of extraction grows the sorted tail by one. The heap and the rule "heap records may come before tail records" are kept |
| HeapSorter.BuildHeap | task1.c:225-227 | The first `n` records become a heap, and they are rearranged |
| HeapSorter.ExtractAll | task1.c:229-237 | The extraction loop ends with the first `n` records sorted and rearranged |
| HeapSorter.HeapSort | task1.c:224-238 | `a[0..n)` ends up sorted and rearranged; everything from `n` on is unchanged |
| Sorters.WholeSortsAgree | task1.c:62-70 | Three sorted rearrangements of the same whole input are equal, sorted, and hold the input's records |
| Sorters.SortersAgree | task1.c:62-70 | Running "qsort", "merge" and "heap" on copies of the same records with the same comparator gives equal results, sorted and rearranged |

## Left out

- `main` is not modelled. This covers argument parsing, the `MAX_NUMBERS` buffer, the choice of comparator and sorter by name, and the printing of the result. `Sorters.SortersAgree` states what the choice of sorter amounts to.
- The OpenMP parallel sections in `parallel_qsort`, `parallel_merge` and `parallel_merge_sort` run one after the other. The two halves of each section touch disjoint index ranges.
- `malloc`, `memcpy` and `free` in `parallel_merge` are not modelled. The two temporaries are sequence values copied from the array.
- The three loops of `parallel_merge` are the methods `MergeHeads`, `CopyLeftRest` and `CopyRightRest`, called in order. The two loops of `heap_sort` are `BuildHeap` and `ExtractAll`. The read pointers pass from one method to the next, and the write index is always `left + i + j`.
- Records hold mathematical integers. The sorters are proved against `Compare`, the comparators without 32-bit overflow. `Compare32` and the finding below show where the C `int` arithmetic departs from `Compare`.
- The comparator is passed as a function pointer in C. Here it is a `Policy` value that selects one of the two comparators.
- HeapSorter.Heapify: the contract is stated for an index-suffix heap: it requires a heap at every node after `i` and ensures one at every node from `i` on, with `i..n` as the frame. Every call in `heap_sort` (task1.c:226 and 235) provides that. The C function also makes the subtree of `i` a heap when only the two subtrees below `i` are heaps, and it moves only nodes of that subtree. That per-subtree statement is not proved.

## Findings

| source | as written | input that shows it | evidently intended | confidence | as-written member | corrected member |
|---|---|---|---|---|---|---|
| task1.c:107-111 | `compare_value_freq` returns `na->number - nb->number`, which overflows a 32-bit `int` when the values are far apart | the records (INT_MIN, 1, 0), (0, 1, 1) and (1, 1, 2): the wrapped differences put INT_MIN before 0 and 0 before 1, yet 1 before INT_MIN, so the order is not transitive and no sorter can honour it | a three-way comparison that does not overflow, so that the order is the lexicographic key order | not executed | Records.Compare32NotTransitive | Records.LeqTransitive |
