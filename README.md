# x86-simd-sort, modelled in Dafny

A model of the sorting core of x86-simd-sort: the vectorised quicksort,
quickselect and partial sort on 64-bit integers, the sorting networks they
use as base cases, pivot selection and the comparator helpers, the lookup
tables of the AVX2 emulation, the 16-bit float comparison on bit patterns,
and the category resolver of the benchmark script.

A SIMD register is a sequence of lanes (`Simd.Reg = seq<int>`), a mask a
sequence of booleans; every intrinsic the core relies on (min, max,
mask_mov, ge, compress-store, reverse_n, swap_n, reductions) is a
lane-wise function in module `Simd`. The register type is the 8-lane
`zmm_vector<int64_t>`; elements are unbounded integers, with the int64
range stated where it matters (`Simd.InRange`, padding with `TYPE_MAX`).

Modules, following the source files:

- `Simd`, `Sorting`: lanes, masks, swizzles, compress; ascending order,
  the reference sort `SortSeq` (insertion sort) and its properties.
- `Comparators` (src/xss-common-comparators.hpp): prev/next value and the
  ascending/descending `Comparator` methods.
- `Exchange`, `Bitonic`, `Levels`: COEX and cmp_merge; the bitonic
  half-cleaner and merge, proved correct by the 0-1 principle; networks
  written as levels of block stages.
- `RegNetworks` (src/xss-reg-networks.hpp): the one-register networks,
  each proved equal to the bitonic sorter or merger on its lanes.
- `NetworkSort` (src/xss-network-qsort.hpp): the multi-register bitonic
  networks on an array of registers, and sort_n_vec / sort_n with masked
  loads and stores.
- `OptimalNetworks` (src/xss-optimal-networks.hpp): optimal_sort_4/8/16/32
  as layers of COEX steps.
- `Partition` (src/xss-common-qsort.h): partition_vec and partition_avx512.
- `Pivot` (src/xss-pivot-selection.hpp): get_pivot, get_pivot_blocks,
  get_pivot_near_constant, get_pivot_smart.
- `CommonQsort` (src/xss-common-qsort.h): qsort_, qselect_, the NaN helpers
  and the avx512_qsort / avx512_qselect / avx512_partial_qsort entry points.
- `Scalar` (lib/x86simdsort-scalar.h): apply_permutation_in_place,
  get_cmp_func, the scalar argsort and the scalar key-value sorts.
- `KeyedPartition` (src/xss-common-keyvaluesort.hpp, src/xss-common-argsort.h):
  kvpartition and argpartition as one partition of elements compared by a
  key, a (key, value) pair by its key or an index by the element it points at.
- `KvNetworks`, `KvSortN` (src/xss-network-keyvaluesort.hpp): the
  key-value COEX and cmp_merge, the key-value register networks and
  bitonic_*_n_vec, and kvsort_n_vec / argsort_n_vec / kvsort_n / argsort_n.
  A key register and its value register are modelled as one sequence of
  (key, value) lanes; every network moves the keys exactly as the integer
  network does and only moves whole pairs.
- `KeyedSort`: what a sorted, selected or reversed range of keyed elements
  is, and how the two recursive calls of a quicksort combine.
- `KeyedHeap` (src/xss-common-keyvaluesort.hpp): heapify and heap_sort.
- `KeyValueSort` (src/xss-common-keyvaluesort.hpp): kvsort_, kvselect_ and
  xss_qsort_kv, xss_select_kv, xss_partial_sort_kv for int64 keys. The
  keys array and the values array of the source are one array of
  (key, value) pairs here.
- `ArgSort` (src/xss-common-argsort.h): get_pivot_64bit, argsort_,
  argselect_, xss_argsort, xss_argselect, and the vector-returning argsort
  and argselect of src/x86simdsort-static-incl.h that start from std::iota.
- `Fp16` (src/avx512-16bit-qsort.hpp): the bit-pattern comparison, NaN test
  and padding values of the 16-bit float sort.
- `Avx2Emu` (src/avx2-emu-funcs.hpp): the mask and compress-store lookup
  tables and avx2_double_compressstore.
- `RunBench` (run-bench.py): argument checks and the category resolver.

## Model

| member | source | states |
|---|---|---|
| Comparators.PrevValue | src/xss-common-comparators.hpp:4-17 | prev_value is v - 1 above the smallest int64 and saturates there |
| Comparators.NextValue | src/xss-common-comparators.hpp:19-32 | next_value is v + 1 below the largest int64 and saturates there |
| Comparators.PrevNext | src/xss-common-comparators.hpp:4-32 | prev_value and next_value undo each other away from the saturating ends |
| Comparators.ComparisonFuncStrictTotal | src/xss-common-qsort.h:152-156 | comparison_func is a strict total order: irreflexive, asymmetric, transitive, and any two different values are comparable |
| Comparators.StdSortComparatorOrder | src/xss-common-comparators.hpp:43-50 | the descending STDSortComparator is the ascending one with its arguments swapped; both are strict orders |
| Comparators.PartitionComparator | src/xss-common-comparators.hpp:52-58 | the partition mask selects exactly the lanes that go right of the pivot in the comparator's order |
| Comparators.ComparatorCoex | src/xss-common-comparators.hpp:60-66 | descending COEX is ascending COEX with the registers swapped: the first register gets the lanes that sort first |
| Comparators.RightmostPossibleVec | src/xss-common-comparators.hpp:68-76 | the lanes no value sorts after: type_max ascending, type_min descending |
| Comparators.Leftmost | src/xss-common-comparators.hpp:78-90 | leftmost returns the smaller value ascending and the larger descending |
| Comparators.Rightmost | src/xss-common-comparators.hpp:92-104 | rightmost returns the larger value ascending and the smaller descending |
| Comparators.LeftmostRightmost | src/xss-common-comparators.hpp:78-104 | leftmost and rightmost of a distinct pair are its two different values |
| Comparators.ChoosePivotMedianIsSmallest | src/xss-common-comparators.hpp:106-114 | next_value of the median ascending, the median itself descending |
| Comparators.ChoosePivotMedianIsLargest | src/xss-common-comparators.hpp:116-124 | the median ascending, prev_value of it descending |
| Comparators.ChoosePivotMirror | src/xss-common-comparators.hpp:106-124 | the two pivot adjustments are mirror images of each other under order reversal |
| Exchange.Coex | src/xss-common-qsort.h:161-167 | COEX leaves the lane-wise minimum in a and the maximum in b |
| Exchange.CoexMultiset | src/xss-common-qsort.h:161-167 | COEX keeps the multiset of the two registers' lanes |
| Exchange.CmpMergeLanes | src/xss-common-qsort.h:169-177 | cmp_merge takes the maximum in lanes whose mask bit is set and the minimum elsewhere |
| Exchange.UpperMaskAA | src/xss-reg-networks.hpp:54 | the constant 0xAA, read lane by lane from bit 0, is the upper-half mask of blocks of 2 lanes |
| Exchange.UpperMaskCC | src/xss-reg-networks.hpp:55 | the constant 0xCC is the upper-half mask of blocks of 4 lanes |
| Exchange.UpperMaskF0 | src/xss-reg-networks.hpp:56 | the constant 0xF0 is the upper-half mask of one block of 8 lanes |
| Exchange.CmpMergeFlip | src/xss-reg-networks.hpp:30-43 | cmp_merge against reverse_n<B> under the upper-half mask is the flip stage of the bitonic sorter on every B-block |
| Exchange.CmpMergeHalf | src/xss-reg-networks.hpp:50-68 | cmp_merge against swap_n<B> under the upper-half mask is the half-cleaner stage on every B-block |
| Bitonic.CleanRecSortsBitonic | src/xss-network-qsort.hpp:9-21 | the recursive half-cleaner sorts every bitonic sequence of 2^k elements |
| Bitonic.MergeSorts | src/xss-network-qsort.hpp:26-53 | the flip stage then half-cleaners sorts two sorted halves, also without re-reversing the upper half |
| Bitonic.MergeRecMultiset | src/xss-network-qsort.hpp:26-53 | the merge only rearranges its input |
| Bitonic.SortedUnique | src/xss-network-qsort.hpp:26-53 | two sorted sequences with the same elements are equal |
| Levels.SortLevelsSorted | src/xss-reg-networks.hpp:112-163 | the bitonic sorter written as levels sorts a block of 2^k lanes |
| Levels.SortLevelsMultiset | src/xss-reg-networks.hpp:112-163 | every level network is a permutation of its input |
| Levels.CleanLevelsSortsBitonic | src/xss-network-qsort.hpp:9-21 | the half-cleaner levels sort a bitonic block |
| Levels.MergeLevelsSortedHalves | src/xss-network-qsort.hpp:26-53 | the merge levels sort a block whose halves are sorted |
| RegNetworks.SortReg4LanesSorts | src/xss-reg-networks.hpp:29-43 | sort_reg_4lanes returns its lanes ascending with the same multiset |
| RegNetworks.SortReg8LanesSorts | src/xss-reg-networks.hpp:49-68 | sort_reg_8lanes returns its lanes ascending with the same multiset |
| RegNetworks.SortReg16LanesSorts | src/xss-reg-networks.hpp:74-105 | sort_reg_16lanes returns its lanes ascending with the same multiset |
| RegNetworks.SortReg32LanesSorts | src/xss-reg-networks.hpp:111-163 | sort_reg_32lanes returns its lanes ascending with the same multiset |
| RegNetworks.SortReg8LanesLevels | src/xss-reg-networks.hpp:49-68 | the chain of cmp_merge and swizzles is the bitonic sorter on 8 lanes |
| RegNetworks.BitonicMergeReg8LanesSorts | src/xss-reg-networks.hpp:366-398 | the key chain of bitonic_merge_reg_8lanes sorts any bitonic register and only rearranges it |
| NetworkSort.CleanLevel | src/xss-network-qsort.hpp:12-19 | one pass of the middle loop of bitonic_clean_n_vec is one register half-cleaner level; nothing outside the block changes |
| NetworkSort.BitonicCleanNVec | src/xss-network-qsort.hpp:9-21 | bitonic_clean_n_vec is the half-cleaner levels on the registers' lanes: a bitonic block comes out sorted |
| NetworkSort.FlipHalves | src/xss-network-qsort.hpp:36-42 | the reversing loop of bitonic_merge_n_vec is the flip stage on the lanes |
| NetworkSort.FlipTwo | src/xss-network-qsort.hpp:29-32 | for two registers: reverse the second, then COEX |
| NetworkSort.MergeEachVec | src/xss-network-qsort.hpp:50-52 | bitonic_merge on every register is the three lowest half-cleaner levels |
| NetworkSort.BitonicMergeNVec | src/xss-network-qsort.hpp:26-53 | a block of registers whose halves are ascending ends ascending and permuted |
| NetworkSort.MergeGroups | src/xss-network-qsort.hpp:64-68 | the loop merges every group of g registers and nothing else |
| NetworkSort.BitonicFullmergeNVec | src/xss-network-qsort.hpp:59-70 | merging groups of 2, 4, ..., numVecs registers turns ascending registers into one ascending run; the loop stops once the group exceeds numVecs |
| NetworkSort.LoadMaskLanes | src/xss-network-qsort.hpp:89-94 | the mask ((1 << w) - 1) & 0xFF enables exactly the lanes below w |
| NetworkSort.MaskedLanes | src/xss-network-qsort.hpp:89-94 | the load mask of register i enables min(max(0, N - 8i), 8) lanes |
| NetworkSort.LoadVecs | src/xss-network-qsort.hpp:83-97 | the loaded registers are the input followed by type_max padding |
| NetworkSort.SortEachVec | src/xss-network-qsort.hpp:100-103 | sort_vec on each register |
| NetworkSort.StoreVecs | src/xss-network-qsort.hpp:108-122 | the stores write exactly the first N lanes and no slot at or beyond N |
| NetworkSort.NetworkResult | src/xss-network-qsort.hpp:95-96 | padding with type_max sorts after every real element, so the first N lanes are the input sorted |
| NetworkSort.SortNVec | src/xss-network-qsort.hpp:72-123 | sort_n_vec sorts the N elements ascending and permuted, halving numVecs while 2N <= numVecs * 8, and changes nothing else |
| NetworkSort.SortN | src/xss-network-qsort.hpp:125-129 | sort_n<256> sorts arr[lo..lo + N) for N <= 256 and changes nothing else |
| OptimalNetworks.OptimalSort4 | src/xss-optimal-networks.hpp:7-16 | optimal_sort_4 is its COEX steps block by block on registers 0..3 |
| OptimalNetworks.Optimal4Sorts | src/xss-optimal-networks.hpp:7-16 | optimal_sort_4 sorts every lane column in the comparator's order |
| OptimalNetworks.OptimalSort8 | src/xss-optimal-networks.hpp:21-47 | optimal_sort_8 is its COEX steps block by block on registers 0..7 |
| OptimalNetworks.Optimal8Sorts | src/xss-optimal-networks.hpp:21-47 | optimal_sort_8 sorts every lane column in the comparator's order |
| OptimalNetworks.OptimalSort16 | src/xss-optimal-networks.hpp:52-123 | optimal_sort_16 is its COEX steps on registers 0..15 |
| OptimalNetworks.OptimalSort32 | src/xss-optimal-networks.hpp:128-328 | optimal_sort_32 is its COEX steps on registers 0..31 |
| OptimalNetworks.RunNetworkPermutesColumns | src/xss-optimal-networks.hpp:9-15 | every network step is a COEX, so every lane column ends as a permutation of itself |
| OptimalNetworks.RunScalarNetworkNegate | src/xss-common-comparators.hpp:60-66 | a descending run is the ascending run on negated values, negated back |
| Partition.CompressStore | src/xss-common-qsort.h:193-196 | mask_compressstoreu writes the selected lanes in lane order and nothing else |
| Partition.PartitionVec | src/xss-common-qsort.h:182-201 | returns the number of lanes at least the pivot; the others go in order to l_store, those to the last slots before r_store + 8; min/max absorb the register |
| Partition.StoredParts | src/xss-common-qsort.h:182-201 | the two stores partition the register around the pivot |
| Partition.StoreRegister | src/xss-common-qsort.h:320-330 | one partition_vec call of the vector phase keeps the partition state and leaves the unread range alone |
| Partition.VecStep | src/xss-common-qsort.h:305-331 | one loop iteration loads from the side with less free space and keeps the invariant |
| Partition.StoreHeld | src/xss-common-qsort.h:333-354 | vec_left and vec_right partitioned last complete the partition |
| Partition.PartitionOne | src/xss-common-qsort.h:277-293 | a range of exactly one register is one partition_vec call |
| Partition.PartitionVectors | src/xss-common-qsort.h:271-354 | the vector phase partitions a range of whole registers |
| Partition.PrologueStep | src/xss-common-qsort.h:258-266 | one scalar step: arr[left] folds into smallest/biggest and either stays or is swapped with arr[--right] |
| Partition.PartitionAvx512 | src/xss-common-qsort.h:249-355 | returns p in [left, right]; arr[left..right) is permuted, below the pivot before p and at least it from p on, nothing outside changes; smallest/biggest bound every element |
| Pivot.GetPivot | src/xss-pivot-selection.hpp:26-41 | the pivot is lane 4 of the sorted samples, an element of arr[left..right] |
| Pivot.Sort5Sorts | src/xss-pivot-selection.hpp:64-79 | the nine-COEX network sorts five inputs, so its middle output is their median |
| Pivot.Network5Median | src/xss-pivot-selection.hpp:64-79 | the five-register network leaves the lane-wise medians in vecs[2] |
| Pivot.GetPivotBlocks | src/xss-pivot-selection.hpp:43-85 | get_pivot for ranges of at most 1024 + 1 elements, else a median of lane-wise medians; always an element of the range |
| Pivot.TwoValuesPartition | src/xss-pivot-selection.hpp:219-228 | with exactly two values the pivot is the comparator-larger one |
| Pivot.Median3Between | src/xss-pivot-selection.hpp:230-237 | the median of three distinct values lies strictly between the other two |
| Pivot.GetPivotNearConstant | src/xss-pivot-selection.hpp:162-238 | Sorted iff every element equals commonValue; Only2Values with the larger value iff exactly two values occur; otherwise the median of three distinct values |
| Pivot.GetPivotSmart | src/xss-pivot-selection.hpp:94-158 | get_pivot for small ranges; a sample median that differs from both extreme samples is returned unchanged; constant samples defer to get_pivot_near_constant |
| CommonQsort.Log2Floor | src/xss-common-qsort.h:604 | the floor of log2 n: 2^r <= n < 2^(r+1) |
| CommonQsort.QsortJoin | src/xss-common-qsort.h:544-554 | after the two recursive calls the whole range is sorted and permuted |
| CommonQsort.Qsort | src/xss-common-qsort.h:525-555 | qsort_ leaves arr[left..right] a sorted permutation and nothing outside it changes |
| CommonQsort.SelectedRank | src/xss-common-qsort.h:557-592 | a selected position holds the element a full sort would put there |
| CommonQsort.Qselect | src/xss-common-qsort.h:557-592 | qselect_ puts the rank element at pos, nothing larger before it and nothing smaller after, and changes nothing outside the range |
| CommonQsort.NanScanStart | src/xss-common-qsort.h:134-137 | as written: the scan starts at ii = 0 and jj = size - 1 in arrsize_t arithmetic, which is 2^64 - 1 for size == 0 |
| CommonQsort.NanScanZeroOverruns | src/xss-common-qsort.h:134-148 | as written, for size == 0 the loop test ii < jj holds, so the first step reads arr[0], outside the array |
| CommonQsort.MoveNansToEnd | src/xss-common-qsort.h:131-150 | with an empty array left unscanned: permutes the array, puts every NaN after the returned index size - count - 1 and none before |
| CommonQsort.ReplaceInfWithNan | src/xss-common-qsort.h:112-125 | writes the NaN value into the last nan_count slots only |
| CommonQsort.Avx512Qsort | src/xss-common-qsort.h:595-612 | avx512_qsort sorts the array ascending and permutes it |
| CommonQsort.Avx512Qselect | src/xss-common-qsort.h:636-652 | the rank-k element lands at k among the non-NaN elements; nothing happens when k is past the last non-NaN index, nor for an empty array with or without hasnan |
| CommonQsort.PartialQsortCalls | src/xss-common-qsort.h:676-684 | as written: the k and the size passed on are k - 1 in arrsize_t arithmetic |
| CommonQsort.PartialQsortZeroOverruns | src/xss-common-qsort.h:676-684 | as written, k == 0 hands 2^64 - 1 to avx512_qsort |
| CommonQsort.Avx512PartialQsort | src/xss-common-qsort.h:676-684 | with the k == 0 guard: the first k slots are the first k of the sorted arrangement and the array is permuted |
| CommonQsort.PartialDone | src/xss-common-qsort.h:680-683 | selecting rank k - 1 and then sorting the slots before it gives the k smallest, sorted |
| Fp16.LessIsKeyOrder | src/avx512-16bit-qsort.hpp:506-533 | comparison_func<float16> is the order of an independent key: a strict total order on all patterns |
| Fp16.LessIrreflexive | src/avx512-16bit-qsort.hpp:506-533 | cmp(a, a) is false |
| Fp16.LessStrictTotal | src/avx512-16bit-qsort.hpp:506-533 | the comparison is transitive, asymmetric and total on distinct patterns |
| Fp16.OppositeSigns | src/avx512-16bit-qsort.hpp:513-516 | with opposite signs the negative pattern is the smaller |
| Fp16.BothNegative | src/avx512-16bit-qsort.hpp:517-522 | both negative: larger exponent, then larger mantissa, is smaller |
| Fp16.BothPositive | src/avx512-16bit-qsort.hpp:523-529 | both positive: lexicographic on (exponent, mantissa) |
| Fp16.NanAboveInfinity | src/avx512-16bit-qsort.hpp:557-561 | is_a_nan holds iff the exponent bits are all ones and the mantissa is nonzero, i.e. the magnitude lies above infinity's |
| Fp16.PaddingBounds | src/avx512-16bit-qsort.hpp:37-44 | type_max 0x7c00 and type_min 0xfc00 bound every non-NaN pattern |
| Avx2Emu.BuildMaskLut | src/avx2-emu-funcs.hpp:7-50 | lane j of entry i is all-ones iff bit j of i is set |
| Avx2Emu.MaskRowRoundTrip | src/avx2-emu-funcs.hpp:147-157 | converting a mask value to a register and back gives the value |
| Avx2Emu.MoveMaskRoundTrip | src/avx2-emu-funcs.hpp:147-157 | converting a valid mask register to a value and back gives the register |
| Avx2Emu.BuildCompressLut | src/avx2-emu-funcs.hpp:52-107 | the permutation and left tables are PermRow and LeftRow for every mask value; lane j of the left row of i is all-ones iff j < w - popcount(i) |
| Avx2Emu.PermRowOrder | src/avx2-emu-funcs.hpp:60-72 | a row lists the clear-bit lanes first in increasing order, then the set-bit lanes in decreasing order |
| Avx2Emu.PermRowIsPermutation | src/avx2-emu-funcs.hpp:52-77 | each row is a permutation of 0..w - 1 |
| Avx2Emu.BuildCompressLut64 | src/avx2-emu-funcs.hpp:114-140 | the 64-bit table expands lane j to the 32-bit indices 2j and 2j + 1 |
| Avx2Emu.ExpandPermute | src/avx2-emu-funcs.hpp:114-140 | permuting 32-bit halves by an expanded row moves whole 64-bit lanes |
| Avx2Emu.PermRowCompress | src/avx2-emu-funcs.hpp:329-349 | permuting by a row puts the unselected lanes first in order and the selected lanes last in reverse |
| Avx2Emu.DoubleCompressstore32 | src/avx2-emu-funcs.hpp:329-373 | stores the permuted register whole at both addresses and returns popcount(mask) |
| Avx2Emu.DoubleCompressstore64 | src/avx2-emu-funcs.hpp:376-397 | the same for 64-bit lanes through the expanded table, returning popcount(mask) |
| Avx2Emu.DoubleCompressstoreSplit | src/avx2-emu-funcs.hpp:329-397 | the left store begins with the unselected lanes and the right store ends with the selected ones |
| RegNetworks.BitonicMergeReg4LanesSorts | src/xss-reg-networks.hpp:335-359 | the key chain of bitonic_merge_reg_4lanes sorts any bitonic 4-lane register and only rearranges it |
| Scalar.ApplyPermutationInPlace | lib/x86simdsort-scalar.h:12-25 | for a permutation arg, position i ends with the element that was at arg[i]; arg is taken by value, so the caller's copy is not changed |
| Scalar.GetCmpFunc | lib/x86simdsort-scalar.h:27-43 | the comparator is greater exactly when reversed and NaN-aware exactly when hasnan |
| Scalar.CompareStrict | lib/x86simdsort-scalar.h:27-43 | either comparator is irreflexive and asymmetric |
| Scalar.Iota | lib/x86simdsort-scalar.h:77-78 | std::iota gives every index its own position, a permutation of 0..n-1 |
| Scalar.Argsort | lib/x86simdsort-scalar.h:73-89 | returns a permutation of 0..n-1 that reads arr non-decreasing, or non-increasing when reversed |
| Scalar.ArgOrderedPermuted | lib/x86simdsort-scalar.h:73-89 | an index sequence ordered by arr reads arr into an ordered sequence |
| Scalar.KeyvalueQsort | lib/x86simdsort-scalar.h:103-109 | one permutation is applied to keys and values: the keys end ordered and each value stays with its key |
| Scalar.KeyvalueResult | lib/x86simdsort-scalar.h:103-109 | applying one permutation to keys and values rearranges the (key, value) pairs and nothing else |
| Scalar.KeyvalueSelect | lib/x86simdsort-scalar.h:111-121 | k is ignored and the whole key-value array is sorted |
| Scalar.KeyvaluePartialSort | lib/x86simdsort-scalar.h:123-133 | k is ignored and the whole key-value array is sorted |
| KeyedPartition.CompressStore | src/xss-common-keyvaluesort.hpp:42-47 | a compress-store of elements writes the selected lanes in lane order and nothing else |
| KeyedPartition.PartitionVec | src/xss-common-keyvaluesort.hpp:29-52 | the ge mask of the key register sends its elements with keys below the pivot to l_store and the others to the last slots before right; returns their count; min/max absorb the keys |
| KeyedPartition.StoredParts | src/xss-common-keyvaluesort.hpp:40-47 | the two stores of one register hold all its elements, keys below the pivot on one side and at least it on the other, inside the running bounds |
| KeyedPartition.StoreRegister | src/xss-common-keyvaluesort.hpp:147-158 | one partition_vec call of the vector loop keeps the partition state and does not write the unread range |
| KeyedPartition.VecStep | src/xss-common-keyvaluesort.hpp:126-159 | one loop iteration reads from the side with less free space and keeps the loop invariant |
| KeyedPartition.StoreHeld | src/xss-common-keyvaluesort.hpp:161-185 | partitioning the held-back first and last registers completes the partition |
| KeyedPartition.PartitionOne | src/xss-common-keyvaluesort.hpp:92-110 | a range of exactly one register is one partition_vec call |
| KeyedPartition.PartitionVectors | src/xss-common-keyvaluesort.hpp:88-185 | the vector phase partitions a range of whole registers and bounds every key by smallest/biggest |
| KeyedPartition.PrologueStep | src/xss-common-keyvaluesort.hpp:72-83 | one scalar step folds the key of arr[left] into smallest/biggest; an element that goes right is swapped with arr[--right] |
| KeyedPartition.Partition | src/xss-common-keyvaluesort.hpp:63-186 | kvpartition and argpartition (src/xss-common-argsort.h:175-288): a permutation of [left, right) with keys before p below the pivot (or equal to it for kvpartition), keys from p on at least the pivot, nothing outside changed, smallest/biggest the extremes of the keys |
| KvNetworks.KvCoex | src/xss-network-keyvaluesort.hpp:45-60 | lane by lane key1 gets the pair with the smaller key (its own on a tie) and key2 the other pair: each index travels with its key |
| KvNetworks.KvCmpMergeAt | src/xss-network-keyvaluesort.hpp:67-79 | a lane takes the larger key where the mask is set and the smaller elsewhere, and its index from the register that key came from |
| KvNetworks.LoHiMultiset | src/xss-network-keyvaluesort.hpp:45-60 | a key-value COEX keeps the multiset of (key, value) pairs |
| KvNetworks.SwapTwo | src/xss-reg-networks.hpp:204-250 | swap_n<2> and reverse_n<2> agree, so the key-index sort_reg_8lanes of xss-reg-networks.hpp and that of xss-network-keyvaluesort.hpp are one network |
| KvNetworks.KvSortReg8LanesSorts | src/xss-network-keyvaluesort.hpp:206-251 | the key-value sort_reg_8lanes moves the keys as the integer sort_reg_8lanes, so they end sorted, and keeps every (key, index) pair |
| KvNetworks.KvBitonicMergeReg8LanesKeys | src/xss-network-keyvaluesort.hpp:290-322 | the key-value bitonic_merge_reg_8lanes moves the keys as the integer merge and keeps every pair |
| KvNetworks.KvHalfLanesKeeps | src/xss-network-keyvaluesort.hpp:67-79 | cmp_merge with swap_n<B> on a key-value register is the integer half-cleaner level on the keys and keeps the pairs |
| KvNetworks.KvFlipLanesKeeps | src/xss-network-keyvaluesort.hpp:67-79 | cmp_merge with reverse_n<B> on a key-value register is the integer flip level on the keys and keeps the pairs |
| KvNetworks.KvCleanNVecKeys | src/xss-network-keyvaluesort.hpp:400-418 | bitonic_clean_n_vec moves the keys as the integer half-cleaner levels |
| KvNetworks.KvCleanNVecMultiset | src/xss-network-keyvaluesort.hpp:400-418 | bitonic_clean_n_vec keeps the multiset of (key, value) pairs |
| KvNetworks.KvMergeNVecKeys | src/xss-network-keyvaluesort.hpp:421-459 | bitonic_merge_n_vec moves the keys as the recursive bitonic merger |
| KvNetworks.KvMergeNVecMultiset | src/xss-network-keyvaluesort.hpp:421-459 | bitonic_merge_n_vec keeps the multiset of pairs |
| KvNetworks.KvFullmergeSorts | src/xss-network-keyvaluesort.hpp:462-480 | from groups of ascending registers, bitonic_fullmerge_n_vec leaves all keys ascending and only moves pairs |
| KvNetworks.KvNetSorts | src/xss-network-keyvaluesort.hpp:603-609 | sort_vec_dispatch on every register and the full merger sort the keys of numVecs = 2^m registers and keep the pairs |
| KvNetworks.PHalfStagePad | src/xss-network-keyvaluesort.hpp:67-79 | a half-cleaner stage on pairs keeps the padding pair in every lane from n on and no key above the padding key: on a tie each lane keeps its own pair, and a larger key only moves to the upper lane |
| KvNetworks.PFlipStagePad | src/xss-network-keyvaluesort.hpp:67-79 | the flip stage keeps the padding pair in every lane from n on in the same way |
| KvNetworks.KvNetPad | src/xss-network-keyvaluesort.hpp:45-79 | the whole network (COEX in the register sorts, cmp_merge in the mergers) never moves a padding pair below lane n nor a real pair to lane n or above |
| KvSortN.KvResult | src/xss-network-keyvaluesort.hpp:585-609 | with (type_max, zmm_max) padding, a rearrangement of the padded pairs with ascending keys that keeps the padding pair in every lane from N on holds exactly the input pairs in its first N lanes, their keys sorted |
| KvSortN.NetworkPairs | src/xss-network-keyvaluesort.hpp:585-609 | the register stage of kvsort_n_vec: a rearrangement of the padded pairs whose first N lanes are the input pairs, keys sorted |
| KvSortN.PaddedPad | src/xss-network-keyvaluesort.hpp:590-600 | the masked loads put (type_max, zmm_max) in every lane from N on, and no input key exceeds type_max |
| KvSortN.StorePairs | src/xss-network-keyvaluesort.hpp:611-625 | the stores write exactly the N input slots of keys and values |
| KvSortN.StoreIndexes | src/xss-network-keyvaluesort.hpp:541-553 | argsort_n_vec stores back only the index registers, exactly the N input slots |
| KvSortN.KvStored | src/xss-network-keyvaluesort.hpp:611-625 | storing the first N network pairs leaves the input pairs rearranged with their keys sorted |
| KvSortN.ArgStored | src/xss-network-keyvaluesort.hpp:541-553 | the stored indexes are the input indexes rearranged so that the keys they point at ascend |
| KvSortN.KvsortNVec | src/xss-network-keyvaluesort.hpp:557-626 | kvsort_n_vec halves numVecs while 2N <= numVecs * 8, leaves the N pairs rearranged with their keys sorted (each value with its key) and never writes a slot at or past N |
| KvSortN.ArgsortNVec | src/xss-network-keyvaluesort.hpp:483-554 | argsort_n_vec leaves the N input indexes rearranged so that the gathered keys ascend, and writes nothing else |
| KvSortN.KvsortN | src/xss-network-keyvaluesort.hpp:645-659 | kvsort_n<maxN> with maxN = 8 * 2^m is kvsort_n_vec on maxN / 8 registers |
| KvSortN.ArgsortN | src/xss-network-keyvaluesort.hpp:629-642 | argsort_n<maxN> with maxN = 8 * 2^m is argsort_n_vec on maxN / 8 registers, with its promise |
| KeyedSort.SortJoin | src/xss-common-keyvaluesort.hpp:446-453 | a partition followed by sorting both parts leaves the range a rearrangement of its elements with ascending keys |
| KeyedSort.LowPartConstant | src/xss-common-keyvaluesort.hpp:446 | when the pivot is the smallest key, every key left of the partition point equals it, so the left call can be skipped |
| KeyedSort.HighPartConstant | src/xss-common-keyvaluesort.hpp:450 | when the pivot is the largest key, every key from the partition point on equals it, so the right call can be skipped |
| KeyedSort.ConstantSorted | src/xss-common-keyvaluesort.hpp:446-453 | a range of equal keys is already sorted |
| KeyedSort.SortedSelects | src/xss-common-keyvaluesort.hpp:471-484 | a sorted range has every position selected |
| KeyedSort.SelectLower | src/xss-common-keyvaluesort.hpp:492-495 | selecting pos in the left part of a partition selects it in the whole range |
| KeyedSort.SelectUpper | src/xss-common-keyvaluesort.hpp:496-499 | selecting pos in the right part of a partition selects it in the whole range |
| KeyedSort.SelectNoCall | src/xss-common-keyvaluesort.hpp:492-499 | when pos lies in a part of keys all equal to the pivot, the partition already selects it |
| KeyedSort.ReverseRange | src/xss-common-keyvaluesort.hpp:571-574 | std::reverse leaves the range reversed and nothing else changed |
| KeyedSort.ReversedMultiset | src/xss-common-keyvaluesort.hpp:571-574 | reversing keeps the elements |
| KeyedSort.ReversedOrdered | src/xss-common-keyvaluesort.hpp:571-574 | an ascending range reversed is in the descending comparator's order |
| KeyedSort.ReversedSelected | src/xss-common-keyvaluesort.hpp:611 | position arrsize - 1 - k selected ascending becomes position k selected descending after the reversal |
| KeyedHeap.RootMax | src/xss-common-keyvaluesort.hpp:332-346 | in a max-heap no key exceeds the root's |
| KeyedHeap.HeapLeaves | src/xss-common-keyvaluesort.hpp:355 | the second half of the slots are leaves, so heap building starts at size / 2 - 1 |
| KeyedHeap.Heapify | src/xss-common-keyvaluesort.hpp:332-346 | sifting down the element at idx restores the heap order from idx on, swapping whole elements (a key with its index) and changing nothing else |
| KeyedHeap.BuildHeap | src/xss-common-keyvaluesort.hpp:355-358 | heapify from size / 2 - 1 down to 0 makes the range a max-heap |
| KeyedHeap.SwapRoot | src/xss-common-keyvaluesort.hpp:359-363 | swapping the root behind the shrinking heap puts the largest remaining key in front of the sorted suffix |
| KeyedHeap.SortStep | src/xss-common-keyvaluesort.hpp:359-363 | one iteration of the extraction loop grows the sorted suffix by one and keeps a heap in front of it |
| KeyedHeap.SortHeap | src/xss-common-keyvaluesort.hpp:359-363 | the extraction loop turns a max-heap into an ascending range |
| KeyedHeap.HeapSort | src/xss-common-keyvaluesort.hpp:351-364 | heap_sort sorts the keys ascending, keeps every element (key with its index), changes nothing outside and does nothing for size <= 1 |
| KeyValueSort.PivotPartition | src/xss-common-keyvaluesort.hpp:395-399 | get_pivot_blocks and kvpartition: keys left of p at most the pivot, from p on at least it, smallest/biggest the extremes, int64 keys on both sides |
| KeyValueSort.KvNetwork | src/xss-common-keyvaluesort.hpp:388-393 | kvsort_n<128> leaves a range of at most 128 pairs rearranged with its keys sorted |
| KeyValueSort.Kvsort | src/xss-common-keyvaluesort.hpp:370-455 | kvsort_ leaves keys[left..right] and its values a rearrangement of the old pairs (each value with its key) in ascending key order, and changes nothing outside |
| KeyValueSort.Kvselect | src/xss-common-keyvaluesort.hpp:461-500 | kvselect_ rearranges the pairs so that no key before pos is larger and none after it smaller, and changes nothing outside |
| KeyValueSort.SortFinished | src/xss-common-keyvaluesort.hpp:571-574 | the ascending result, reversed when descending, is in the order of the direction |
| KeyValueSort.SelectFinished | src/xss-common-keyvaluesort.hpp:611-632 | selecting arrsize - 1 - k and reversing selects k in descending order |
| KeyValueSort.XssQsortKv | src/xss-common-keyvaluesort.hpp:508-576 | the first arrsize pairs end up rearranged with their keys in the direction's order (both arrays are reversed when descending) |
| KeyValueSort.XssSelectKv | src/xss-common-keyvaluesort.hpp:584-634 | the pairs are rearranged with the key at position k in its place for the direction, k mapped to arrsize - 1 - k when descending |
| KeyValueSort.PartialFinished | src/xss-common-keyvaluesort.hpp:649-653 | selecting k - 1 and then sorting the k - 1 pairs before it leaves the first k in order with none of the rest belonging before them |
| KeyValueSort.XssPartialSortKv | src/xss-common-keyvaluesort.hpp:642-654 | does nothing for k == 0; otherwise the pairs are rearranged with the first k keys in order and none of the rest belonging before them |
| KvSortN.GatherKeys | src/xss-common-argsort.h:55-63 | comparing indexes by the element they point at is comparing the gathered keys |
| ArgSort.ArgSamples | src/xss-common-argsort.h:433-442 | the eight samples of get_pivot_64bit are each an element some index of the range points at |
| ArgSort.GetPivot64bit | src/xss-common-argsort.h:425-450 | lane 4 of the sorted register of the eight samples at left + j * ((right - left) / 8), or arr[arg[right]] for fewer than 9 indexes; always an element some index of the range points at |
| ArgSort.StdArgsort | src/xss-common-argsort.h:55-63 | std_argsort rearranges the indexes of [left, right) so the elements they point at ascend |
| ArgSort.ArgNetwork | src/xss-common-argsort.h:488-492 | after argsort_n<256> the at most 256 indexes are the old ones rearranged so that the elements they point at ascend |
| ArgSort.IndexPartsIn | src/xss-common-argsort.h:175-288 | argpartition only rearranges indexes, so both parts still point into arr |
| ArgSort.ArgPivotPartition | src/xss-common-argsort.h:493-497 | get_pivot_64bit and argpartition: elements pointed at left of p below the pivot, from p on at least it, smallest/biggest their extremes |
| ArgSort.Argsort | src/xss-common-argsort.h:471-549 | argsort_ leaves arg[left..right] the old indexes rearranged so that the elements they point at ascend, writes no other index and never arr |
| ArgSort.ArgsortParts | src/xss-common-argsort.h:493-548 | the recursive case of argsort_, with the same promise |
| ArgSort.Argselect | src/xss-common-argsort.h:552-585 | argselect_ rearranges the indexes so that at pos is one whose element no earlier element exceeds and no later one undercuts |
| ArgSort.ArgselectParts | src/xss-common-argsort.h:574-584 | the recursive case of argselect_, with the same promise |
| ArgSort.IsSortedByOrdered | src/xss-common-argsort.h:621-625 | std::is_sorted's neighbour check with the direction's comparator holds iff all pairs are in that order |
| ArgSort.ArgSortFinished | src/xss-common-argsort.h:656-662 | the ascending index order, reversed when descending, reads arr in the direction's order |
| ArgSort.ArgSelectFinished | src/xss-common-argsort.h:723-724 | argselect_ over the whole array puts index k in its place |
| ArgSort.IotaOrders | src/xss-common-argsort.h:621-625 | the early exit is correct for the std::iota start: the identity reads an already ordered arr in order |
| ArgSort.XssArgsort | src/xss-common-argsort.h:593-669 | arg untouched for arrsize <= 1 or an already ordered arr; otherwise arg is rearranged to read arr in the direction's order; ordered in every case when arg starts as std::iota |
| ArgSort.XssArgselect | src/xss-common-argsort.h:699-731 | arg untouched for arrsize <= 1; otherwise arg is rearranged so that the element it reads at position k is in its place |
| ArgSort.ArgsortIndices | src/x86simdsort-static-incl.h:99-107 | the vector from std::iota, argsorted: a permutation of 0..size-1 that reads arr in the direction's order |
| ArgSort.ArgselectIndices | src/x86simdsort-static-incl.h:115-122 | the vector from std::iota, argselected: a permutation of 0..size-1 that reads arr with position k in its place |
| RunBench.ResolveIsFirstMatch | run-bench.py:22-36 | the if-chain is the first match over qsort, select, partial, argsort, keyvalue; each pattern is prefix + ".*" + filter |
| RunBench.UnknownCategory | run-bench.py:22-39 | a category is unknown iff it contains none of the keywords |
| RunBench.ArgselectIsSelect | run-bench.py:22-27 | "argselect" resolves to the select patterns |
| RunBench.NoArguments | run-bench.py:12-13 | no argument gives a usage error |
| RunBench.UnknownStopsEverything | run-bench.py:37-39 | an unknown category stops with an error before any script runs |
| RunBench.RunCalls | run-bench.py:7-47 | a known category gives one bench-compare call; --branchcompare adds one call with the branch (default "main"), and the filter only when given; an absent filter is the empty suffix |

## Left out

- Floating-point keys: NaN and infinity handling other than move_nans_to_end_of_array and replace_inf_with_nan (replace_nan_with_inf, the float comparators, the std_*_withnan fallbacks). The element model is int64.
- The vector wrapper structs (zmm_vector, ymm_vector, avx2_vector): their intrinsics are the lane functions of `Simd`; the register is fixed to 8 int64 lanes.
- partition_avx512_unrolled: a performance variant of partition_avx512 with the same contract; qsort_ is modelled calling partition_avx512.
- OptimalNetworks.OptimalSort16, OptimalNetworks.OptimalSort32: only the permutation of every lane column is proved, not sortedness, because sortedness needs a 0-1 argument over 2^16 and 2^32 inputs; their only caller, sort_vectors, is not part of this model.
- avx2_emu_mask_compressstoreu32/64 and the avx2 reductions: single intrinsic sequences with no logic of their own.
- avx512_double_compressstore is not part of this model: the AVX-512 partition step is modelled with the two mask_compressstoreu calls of partition_vec_avx512.
- Pivot.GetPivotSmart: sort_vectors is not part of this model; the 32 samples are taken sorted.
- std::sort: modelled by its result, the ascending arrangement; the order of equal elements is not observable for integers.
- The key-value and argsort paths of kvpartition_unrolled and argpartition_unrolled: performance variants of kvpartition and argpartition with the same contract; kvsort_, kvselect_, argsort_ and argselect_ are modelled calling the plain partitions.
- The separate keys and values arrays of the key-value sort: one array of (key, value) pairs stands for both, so the two arrays moving in lockstep is built in rather than proved.
- KeyValueSort.XssQsortKv: the NaN paths of the entry points (floating-point keys) are not modelled.
- ArgSort.StdArgsort: heap_sort, the fallback kvsort_ uses, stands in for std::sort; only what std::sort promises, an ascending rearrangement of the indexes, is stated.
- KvSortN.KeyOf reads an index outside the data array as type_max, the key the padding index zmm_max travels with; the argsorts are only given indexes that point into the array.
- The recursion budgets: (int)(2 * log2(arrsize)) is modelled as the floor of log2(arrsize * arrsize) and 2 * (arrsize_t)log2(arrsize) as twice the floor of log2(arrsize); floating-point rounding of log2 is not modelled.
- get_pivot_blocks in kvsort_ and kvselect_ reads the keys array; the model copies the key part of the pairs into a fresh array for it.
- get_pivot_64bit's 4-lane branch (32-bit vector types): only the 8-lane int64 register is modelled.
- Scalar qsort, qselect, partial_qsort and argselect: single calls into std::sort, std::nth_element and std::partial_sort with the get_cmp_func comparator.
- resize_mask: the identity for the 64-bit key and index types modelled; the mask is shared by the key and value lanes of a pair.
- The permutexvar network constants of the key-value networks: modelled as the reverse_n / swap_n swizzles they implement.
- XSS_TEST_KEYVALUE_BASE_CASE: a test-only switch.
- OpenMP task paths: concurrency.
- run-bench.py's subprocess calls: an outcome names the script and its arguments instead.

## Findings

| source | as written | input that shows it | evidently intended | confidence | as-written member | corrected member |
|---|---|---|---|---|---|---|
| src/xss-common-qsort.h:676-684 | avx512_partial_qsort computes k - 1 in arrsize_t and calls avx512_qselect(arr, k - 1, ...) and avx512_qsort(arr, k - 1) without a guard | k == 0 with arrsize >= 2: the size 2^64 - 1 passed to avx512_qsort makes it sort far beyond the array | return for k == 0, as xss_partial_sort_kv does | not executed | CommonQsort.PartialQsortZeroOverruns | CommonQsort.Avx512PartialQsort |
| src/xss-common-qsort.h:134-148 | move_nans_to_end_of_array sets jj = size - 1 in arrsize_t and loops while ii < jj; avx512_qselect calls it whenever hasnan is set, and lib/x86simdsort-skx.cpp passes arrsize on unchecked | size == 0 (avx512_qselect with arrsize 0 and hasnan): jj is 2^64 - 1, so the loop reads arr[0], and may swap it with arr[2^64 - 1], outside the array | no scan for an empty array, so avx512_qselect returns without touching it | not executed | CommonQsort.NanScanZeroOverruns | CommonQsort.MoveNansToEnd |
