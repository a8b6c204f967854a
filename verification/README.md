# Order statistics and mode of the `statistical` crate, in Dafny

This project models the parts of the Rust `statistical` crate that have
algorithmic content beyond floating-point formulas:

- the randomized quicksort engine of `src/stats_.rs` (`select_pivot`,
  the "hole" variant of Lomuto `partition`, `quicksort`),
- `median`, which sorts a private working copy and reads its middle,
- `mode` of `src/univariate_.rs`, which counts occurrences in a frequency
  table and returns an entry of largest count.

Modelling choices:

- A mutable slice is a `seq<real>` that each operation takes and returns;
  the in-place writes of the source are sequence updates, statement for
  statement. Values are reals, so the order is total.
- `rand::random::<usize>()` is a caller-supplied stream of draws
  `rng: nat -> nat` read from position `k` on. The pivot index is the draw
  modulo the length, as in the source. Every contract holds for every stream
  of draws, for runs whose nested sort calls fit on the stack (see
  "## Left out").
- `partition` is split into `Stats.SelectPivot` followed by
  `Stats.PartitionAtFront` (the scan loop), composed by `Stats.Partition`.
- `Order.SortSpec` (insertion sort) is an independent reference sort. A
  sorted permutation is unique (`Order.SortedPermutationUnique`), so the
  quicksort result equals the reference. It therefore does not depend on the
  random draws.
- A median is characterised without sorting: at most half of the sample lies
  strictly below it and at most half strictly above it
  (`Order.CountBelow`, `Order.CountAbove`).
- `median`'s `assert!(v.len() > 0)` panic is modelled as the result `None`.
- `mode` drains a hash map in an arbitrary order. The model chooses the next
  key nondeterministically (`:|`). Ties keep the later entry, as
  `max_by_key` does. The contract fixes only maximality, not which tied value
  wins.

Files: `order.dfy` (order predicates, reference sort, rank counts),
`stats.dfy` (sort engine and median), `univariate.dfy` (mode),
`wrappers.dfy` (`Option`), `fixtures.dfy` (the crate's unit tests
`test_median`, `test_qsort_sorted`, `test_qsort_reverse_sorted`,
`test_mode`, `test_mode_of_colors` as lemmas).

## Model

| member | source | states |
|---|---|---|
| Stats.PivotIndex | src/stats_.rs:144 | the drawn index is the draw reduced modulo the length, always a valid index, and any in-range draw is taken as is |
| Stats.SelectPivot | src/stats_.rs:141-148 | slot 0 and the drawn slot exchange their values, every other slot is unchanged, and the multiset of the slice is preserved |
| Stats.PartitionAtFront | src/stats_.rs:154-169 | the hole loop returns an index holding the original front element, with everything before it strictly smaller, everything after it not smaller, and the multiset preserved despite the duplicate-then-overwrite writes |
| Stats.MoveIntoHole | src/stats_.rs:160-164 | one write-advance-copy step keeps the loop invariant: prefix before the hole below the pivot, scanned part after it not below, and the pivot in the hole restoring the original multiset |
| Stats.SkipLarger | src/stats_.rs:158-160 | an element not below the pivot extends the scanned region behind the hole without any write |
| Stats.FillHole | src/stats_.rs:167-168 | writing the pivot into the final hole leaves the slice partitioned around it and restores the original multiset |
| Stats.Partition | src/stats_.rs:150-170 | on any non-empty slice and any draw, the returned index is in range, holds the drawn pivot, has only smaller values before it and only not-smaller values after it, and the slice is a permutation of the input |
| Stats.JoinAroundPivot | src/stats_.rs:178-180 | sorting the two sides of a partitioned slice in place and keeping the pivot between them yields a sorted permutation of the slice |
| Stats.PartitionOfEqualValues | src/stats_.rs:158-170 | on a slice of equal values no element is below the pivot, so the partition returns index 0 and leaves the other values, all equal, to the right |
| Stats.CopiesOnOneSide | src/stats_.rs:158-170 | after a partition the copies of a value never straddle the pivot: a value below the pivot has all its copies on the left, any other value has at most one copy (the pivot) outside the right side |
| Stats.DepthStep | src/stats_.rs:172-181 | one partition plus the nesting depths of both recursive calls gives a depth that satisfies the same bounds for the whole slice, including covering the copies of every value |
| Stats.SortStep | src/stats_.rs:176-181 | one partition plus sorted results of both recursive calls gives a sorted permutation equal to the reference sort, equal to the input if it was sorted, and strictly increasing if it had no repeated value |
| Stats.Quicksort | src/stats_.rs:172-181 | for every stream of draws the result is non-decreasing, a permutation of the input, and equal to the reference sort; slices of length at most 1 are returned unchanged without consuming draws; an already sorted input is returned unchanged; an input without repeated values comes out strictly increasing; the recursion nests at most as many activations as the slice has elements (one for at most one element), exactly that many on a non-empty slice of equal values, and never fewer than the number of copies of the most frequent value, whatever the draws |
| Fixtures.TestInputsDistinct | src/stats_.rs:280-300 | the ascending and descending inputs of the sort tests hold no repeated value, so the sort's contract yields the strictly increasing order those tests assert |
| Order.SortedPermutationUnique | src/stats_.rs:172-181 | two sorted sequences with the same multiset are equal, so the sorted result does not depend on the pivots chosen |
| Order.SortedDistinctIsStrict | src/stats_.rs:264-266 | a sorted permutation of a sample without repeated values is strictly increasing |
| Stats.MiddleOf | src/stats_.rs:68-73 | the value read from a sorted copy lies between its least and greatest elements |
| Stats.MiddleIsMedian | src/stats_.rs:68-73 | the middle of a sorted sequence (element at len/2 for odd length, mean of the elements at len/2-1 and len/2 for even length) has at most half the values strictly below and at most half strictly above |
| Order.RankCountsPermutation | src/stats_.rs:64-66 | the numbers of values below and above a point depend only on the multiset, so the reordered working copy answers for the caller's sample |
| Stats.MiddleOfSortedCopy | src/stats_.rs:64-73 | the middle of any sorted copy satisfies the whole median contract for the original sample: it is the middle of every sorted permutation, a rank median, between two sample values, and a sample value for odd length |
| Stats.Median | src/stats_.rs:60-74 | the empty sample gives no result and every other sample gives one; whatever the draws, the result is the middle of every sorted permutation of the sample, is a median of the sample (at most half the values strictly below, at most half strictly above), lies between two sample values, and for odd length is a sample value (the predicate `Stats.IsMedian`) |
| Stats.MedianIsReference | src/stats_.rs:60-74 | any value satisfying the median contract of a sample is the middle of the reference sort, so the median equals the reference median |
| Fixtures.MedianOfTwoExample | src/stats_.rs:200-201 | every sorted arrangement of 1 and 3 has middle 2, so Stats.Median returns 2 |
| Fixtures.MedianOfThreeExample | src/stats_.rs:202-203 | every sorted arrangement of 1, 3, 5 has middle 3, so Stats.Median returns 3 |
| Fixtures.MedianOfFourExample | src/stats_.rs:204-205 | every sorted arrangement of 1, 3, 5, 7 has middle 4, so Stats.Median returns 4 in any input order |
| Univariate.Frequencies | src/univariate_.rs:59-64 | after the counting loop the table's keys are exactly the distinct sample values and each maps to its number of occurrences |
| Univariate.MaxByCount | src/univariate_.rs:65-69 | draining the table in any order gives no entry exactly for an empty table, and otherwise a key of the table whose count is at least every other count |
| Univariate.Mode | src/univariate_.rs:55-70 | no result exactly for the empty sample; otherwise a value that occurs in the sample and occurs at least as often as every other value |
| Univariate.ModesShareCount | src/univariate_.rs:65 | any two values satisfying the mode contract occur equally often, so the arbitrary tie-break only chooses among equally frequent values |
| Fixtures.SingletonMode | src/univariate_.rs:174-175 | the only mode of a one-element sample is its element |
| Fixtures.ColorsMode | src/univariate_.rs:182-188 | the only mode of Blue, Green, Yellow, Green is Green |
| Fixtures.CountIsOccurrences | src/univariate_.rs:59-64 | counting a value position by position gives its number of occurrences, the quantity the counting loop accumulates |
| Fixtures.ModeFromCounts | src/univariate_.rs:65-69 | a sample value occurring strictly more often than every other value is the only value satisfying the mode contract |
| Fixtures.IntegerSampleMode | src/univariate_.rs:172-173 | the only mode of 2, 4, 3, 5, 4, 6, 1, 1, 6, 4, 0, 0 is 4, the value `test_mode` expects both by reference and by value (lines 176-177) |

## Left out

- All `T: Float` functions of both files (`mean`, `sum_square_deviations`, the variances and standard deviations, `standard_scores`, `std_moment`, the harmonic, geometric and quadratic means, `average_deviation`, the skewness and kurtosis functions, the standard errors): floating-point formulas over `sqrt`, `powi` and `powf`.
- `src/lib.rs`: module re-exports only, no logic. It also re-exports a `percentile` that `src/stats_.rs` does not define.
- The random number generator itself and any probability or expected-running-time claim: draws are a parameter.
- Stats.Median: the even-length average is the exact real mean of the two middle values, as for floating-point samples. For an integer element type the source's division truncates toward zero, and the sum could overflow; neither is modelled.
- Stats.Quicksort: the size of the call stack is not modelled. The source recurses twice with no depth bound and no loop in place of the second call. Repeated values force deep nesting whatever the draws: the copies of a value always stay together on one side of the partition (the test at src/stats_.rs:160 is strict), so a run nests at least as many activations as the most frequent value has copies (the `depth` clause), which is at least |v|/k for k distinct values and close to |v| when one value dominates; on a slice of equal values it is exactly |v|. Draws that keep picking the least element nest |v| activations on any input. For the one-million-element input of `test_qsort_large`, or a `median` of a million equal values, this can overflow a thread stack and abort. The contract holds only for runs that fit on the stack.
- Rounding and NaN of `f64` and the `PartialOrd` behaviour on incomparable values: values are reals with a total order.
- Univariate.Frequencies: counts are unbounded naturals. The source's counter (incremented in the counting loop) is an `i32`, which would overflow after 2^31 - 1 occurrences of one value.
- Univariate.Mode: inherits the unbounded counts of Univariate.Frequencies; the `i32` overflow is not modelled.
- The hashing behind `HashMap`, and which of several equally frequent values `mode` returns: that depends on the map's iteration order.
- Stats.Median: that the caller's slice is never reordered holds by construction, because sequences are values. It is not a separate contract.
