# GridSearchSampling search core in Dafny

GridSearchSampling searches [0, 1)^D exhaustively for the inputs that minimise a
scoring function. It steps every coordinate through the representable floats
(or every `STEP_SIZE`-th one), cuts dimension 0 into one slice per thread, keeps
the `KEEP_COUNT` best results per thread, merges the per-thread results, sorts
them and writes the non-sentinel ones out.

This project models that engine from `main.cpp` and proves properties of the model:

- **Ordinals** (`ordinals.dfy`): a float in [0, 1) is its IEEE-754 bit pattern
  read as a `uint32` ("ordinal"). On [0, 1) ordinal order is float order, and
  1.0f is ordinal `0x3F800000` (`One`). `AdvanceFloat` adds the step with 32-bit
  wrap-around, reports whether the sum is below the bound, and stores the sum
  reduced modulo the bound.
- **TopK** (`tracker.dfy`): the per-thread result array (`PerThreadData`):
  - its constructor, which fills every slot with the `FLT_MAX` sentinel;
  - `ProcessResult`, with both its single-slot policy and its
    "slot 0 holds the largest score" policy;
  - the fact that any sequence of calls keeps the lowest-scored results.
- **Enumerate** (`enumerate.dfy`): `IterateInput`, the odometer walk over one
  slice. The last dimension moves fastest, and a dimension that runs out keeps
  `(u + step) mod bound` rather than restarting at 0.
- **Slices** (`slices.dfy`): the partition of dimension 0 among `n` workers at
  `One*i/n`.
- **Ranking** (`ranking.dfy`): the ascending sort of the merged results and
  the skipping of sentinel rows when writing.
- **Search** (`search.dfy`): `Optimize`. It runs the workers, merges their
  trackers into a fresh one, sorts, and filters the rows.

Model types:
- Scores are integers up to the sentinel `Unset` (`0x7F7F_FFFF`, the bit
  pattern of `FLT_MAX`). Only their order matters.
- A point is a sequence of ordinals, one per dimension.
- The scoring function is a parameter `score: Point -> Score`.

## Model

| member | source | states |
|---|---|---|
| Ordinals.AdvanceFloat | main.cpp:138-149 | the stored ordinal is below the bound; when the addition does not wrap, progress is reported exactly when `u + step` is below the bound; a successful step stores the wrapped sum itself |
| Ordinals.Reduce | main.cpp:145 | the reduction of the sum lies below the bound and leaves a sum already below the bound unchanged |
| Ordinals.ReduceIsMod | main.cpp:145 | the repeated subtraction computes exactly the remainder `x % b` of `u %= maxu` |
| Ordinals.AdvanceStoresRemainder | main.cpp:143-145 | the stored ordinal is the 32-bit wrapped sum modulo the bound, and progress is reported exactly when the wrapped sum is below the bound |
| Ordinals.AdvanceExact | main.cpp:143-146 | a step that stays below the bound stores `u + step` and reports progress |
| Ordinals.AdvanceOvershoot | main.cpp:143-145 | a step past the bound by less than one bound stores the overshoot `u + step - bound`, not 0, and reports no progress |
| Ordinals.AdvanceWrapsBackwards | main.cpp:143-145 | whenever `u + step` overflows 32 bits and the wrapped sum lands below the bound, progress is reported, the stored ordinal is the wrapped sum, and it lies below `u` |
| TopK.Fresh | main.cpp:43-47 | a new tracker has K slots, each holding the sentinel score, so slot 0 holds a maximum |
| TopK.KeepMinimum | main.cpp:52-58 | with one slot, the stored score becomes the minimum of the old and new scores; the slot changes only for a strictly lower score, so on ties the first result seen stays |
| TopK.ScanForLargest | main.cpp:69-78 | the scan ends at a slot whose score is a maximum, and it is the first slot holding that maximum |
| TopK.Swap | main.cpp:79-84 | the two slots trade places and every other slot is unchanged |
| TopK.SwapPermutes | main.cpp:79-84 | the swap keeps the multiset of slots |
| TopK.ReplaceLargest | main.cpp:62-85 | a score not below slot 0's leaves the tracker unchanged; an accepted score leaves a maximum in slot 0 |
| TopK.ReplaceLargestTrades | main.cpp:66-85 | an accepted result replaces exactly the old slot-0 entry, a maximal one, in the multiset of slots |
| TopK.ProcessResult | main.cpp:49-87 | the number of slots is kept; a score not below slot 0's changes nothing; "slot 0 holds a maximum" is preserved |
| TopK.ProcessResultTrades | main.cpp:49-87 | under either policy an accepted result trades places with the old slot-0 entry in the multiset of slots |
| TopK.SingleSlotAgrees | main.cpp:52-85 | the single-slot shortcut computes what the general policy would |
| TopK.Feed | main.cpp:49-87 | recording a list of results keeps the number of slots and the slot-0 invariant |
| TopK.FeedConcat | main.cpp:229-234 | recording two lists in turn is recording their concatenation |
| TopK.SlotZeroBoundsAll | main.cpp:62 | under the invariant, no slot scores above slot 0 |
| TopK.RejectKeepsSmallest | main.cpp:66 | a rejected result scores no lower than every kept one, so the kept slots stay the lowest-scored |
| TopK.AcceptKeepsSmallest | main.cpp:66-85 | trading the largest kept entry for a lower-scored result keeps the slots the lowest-scored of the grown pool |
| TopK.ProcessResultKeepsSmallest | main.cpp:49-87 | one call keeps the slots the lowest-scored of everything seen |
| TopK.FeedKeepsSmallest | main.cpp:49-87 | after any sequence of calls the slots are the K lowest-scored among the initial slots and all recorded results |
| TopK.SmallestOfSmallest | main.cpp:229-234 | keeping the lowest K composes: the lowest K of two trackers' lowest K are the lowest K of their pools together |
| Enumerate.Start | main.cpp:160-163 | the first point has dimension 0 at the slice start and every other dimension at 0 |
| Enumerate.Odometer | main.cpp:173-181 | one advance pass keeps the number of dimensions |
| Enumerate.OdometerInBounds | main.cpp:174-181 | an advance pass keeps every coordinate below its dimension's bound |
| Enumerate.Bound | main.cpp:176 | dimension 0 is bounded by the slice end and every other dimension by 1.0, so every bound is positive when the slice end is and at most 1.0 when the slice end is |
| Enumerate.OdometerExhausted | main.cpp:173-185 | when no addition wraps, a pass fails exactly when none of the dimensions it tries has room for another step |
| Enumerate.OdometerAdvances | main.cpp:174-181 | a successful pass keeps a prefix of the dimensions and strictly increases the next one, so the point moves forward |
| Enumerate.StepForward | main.cpp:166-185 | a successful pass moves forward in lexicographic order, stays in the slice and strictly increases a rank bounded by One^D, which is why the loop terminates |
| Enumerate.IterateInput | main.cpp:152-198 | the recorded points are the complete walk of the slice from the start point until a pass fails; each result's score is the scoring function of its point; the tracker is the fold of `ProcessResult` over the results in order |
| Enumerate.WalkInSlice | main.cpp:161-181 | every visited point has dimension 0 in [min, max) and each other dimension in [0, 1) |
| Enumerate.WalkRankIncreasing | main.cpp:166-185 | the rank of visited points strictly increases along the walk |
| Enumerate.RankOrderIsLex | main.cpp:174-181 | a higher rank among points with digits below One means later in lexicographic order |
| Enumerate.WalkIncreasing | main.cpp:166-185 | visited points come in strictly increasing lexicographic order, so none is visited twice |
| Enumerate.WalkEndsExhausted | main.cpp:173-185 | the walk stops at a point where no dimension can take another step |
| Enumerate.WalkOneDimensionalPoints | main.cpp:160-185 | in one dimension the j-th visited point is `min + j*step`, below `max` |
| Enumerate.WalkOneDimensionalCount | main.cpp:160-185 | in one dimension the walk visits exactly ceil((max - min) / step) points |
| Enumerate.InnerRestartsAtOffset | main.cpp:145 | when dimension 1 runs out and dimension 0 advances, dimension 1 restarts at `(u + step) mod One`, not at 0 |
| Enumerate.InnerRestartExample | main.cpp:145 | with step 2, an inner dimension that ran out at One - 1 restarts at 1 |
| Slices.SliceStart | main.cpp:220-221 | slice 0 starts at 0, the last slice ends at One, and every slice bound lies in [0, One] |
| Slices.SliceMonotone | main.cpp:220-221 | later slices start no earlier |
| Slices.SliceNonEmpty | main.cpp:220-221 | with at most One workers every slice is non-empty |
| Slices.SliceOf | main.cpp:220-221 | finds the slice holding a given ordinal |
| Slices.SlicesCover | main.cpp:220-221 | every ordinal of [0, One) lies in some slice |
| Slices.SlicesDisjoint | main.cpp:220-221 | no ordinal lies in two slices |
| Ranking.Insert | main.cpp:237-241 | inserting into a score-sorted sequence keeps it sorted and adds one entry |
| Ranking.InsertAdds | main.cpp:237-241 | insertion adds exactly the inserted entry to the multiset |
| Ranking.SortByScore | main.cpp:237-241 | the result is sorted non-decreasing by score and has the input's length |
| Ranking.SortPermutes | main.cpp:237-241 | the sort permutes its input |
| Ranking.Scored | main.cpp:258-261 | the written rows are at most as many as the results, and every one has a real score |
| Ranking.ScoredMembers | main.cpp:258-261 | an entry is written exactly when it is among the results and its score is not the sentinel |
| Ranking.ScoredAllReal | main.cpp:258-261 | with no sentinel scores, every row is written |
| Ranking.ScoredSortedPrefix | main.cpp:258-261 | on sorted results the written rows are a prefix, and every entry after that prefix has the sentinel score, because sentinel scores sort last |
| Ranking.ScoredDropsSentinels | main.cpp:258-261 | every entry the filter drops from sorted results, after the written prefix, has the sentinel score |
| Search.Merge | main.cpp:229-234 | the merged tracker has K slots and satisfies the slot-0 invariant |
| Search.MergeFeedsAll | main.cpp:229-234 | merging worker by worker is one run of `ProcessResult` over all workers' slots in worker order |
| Search.MergeKeepsSmallest | main.cpp:229-234 | the merged tracker holds the K lowest-scored entries among all sentinel slots and all results every worker recorded |
| Search.RunWorkers | main.cpp:213-226 | worker i walks exactly slice i of dimension 0, scores every point it records, and ends with the tracker fed those results |
| Search.Optimize | main.cpp:213-261 | every worker walks its whole slice; the ranked results are K entries, sorted, and the lowest-scored of the whole pool; the written rows are a prefix of the ranking, every ranked entry after it has the sentinel score, and an entry is written exactly when it is ranked with a real score |

## Left out

- Progress reporting (`progress.h` and `main.cpp:154-155`, `187-197`): console
  output and timing with no effect on the search.
- The scoring functions and `fract` (`main.cpp:17-21`, `99-135`): floating-point
  numerics. `score` is a parameter.
- Threads (`main.cpp:203-216`): OpenMP concurrency. Workers share no state, so
  they run one after another. The thread count `n` is a parameter with
  `1 <= n <= One`; more workers than that would make slice 0 empty, so that
  `u %= maxu` divides by zero.
- CSV writing and `_mkdir` (`main.cpp:243-271`, `276`): file I/O. Only the
  row-skipping condition is modelled.
- Float bit reinterpretation (`main.cpp:140-146`, `222-223`): values are their
  ordinals throughout.
- Slices.SliceStart: computes `One*i/n` with exact integer division. The
  source evaluates `float(s_end)*float(i)/float(n)` in single precision. Near
  2^28 to 2^30, neighbouring floats are 32 to 64 ordinals apart, so the source's
  bound can differ from `One*i/n` by tens of ordinals, in either direction. For
  example, n = 3, i = 1 gives 10 ordinals lower, and n = 6, i = 5 gives 22
  higher. Contiguity holds either way, because both sides use the same
  expression.
- Enumerate.IterateInput: requires `step <= 2^32 - One`. Below that, no
  addition in a walk wraps 32 bits, and the loop's rank measure needs this.
  `AdvanceFloat` itself models the wrap; see `AdvanceWrapsBackwards`.
- Enumerate.IterateInput: requires `0 < step`. With a step size of 0,
  `AdvanceFloat` reports progress on every pass and never moves the point. The
  source then loops forever on the start point. The model leaves out that
  non-terminating configuration.
- Search.Optimize: requires `1 <= k`. With a keep count of 0, the source's
  `ProcessResult` reads slot 0 of an empty array, which is undefined
  behaviour. The model leaves out that configuration.
- `Result::input` is left uninitialised by the constructor. It is modelled as a
  caller-chosen `blank` point.
- The one-dimensional count: the source's loop visits ceil((max - min) / step)
  points, since `max` is exclusive. The model proves that count;
  floor((max - min) / step) + 1 would be one too many when the step divides
  the range.
- Ranking.SortByScore: an insertion sort stands for `std::sort`. The
  order among equal scores is not modelled, since `std::sort` does not fix it.
- That fewer recorded results than K leave sentinel slots behind is not
  stated separately. It follows from `Search.MergeKeepsSmallest` together with
  `Ranking.ScoredMembers`.
