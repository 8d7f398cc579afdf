# CLaxon host core in Dafny

CLaxon is a suite of OpenCL benchmarks. This project models the host-side C code
that the benchmarks share, and the host logic of three of them:

- **Prefix-sum planning and dispatch** (`src/frnn/prefix_sum.c`): `next_pot`,
  `prefix_sum_elems_ceil`, and the two-level exclusive scan `prefix_sum`. The
  scan is made of three kernel launches: block-local scans, a scan of the
  block totals, and a pass that adds the carries.
- **Counting sort of a point cloud into a grid of bins**: `frnn_sort` in
  `src/frnn/frnn.c` and `ndt_sort` in `src/ndt/ndt.c`. Points are counted per
  bin, the counts are scanned into offsets, and each point is scattered to
  its bin's offset plus its rank within the bin. `sorted_entries`,
  `calc_translation` and the `{1024, y}` launch grid of the NDT kernels are
  modelled as well.
- **The SRAD sum-reduction schedule**: the loop of `main` in
  `src/srad/srad.c`. It launches `reduce_kernel` level after level until one
  block is left.
- **The OpenCL helper library** (`src/lib/opencl.c`):
  - the global option state, `opencl_parse_option` and its getters;
  - `opencl_teardown`;
  - the control flow of `opencl_compare_out_float`.
- **The CSV helpers** (`src/lib/csv.c`): `csv_file_count`, `csv_file_read`,
  `csv_file_read_float`, `csv_file_read_float_n` and `csv_file_write`.

The device kernels themselves are not part of this model. Each kernel launch
is modelled by the effect its host arguments imply, written as a sequential
loop over arrays. Every `unsigned int` addition on the device is taken modulo
2^32 (`Sums.Wrap`). A host call that can fail is modelled by a `fault`
parameter. That parameter names the first checked call that reports an error,
so every early `return NULL`, `return -1` or `(cl_mem)-1` path is a branch of
the model.

Modules, one file each:

| module | file | models |
|---|---|---|
| `Wrappers` | wrappers.dfy | `Option` |
| `Sums` | sums.dfy | sums of sequences and arithmetic modulo 2^32 |
| `ScanPlan` | scan_plan.dfy | `next_pot`, `prefix_sum_elems_ceil` |
| `PrefixSum` | prefix_sum.dfy | the three scan stages and `prefix_sum` |
| `Bucketing` | bucketing.dfy | the count and reindex stages shared by both sorts |
| `Frnn` | frnn.dfy | `frnn_sort` |
| `Ndt` | ndt.dfy | `ndt_sort`, `sorted_entries`, `calc_translation`, launch grid |
| `Srad` | srad.dfy | the reduce schedule |
| `Opencl` | opencl.dfy | option state, parsing, teardown, output comparison |
| `Csv` | csv.dfy | reading and writing comma-separated values |

## Model

| member | source | states |
|---|---|---|
| ScanPlan.Clz32 | src/frnn/prefix_sum.c:36 | `__builtin_clz` of a non-zero 32-bit word is at most 31, and x lies in [2^(31-r), 2^(32-r)) |
| ScanPlan.NextPot | src/frnn/prefix_sum.c:40-45 | `1 << (31 - clz(in - 1) + 1)` is a power of two r with in <= r < 2 * in, for 2 <= in <= 2^30 |
| ScanPlan.NextPotLeast | src/frnn/prefix_sum.c:40-45 | next_pot(n) is the least power of two that is at least n |
| ScanPlan.NextPotOfPow2 | src/frnn/prefix_sum.c:40-45 | a power of two is its own next_pot |
| ScanPlan.NextPotAtMost30 | src/frnn/prefix_sum.c:40-45 | next_pot of an input up to 2^30 stays within 2^30 |
| ScanPlan.WorkGroupsIsCeil | src/frnn/prefix_sum.c:52 | work_groups is the least number of groups of W work-items that covers elems / 2 work-items |
| ScanPlan.WorkGroupsAtMostHalf | src/frnn/prefix_sum.c:52 | there are never more work groups than work-items (elems / 2) |
| ScanPlan.WorkGroupsOfBlocks | src/frnn/prefix_sum.c:52-55 | a length of 2 * g * W gives exactly g work groups |
| ScanPlan.ElemsCeil | src/frnn/prefix_sum.c:47-65 | the plan reports the work-group count `WorkGroups(elems, w)` |
| ScanPlan.MultiGroupBlocks | src/frnn/prefix_sum.c:54-55 | with several groups the padded length is a whole number of 2W-blocks, one per group |
| ScanPlan.SingleGroupPow2 | src/frnn/prefix_sum.c:56-57 | with at most one group the padded length is the next power of two of elems, below 2 * elems |
| ScanPlan.PaddedCovers | src/frnn/prefix_sum.c:47-65 | the padded length covers elems when elems is even or a single group suffices |
| ScanPlan.OddShortfall | src/frnn/prefix_sum.c:52-55 | for odd elems = 2kW + 1 with k >= 2 the padded length is 2kW, one short of elems |
| ScanPlan.ElemsCeilStable | src/frnn/prefix_sum.c:47-65 | planning a padded length again gives the same length (several groups, or W a power of two) |
| ScanPlan.SinglePlanStable | src/frnn/prefix_sum.c:56-57 | a single-group padded length is planned to itself when W is a power of two |
| ScanPlan.SingleGroupFits | src/frnn/prefix_sum.c:200-201 | the single group of elemsCeil / 2 work-items fits the device when elems <= 2W and W is a power of two |
| ScanPlan.SingleGroupOversize | src/frnn/prefix_sum.c:200-201 | elems = 2W + 1 takes the single-group branch yet asks for a group of 2W work-items |
| ScanPlan.PrefixSumElemsCeil | src/frnn/prefix_sum.c:47-65 | returns the padded length and stores the work-group count only through a non-null `wgs` |
| PrefixSum.BlockScan | src/frnn/prefix_sum.c:67-108 | stage kernel `prefix_sum`: each group scans its 2 * group elements exclusively and stores its block total when `incr` is bound; nothing else changes |
| PrefixSum.ScanOneBlock | src/frnn/prefix_sum.c:213-214 | one work group: dst holds the exclusive sums of its block, the total of the block is returned |
| PrefixSum.ScanGroup | src/frnn/prefix_sum.c:213-214 | work group g scans block g and stores its total in sums[g]; other entries are untouched |
| PrefixSum.CarryAdd | src/frnn/prefix_sum.c:110-147 | stage kernel `prefix_sum_post`: from the second block on, each element gains its block's scanned carry, modulo 2^32; nothing else changes |
| PrefixSum.CarryIsPrefix | src/frnn/prefix_sum.c:216-218 | the exclusive scan of the block totals is, for each block, the wrapped sum of all elements before it |
| PrefixSum.ComposeAt | src/frnn/prefix_sum.c:219-220 | a block-local sum plus its block's carry is the global exclusive sum |
| PrefixSum.TwoLevelScan | src/frnn/prefix_sum.c:213-221 | the three stages compose to an exact exclusive scan modulo 2^32 |
| PrefixSum.CarriedElement | src/frnn/prefix_sum.c:219-220 | an element past the first block ends as its global exclusive sum |
| PrefixSum.LocalScanFirstBlock | src/frnn/prefix_sum.c:219-220 | the first block, which stage 3 skips, already holds the global exclusive sums |
| PrefixSum.MultiLayout | src/frnn/prefix_sum.c:177-221 | in the multi-group case work_items = 2 * work_groups * W, and stage 3 covers the rest after the first block |
| PrefixSum.ScanAndTotals | src/frnn/prefix_sum.c:213-218 | stages 1 and 2: local scans into out, and the increment buffer holds each block's carry |
| PrefixSum.RunTwoLevel | src/frnn/prefix_sum.c:213-221 | the multi-group path leaves out holding the exclusive scan of the input |
| PrefixSum.RunSingle | src/frnn/prefix_sum.c:200-201 | the single-group path leaves out holding the exclusive scan of the input |
| PrefixSum.Scan | src/frnn/prefix_sum.c:153-234 | returns the sentinel exactly when a checked call fails or the totals exceed one group. Otherwise: a fresh buffer of the padded length holding the exclusive scan, whenever the launched group fits the device. The input is unchanged. Gives the exact launch geometry: one launch, or three |
| PrefixSum.TwoLevelCapacity | src/frnn/prefix_sum.c:179-183 | the limit check allows at most 2 * W * W elements, and for W a power of two accepts exactly the work-group counts up to W |
| PrefixSum.PaddedScan | src/frnn/prefix_sum.c:47-65 | a buffer sized by `prefix_sum_elems_ceil` and scanned with that length is planned to the same length and scanned exactly |
| PrefixSum.PaddedMultiGroups | src/frnn/prefix_sum.c:52-55 | re-planning a multi-group padded length keeps the work-group count |
| PrefixSum.PaddedSingleGroup | src/frnn/prefix_sum.c:56-57 | re-planning a single-group padded length keeps one group that fits, or more than one |
| PrefixSum.PaddedLength | src/frnn/frnn.c:90 | the bin-buffer length the sorts allocate covers the bins, is stable under re-planning, and can be scanned exactly |
| Bucketing.Occ | src/frnn/frnn.c:111-116 | a bin's count never exceeds the number of points |
| Bucketing.Histogram | src/frnn/frnn.c:111-116 | the per-bin counts `kernel_ins_cnt` produces, one entry per bin of the range; their properties are the lemmas below |
| Bucketing.HistogramSnoc | src/frnn/frnn.c:111-116 | counting one more point in bin x adds one to entry x only |
| Bucketing.HistogramTotal | src/frnn/frnn.c:111-116 | the counts of bins 0 .. k-1 add up to the number of points when all lie in those bins |
| Bucketing.OccAbove | src/frnn/frnn.c:90-95 | padding bins beyond the grid stay empty |
| Bucketing.HistogramPrefix | src/frnn/frnn.c:90-95 | the histogram over the padded range starts with the histogram over the real grid |
| Bucketing.Counted | src/frnn/frnn.c:100-116 | the counters after the counting kernel, one increment modulo 2^32 per point: one counter per bin, related to `Occ` by `CountedIsOcc` |
| Bucketing.CountedIsOcc | src/frnn/frnn.c:100-116 | counting adds each bin's number of occurrences to its counter, modulo 2^32 |
| Bucketing.CountedFromZero | src/frnn/frnn.c:100-116 | counting from zeroed counters with fewer than 2^32 points gives exactly the histogram |
| Bucketing.CountStage | src/frnn/frnn.c:100-116 | `kernel_ins_cnt`: records each point's bin and leaves the counters as `Counted` of the old ones |
| Bucketing.CountIntoZeroed | src/ndt/ndt.c:127-147 | the counting pass over zeroed counters leaves the bins recorded and the histogram in the counters |
| Bucketing.ScanGivesOffsets | src/frnn/frnn.c:130 | a modulo-2^32 scan of counts totalling less than 2^32 gives the exact bin offsets |
| Bucketing.BinRange | src/frnn/frnn.c:159-172 | each bin's slot range lies within the output |
| Bucketing.OffsetsOrdered | src/frnn/frnn.c:159-172 | a lower bin's slots all come before a higher bin's |
| Bucketing.DestInBin | src/frnn/frnn.c:159-172 | each point goes into its own bin's slot range |
| Bucketing.DestBelow | src/frnn/frnn.c:159-172 | every destination is a slot of the output |
| Bucketing.DestOrdered | src/frnn/frnn.c:159-172 | points of a lower bin land before points of a higher bin |
| Bucketing.Dests | src/frnn/frnn.c:159-172 | the slot `kernel_reindex` writes each point to, one per point: its bin's offset plus the number of earlier points in that bin |
| Bucketing.DestStable | src/frnn/frnn.c:159-172 | two points of the same bin land in input order (the order of the sequential model) |
| Bucketing.DestInjective | src/frnn/frnn.c:159-172 | no two points share a destination |
| Bucketing.RankedPoint | src/frnn/frnn.c:159-172 | for each rank below a bin's count there is a point of that bin with that rank |
| Bucketing.SlotBin | src/frnn/frnn.c:159-172 | every output slot lies in exactly one bin's range |
| Bucketing.DestOnto | src/frnn/frnn.c:159-172 | every output slot receives some point |
| Bucketing.DestsPermutation | src/frnn/frnn.c:159-172 | the reindex destinations are a permutation of the output slots, grouped by bin |
| Bucketing.ScatterSnoc | src/frnn/frnn.c:159-172 | writing one more point updates exactly its destination |
| Bucketing.ScatterPlaces | src/frnn/frnn.c:159-172 | with distinct destinations every point survives in its slot and other slots are untouched |
| Bucketing.Scatter | src/frnn/frnn.c:159-172 | the output after the reindex writes in point order; it keeps the output's length, and `ScatterPlaces` and `ScatterSnoc` characterise it |
| Bucketing.PlacedIsPermutation | src/frnn/frnn.c:159-172 | an output with one slot per point, each point in a slot of its own, holds the same multiset of points |
| Bucketing.SortedOutput | src/frnn/frnn.c:159-172 | the reordered output holds point i at its destination, and every slot holds a point of the input |
| Bucketing.ReindexStage | src/frnn/frnn.c:159-172 | `kernel_reindex`: out is the scatter of the points by offset plus fetched cursor, and each cursor ends at its bin's count |
| Bucketing.ScatterSorts | src/frnn/frnn.c:130-172 | scattering by the scanned histogram is a counting sort (`SortedSeqs`): each point in its bin's range, and the output a permutation (equal multisets) of the input |
| Bucketing.ReindexSorted | src/frnn/frnn.c:137-172 | the reindex stage after a correct count and scan leaves a counting sort of the points in out |
| Frnn.FrnnSort | src/frnn/frnn.c:63-191 | NULL exactly when a checked step fails. The prefix sum's own failure is reported separately. Otherwise fresh buffers: out is a counting sort of the points by bin (each point in its bin's range, the same multiset of points), binElems the histogram, binPrefix its exclusive scan. The input is unchanged |
| Ndt.SortedEntries | src/ndt/ndt.c:77-90 | prefix + count of the last real bin is a 32-bit value |
| Ndt.SortedEntriesIsTotal | src/ndt/ndt.c:77-90 | over an exclusive scan, the result is the total of the real bins' counts, modulo 2^32 |
| Ndt.SortedEntriesCountsPoints | src/ndt/ndt.c:77-90 | when the counts are the histogram of the points, the result is the number of points |
| Ndt.NdtSort | src/ndt/ndt.c:93-227 | NULL exactly when a step that does not use the prefix sum's result fails (those before it, the reindex kernel, the cursor buffer), or a later step fails after a successful prefix sum. After a failed prefix sum with no such failure, nothing is said (`BadPrefix`). Otherwise fresh buffers: a counting sort of the points (each in its bin's range, the same multiset), the histogram, its exclusive scan, and `sorted_elems` equal to the number of points and the output length |
| Ndt.LaunchRows | src/ndt/ndt.c:363-365 | the rows of the `{1024, y}` grid: at least elems / 1024, and none exactly for no elements |
| Ndt.LaunchRowsCovers | src/ndt/ndt.c:363-365 | the {1024, y} grid has a work-item for every element, and no smaller y does |
| Ndt.LaunchRowsPlacesElement | src/ndt/ndt.c:517-519 | element i is at column i % 1024 of row i / 1024, inside the grid |
| Ndt.Translation | src/ndt/ndt.c:59-74 | the translation matrix has twelve entries |
| Ndt.TranslationMoves | src/ndt/ndt.c:59-74 | the matrix moves every point by (x, y, z) and rotates nothing |
| Ndt.CalcTranslation | src/ndt/ndt.c:59-74 | fills all twelve entries with the translation by (x, y, z); rz is ignored |
| Srad.CeilDivIsLeast | src/srad/srad.c:291-296 | the rounded-up block count is the least that covers the inputs, and zero only for no inputs |
| Srad.CeilDivShrinks | src/srad/srad.c:339-345 | with blocks of at least two, each further level has fewer blocks |
| Srad.LevelsFrom | src/srad/srad.c:316-347 | the launches from a level with `no` inputs until one block is left; none exactly when there are no inputs |
| Srad.Schedule | src/srad/srad.c:287-352 | the launches of one reduction of ne values; none exactly for ne == 0 |
| Srad.ReduceSchedule | src/srad/srad.c:287-352 | returns -1 exactly when the failing launch is part of the schedule. Otherwise the launches are exactly `Schedule(ne, t)` |
| Srad.StrideStep | src/srad/srad.c:341 | multiplying the stride by t per level: stride mul * t^k from mul is stride (mul * t) * t^(k-1) from the next level |
| Srad.LevelAt | src/srad/srad.c:316-347 | level k has k-fold rounded input count, stride t^k, and a global size that is a whole number of groups covering its inputs |
| Srad.ScheduleShape | src/srad/srad.c:287-352 | every level of the schedule has that shape |
| Srad.LevelsEnd | src/srad/srad.c:338-340 | the schedule stops at the first level that leaves one block, and is non-empty exactly when there are inputs |
| Srad.ScheduleLength | src/srad/srad.c:315-348 | the number of launches is the least k >= 1 at which k roundings reach one |
| Srad.CeilIterShift | src/srad/srad.c:341-346 | rounding k + 1 times is rounding once and then k times |
| Opencl.DigitRun | src/lib/opencl.c:484 | the digits `%u` consumes are a maximal run of digits |
| Opencl.ScanUnsigned | src/lib/opencl.c:484-486 | a value `sscanf("%u")` accepts fits in 32 bits |
| Opencl.Decimal | src/lib/opencl.c:484 | a decimal numeral is a non-empty run of digits |
| Opencl.DecimalValue | src/lib/opencl.c:484 | a decimal numeral reads back as its value |
| Opencl.ScanDecimal | src/lib/opencl.c:484-486 | `%u` reads the decimal numeral of n < 2^32 as n |
| Opencl.ScanMinusOne | src/lib/opencl.c:484-486 | `%u` reads "-1" as 2^32 - 1 |
| Opencl.ToInt32 | src/lib/opencl.c:489 | storing an unsigned value in an `int` gives a 32-bit value, negative exactly from 2^31 on |
| Opencl.State.constructor | src/lib/opencl.c:38-47 | the state starts as platform 0, device 0, no comparison, ten iterations |
| Opencl.State.CompareOutput | src/lib/opencl.c:53-56 | returns the stored compare flag |
| Opencl.State.GetIterations | src/lib/opencl.c:59-62 | returns the stored iteration count |
| Opencl.State.ParseOption | src/lib/opencl.c:477-515 | the new state and return code are `ParseStep` of the old state |
| Opencl.OptionLetters | include/lib/opencl.h:37 | the option letters of "P:d:I:c" |
| Opencl.ParseRecognisesOpts | src/lib/opencl.c:477-515 | -ENOSYS exactly for letters outside OPENCL_OPTS, which change nothing |
| Opencl.ParseOneField | src/lib/opencl.c:477-515 | each option changes at most its own field |
| Opencl.ParseNumber | src/lib/opencl.c:480-508 | -EINVAL exactly when `%u` fails, and otherwise the read value is stored |
| Opencl.ParseIterationsRoundTrip | src/lib/opencl.c:500-506 | `-I n` for n < 2^32 sets iterations to n and returns 0 |
| Opencl.ParseCompareIdempotent | src/lib/opencl.c:508-511 | `-c` sets the flag whatever its argument, and a second `-c` changes nothing |
| Opencl.RejectsIndex | src/lib/opencl.c:158-162 | the intended index check rejects exactly the indices outside [0, count) |
| Opencl.RejectsIndexAsWritten | src/lib/opencl.c:158-162 | the check as written never rejects index -1, and on 0 <= index < 2^31 - 1 rejects exactly the indices from count up |
| Opencl.IndexChecksAgree | src/lib/opencl.c:158-162 | the check as written agrees with the intended one on non-negative indices below 2^31 - 1 |
| Opencl.MinusOneIndexPasses | src/lib/opencl.c:158-162 | `-P -1` stores platform -1, and the check as written lets it through although it is out of range |
| Opencl.SelectIndex | src/lib/opencl.c:164-166 | the corrected selection yields an index exactly when it is in range |
| Opencl.HandleSlot.constructor | src/lib/opencl.c:334 | a handle variable holds the given handle |
| Opencl.Releases | src/lib/opencl.c:334-350 | teardown releases at most three handles, and none exactly when none are held |
| Opencl.Teardown | src/lib/opencl.c:334-350 | releases program, queue and context in that order, only those held, and leaves all three NULL |
| Opencl.TeardownTwice | src/lib/opencl.c:334-350 | a second teardown releases nothing |
| Opencl.Mismatches | src/lib/opencl.c:385-404 | the mismatch count is at most the number of elements |
| Opencl.MismatchesExist | src/lib/opencl.c:385-404 | the count is positive exactly when some element mismatches |
| Opencl.MismatchesMonotone | src/lib/opencl.c:385-404 | the count grows with the prefix |
| Opencl.CompareOutFloat | src/lib/opencl.c:374-408 | -EINVAL exactly when some element mismatches, otherwise 0. The number reported is the mismatch count, stopping at ten |
| Csv.LeadingTokens | src/lib/csv.c:41-45 | the scan stops at the first conversion that fails |
| Csv.CsvFileCount | src/lib/csv.c:33-52 | negative exactly when the file does not open, otherwise the number of leading values |
| Csv.ReadTokens | src/lib/csv.c:77-83 | reads min(count, leading values) values into the buffer in order; the rest is unchanged |
| Csv.CsvFileRead | src/lib/csv.c:55-86 | -1 when the count fails or malloc fails, -EINVAL when the reopen fails. Otherwise a fresh buffer of the counted length holding the values read |
| Csv.CsvFileReadFloat | src/lib/csv.c:89-120 | the same for floats; reading the same stream gives back the count |
| Csv.Slot | src/lib/csv.c:162-166 | value i goes to row i / n of column i % n, inside the buffer |
| Csv.SlotInRange | src/lib/csv.c:162-166 | that slot is inside column i % n of the buffer |
| Csv.SlotInjective | src/lib/csv.c:162-166 | no two values share a slot |
| Csv.UnsplitIndex | src/lib/csv.c:162-166 | a slot's column and row give back the value's index |
| Csv.SlotOnto | src/lib/csv.c:162-166 | every slot of the buffer receives one value |
| Csv.ColumnsTile | src/lib/csv.c:152-154 | the n columns tile the buffer: each slot lies in exactly one column |
| Csv.ColumnStarts | src/lib/csv.c:144-154 | column k starts at k * (count / n) |
| Csv.ScatterTokens | src/lib/csv.c:162-166 | reads min(count, leading values) values, each into its column-major slot |
| Csv.CsvFileReadFloatN | src/lib/csv.c:123-171 | -1 when the count fails, is not a multiple of n, or an allocation fails; -EINVAL when the reopen fails. Otherwise fresh column pointers and buffer, the values split round-robin over n columns, and the number of whole rows read |
| Csv.Join | src/lib/csv.c:190-193 | the text `csv_file_write` produces from the formatted values, beginning with the first value |
| Csv.JoinSnoc | src/lib/csv.c:190-193 | appending a field appends ", " and the field |
| Csv.Formatted | src/lib/csv.c:190-193 | each value is formatted on its own |
| Csv.CsvFileWrite | src/lib/csv.c:174-198 | false with nothing written when n is 0 or the file does not open; otherwise true, with the first n values written separated by ", " |
| Csv.IndexOfComma | src/lib/csv.c:163 | the first comma of a text, for the model's own reader `Fields` |
| Csv.Fields | src/lib/csv.c:163 | the model's own reader: splits at each comma and drops one following blank; every field it yields is comma-free. It is a simplification of `%f%*[, ]`, which skips any run of commas and blanks |
| Csv.FirstComma | src/lib/csv.c:163 | for `Fields`: the first comma of a joined list ends its first field |
| Csv.FieldsAfterField | src/lib/csv.c:163 | `Fields` of a joined list yields its first field, then the rest |
| Csv.FieldsJoin | src/lib/csv.c:163 | `Fields` of a joined list of comma-free fields gives back the fields |
| Csv.WriteReadsBack | src/lib/csv.c:174-198 | what `csv_file_write` writes reads back through `Fields` as the formatted values, when no formatted value holds a comma |

## Left out

- The device kernels (`prefix_sum.cl`, `kernel_ins_cnt`, `kernel_reindex`, `reduce_kernel` and the others) are not part of this model. Each launch is modelled by the effect its host arguments imply, as a sequential loop. Atomic increments are modelled as fetch-and-add in point order, so the model fixes the order within a bin to input order (`Bucketing.DestStable`). On the device the atomics may hand out a bin's ranks in any other order. That the points are grouped by bin and rearranged without loss (equal multisets) holds for every order, but the contracts state the sequential order only.
- The bin of each point is an input, because `kernel_ins_cnt` computes it on the device from float coordinates.
- Floating point is modelled by `real`. No rounding is modelled, neither in `calc_translation` nor in the comparison margin. `opencl_compare_out_float` takes its `diff > delta` test as a parameter (`mismatch`), so the two margin types are not told apart.
- OpenCL context, queue, program and buffer plumbing is not modelled: timing, events, `clFinish`, `printf`, and resource leaks on the early-return paths. Device discovery in `opencl_create_context` is also left out, apart from its platform and device index check, which is the finding below.
- `clEnqueueFillBuffer` calls whose result is not checked are modelled as succeeding. The errors of `do_prefix_sum` and `do_prefix_sum_post` are ignored by `prefix_sum`.
- PrefixSum.Scan: the only launch modelled as rejected is the single group larger than the device's maximum work-group size W. It leaves the buffer unchanged, and no scan is promised. Every other launch, including the three `do_prefix_sum` and `do_prefix_sum_post` dispatches and their `clSetKernelArg` calls, is assumed to succeed. The multi-group scan promise rests on that assumption; when one of them fails, the source returns `out` with undefined contents.
- PrefixSum.Scan: the exclusive-scan promise is stated only when the launched single group fits the device (elemsCeil / 2 <= W). For elems = 2W + 1 it does not fit; `ScanPlan.SingleGroupOversize` shows this, and nothing is said about out.
- ScanPlan.NextPot: models the 32-bit build only, where `clz` is `__builtin_clz` (src/frnn/prefix_sum.c:35-36). With `__WORDSIZE == 64` the source uses `__builtin_clzl` (lines 33-34); then `31 - clz(in - 1)` is negative for every in <= 2^32 and the shift at line 44 is undefined, so that build is not modelled.
- ScanPlan.NextPot: modelled on 2 <= in <= 2^30 only. `clz(0)` is undefined, and beyond 2^30 the `int` shift overflows.
- PrefixSum.PaddedLength: requires an even element count. That is what both sorts pass (bins_dim^3 padded). For odd counts the padded length can fall one short (`ScanPlan.OddShortfall`).
- Frnn.FrnnSort: the result after a failed `prefix_sum` (`BadPrefix`) is not described. `kernel_reindex` then runs with the (cl_mem)-1 sentinel as its offsets buffer.
- Ndt.NdtSort: the result after a failed `prefix_sum` (`BadPrefix`) is not described. `sorted_entries` then reads an invalid buffer and the count is undefined. The exception is a later failure to create the reindex kernel or the cursor buffer: that returns NULL, and the model says `Failed`.
- Frnn.FrnnSort: requires fewer than 2^32 points and bins inside the grid. The source only warns on large inputs. With more points the 32-bit counters would wrap.
- Ndt.NdtSort: the same two requirements as Frnn.FrnnSort, and more strictly 3 * |bins| < 2^32. `ndt_sort` sizes its output as `3 * *sorted_elems * sizeof(float)` (src/ndt/ndt.c:185-186), and the `unsigned int` product wraps once there are 1431655766 points or more. The buffer is then too short and `kernel_reindex` writes past its end, which is not modelled.
- Frnn.FrnnSort: `frnn_sort` creates `out` with `CL_MEM_READ_ONLY` (src/frnn/frnn.c:152), yet `kernel_reindex` writes to it, which OpenCL leaves undefined (`ndt_sort` uses `CL_MEM_READ_WRITE`, src/ndt/ndt.c:185). The model assumes the writes land, as in `ndt_sort`.
- The order in which `ndt_sort`'s caller uploads the clouds, `ndt_elem_qC` and `ndt_elem_transform` beyond their launch grid, and the other benchmarks are not modelled, because they are outside the shared core.
- Srad.ReduceSchedule: covers one iteration of the outer loop of `main`. The iteration count, the buffer writes, timing, and the `int` overflow of `mul` on deep schedules are not modelled.
- Opencl.ScanUnsigned: models `%u` as blanks, an optional sign and a run of decimal digits, with the value taken modulo 2^32. That is glibc's result on LP64 platforms for numerals below 2^64. A numeral of 2^64 or more saturates there, and so does any numeral of 2^32 or more where `long` has 32 bits; neither case is modelled.
- Csv.CsvFileReadFloatN: requires n >= 1. The source divides by n and has undefined behaviour for n == 0.
- Csv: a file is modelled as the stream of its `fscanf` conversion results. The round trip `Csv.WriteReadsBack` is proved against the model's own ", " splitter `Csv.Fields`, not against `%f%*[, ]`, which also skips leading white space and any run of commas and blanks. `Csv.CsvFileWrite` takes the `%.4f` formatting as a parameter `fmt`. File-system I/O itself is not modelled.
- `bin_file_read` in `src/lib/csv.c` is not part of this model, since it only performs I/O.

## Findings

| source | as written | input that shows it | evidently intended | confidence | as-written member | corrected member |
|---|---|---|---|---|---|---|
| src/lib/opencl.c:158-162 | `c_platforms < state.platform + 1` compares an unsigned count with a signed index that `opencl_parse_option` (line 489) stores from `%u` | `-P -1`: the stored index is -1, `-1 + 1 == 0`, and the check passes; `l_platforms[-1]` is read at line 166. The device check at lines 176-180 behaves the same for `-d -1` | reject every index outside [0, count) | not executed | Opencl.MinusOneIndexPasses | Opencl.SelectIndex |
