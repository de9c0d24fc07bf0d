# seqnet guide tree and matrix reader, in Dafny

This project models two C files of seqnet:

- `src/bisectingKmeans.c` builds a guide tree over sequences. Its driver runs `bisecting_kmeans`, a recursive randomized 2-means split over an anchor-distance embedding, and then exits (line 140). The two calls of `merge_clusters` before that are commented out (lines 128 and 135), and nothing calls `upgma`. The model therefore treats two more parts of the file as standalone units:
  - the merge pass `merge_clusters`/`test_for_merge`, which collapses a node's children into one leaf when two of their sequences are within an edit-distance threshold;
  - `upgma`, which builds a tree by repeated average-linkage joins on a full distance matrix.
- `src/matrix_io.c` handles the `double_matrix` container. The model covers:
  - allocation, transposition and the two random fills (row shuffle, and copy-then-shuffle controls);
  - the token classifier `analyze_token`;
  - the first pass of `read_double_matrix`, which sizes the file;
  - the column-name de-duplication at the end of the reader.

Modules:

- `Numbers`: float sentinels. NaN and FLT_MAX sit beside the finite values, with C's `<` on them.
- `Random`: the random number generator, modelled as a fixed stream of draws (`Rng`: the draw function and a count of draws used).
- `Kmeans`: bisecting k-means as functions. These are the mean, the mirrored second centroid, one Lloyd pass, the Lloyd loop, the 50 attempts and the recursion.
- `Bisecting`: the C procedure as methods over arrays. Each method is proved equal to the `Kmeans` function it implements.
- `KmeansProperties`: what the tree is. It partitions the samples. The kept attempt is the earliest lowest score. Identical rows give a leaf.
- `GuideTree`: `struct node` as a class, its value as a datatype, and the merge pass.
- `Upgma`: the UPGMA join loop on a distance `array2` and an activity array. The loop is proved equal to `UpgmaRun`, the same rounds written as functions on values.
- `MatrixIo`: the `DoubleMatrix` class with allocation, `Transpose`, `Shuffle`, `FillRandom`, and duplicate detection and renaming. It also holds the name functions and the Fisher–Yates specification `Shuffled`.
- `MatrixScan`: `analyze_token`, plus the reader's first pass as a character state machine. Its result is related to the lines and fields of the text.

Floats are `real`s. A NaN centroid (the mean of an empty side) is modelled explicitly, because it decides the convergence test. `edist` and `bpm_256` are uninterpreted function parameters.

## Model

| member | source | states |
|---|---|---|
| Numbers.Min | src/bisectingKmeans.c:373 | MACRO_MIN of two floats is one of them and, on numbers, no larger than either |
| Numbers.Plus | src/bisectingKmeans.c:373 | the accumulated score stays a number exactly when both addends are numbers (NaN absorbs) |
| Numbers.LessOrder | src/bisectingKmeans.c:427 | `<` on non-NaN floats (FLT_MAX included) is asymmetric and transitive, and its negation is transitive |
| Random.Rng.RandomInt | src/bisectingKmeans.c:316 | tl_random_int returns the next draw of the stream, below its bound, and consumes one draw |
| Random.Rng.RandomIntZeroToX | src/matrix_io.c:814 | random_int_zero_to_x(x) returns the next draw in 0..x and consumes one draw |
| Kmeans.PaddedAnchors | src/bisectingKmeans.c:275-279 | num_var is the least multiple of 8 not below the anchor count |
| Kmeans.Mirror | src/bisectingKmeans.c:325-328 | cr is the reflection of cl through the mean w, coordinate by coordinate |
| Kmeans.PassWith | src/bisectingKmeans.c:364-389 | placing one sample adds it to exactly one side and keeps both side sums at anchor width |
| Kmeans.LloydPass | src/bisectingKmeans.c:355-394 | a pass splits the samples into two sides whose multisets add up to the input; with finite centroids the score is finite |
| Kmeans.PassIsStablePartition | src/bisectingKmeans.c:364-383 | sl and sr are, in input order, exactly the samples with `!(dr < dl)` and `dr < dl` |
| Kmeans.PassSidesAgreeWithDistances | src/bisectingKmeans.c:375-383 | every sample in sr is closer to cr, and every sample in sl is not |
| Kmeans.Lloyd | src/bisectingKmeans.c:350-421 | a converged loop splits the samples into two non-empty sides and has not reached the 10000-pass cap |
| Kmeans.Attempt | src/bisectingKmeans.c:293-422 | a completed attempt splits the samples, has a finite score and used more passes |
| Kmeans.Trials | src/bisectingKmeans.c:293-432 | the attempts of a call are chained through the pass counter, and there are 50 when none stops early |
| Kmeans.PickOutcome | src/bisectingKmeans.c:423-431 | the kept result splits the samples and is finite once an attempt completed; a degenerate draw ends the call |
| Kmeans.Search | src/bisectingKmeans.c:288-432 | a chosen result splits the samples after exactly 50 draws; a degenerate one stops at the draw that found it |
| Bisecting.KmeansResultBuffer.constructor | src/bisectingKmeans.c:554-568 | a fresh result has two sample buffers of num_samples entries and score FLT_MAX |
| Bisecting.AllocKmeansResult | src/bisectingKmeans.c:554-572 | returns NULL exactly when num_samples is 0, else a fresh empty result |
| Bisecting.IdentitySamples | src/bisectingKmeans.c:107-110 | samples[i] == i for every sequence |
| Bisecting.MeanOf | src/bisectingKmeans.c:298-315 | the buffer holds the mean of the samples' rows |
| Bisecting.Differs | src/bisectingKmeans.c:332-340 | the loop's flag is set iff some coordinate of cl and cr differs by more than 1e-6 |
| Bisecting.Moved | src/bisectingKmeans.c:396-408 | the flag is set iff a new centroid differs from the old one under `!=` (a NaN centroid always differs) |
| Bisecting.PlaceSample | src/bisectingKmeans.c:364-388 | the arrays after one sample hold the pass extended by that sample |
| Bisecting.RunPass | src/bisectingKmeans.c:355-394 | the side arrays, counts, sums and score hold the Lloyd pass of the samples |
| Bisecting.PassAndTest | src/bisectingKmeans.c:355-408 | one pass plus the new centroids and the movement test, as the spec functions give them |
| Bisecting.RunLloyd | src/bisectingKmeans.c:350-421 | the loop's sides, score and pass count are the `Lloyd` result, or it reports the cap |
| Bisecting.RunAttempt | src/bisectingKmeans.c:294-425 | one attempt consumes one draw and leaves `Attempt`'s result in res_tmp |
| Bisecting.TryOne | src/bisectingKmeans.c:293-431 | one attempt, then the keep-if-strictly-lower swap of best and res_tmp, advances the bookkeeping by one attempt |
| Bisecting.SearchBest | src/bisectingKmeans.c:288-432 | the attempt loop returns `Search` of the current draw position and leaves the stream after the last draw used |
| Bisecting.NewLeaf | src/bisectingKmeans.c:268-272 | a fresh leaf node holding the samples |
| Bisecting.BisectingKmeans | src/bisectingKmeans.c:240-460 | returns NULL iff `Split` fails, else a fresh tree equal to `Split`'s tree, having used exactly its draws |
| Bisecting.BuildSides | src/bisectingKmeans.c:449-455 | left then right recursion, on disjoint fresh subtrees, with draws threaded left to right |
| KmeansProperties.BaseCase | src/bisectingKmeans.c:268-273 | below 1000 samples the result is a leaf and no draw is used |
| KmeansProperties.SplitPartitions | src/bisectingKmeans.c:240-460 | a built tree keeps the samples at its root, and every internal node shares its samples exactly between its children |
| KmeansProperties.WholeTreePartition | src/bisectingKmeans.c:107-121 | from the identity samples, the leaves hold every sequence exactly once |
| KmeansProperties.PickIsFirstMinimum | src/bisectingKmeans.c:427-431 | the kept result is a first minimum of the scores, strict `<` keeping the earlier one |
| KmeansProperties.BestIsFirstMinimum | src/bisectingKmeans.c:293-432 | a chosen result comes from 50 completed attempts and is the earliest one with the lowest score |
| KmeansProperties.DegenerateMeansNearMean | src/bisectingKmeans.c:332-342 | the degenerate test passes iff the drawn row is within half the tolerance of the mean in every coordinate |
| KmeansProperties.IdenticalRowsGiveLeaf | src/bisectingKmeans.c:332-347 | when all rows are equal the call returns a leaf of all the samples after one draw (none below 1000) |
| GuideTree.PairDistance | src/bisectingKmeans.c:196-199 | the distance is the larger directed bpm_256 value, reduced to a uint8_t |
| GuideTree.Collapse | src/bisectingKmeans.c:183-224 | test_for_merge keeps the node's id and either changes nothing or leaves a leaf |
| GuideTree.CollapseKeepsSamples | src/bisectingKmeans.c:207-214 | a collapse keeps the partition property, the node's samples and the samples below it |
| GuideTree.CollapseIdempotent | src/bisectingKmeans.c:183-224 | testing a node twice is the same as testing it once |
| GuideTree.MergeSkipsRightSubtree | src/bisectingKmeans.c:156-158 | once a node keeps a left child, merge_clusters returns from the left recursion and never visits the right subtree |
| GuideTree.MergeKeepsPartition | src/bisectingKmeans.c:152-168 | a merge pass keeps the partition property, the root's samples and the samples below it |
| GuideTree.MergeIdempotent | src/bisectingKmeans.c:152-168 | a second merge pass changes nothing |
| GuideTree.Node.constructor | src/bisectingKmeans.c:539-551 | alloc_node: no children, no samples, id -1 |
| GuideTree.FindClosePair | src/bisectingKmeans.c:190-226 | the double loop finds a pair iff some left sample and right sample are within the threshold |
| GuideTree.TestForMerge | src/bisectingKmeans.c:170-235 | the node's new value is `Collapse` of its old value |
| GuideTree.MergeClusters | src/bisectingKmeans.c:152-168 | the node's new value is `MergePass` of its old value, touching only nodes it already owned |
| Upgma.FullJoins | src/bisectingKmeans.c:476 | a full binary tree over n leaves has n - 1 joins, the count cnode runs through |
| Upgma.MergeKeepsIds | src/bisectingKmeans.c:505-516 | joining two active slots keeps the multiset of leaf ids of the forest |
| Upgma.CountMerge | src/bisectingKmeans.c:515-517 | a join lowers the number of active slots by one |
| Upgma.MergeKeepsForest | src/bisectingKmeans.c:505-517 | a join keeps the forest invariant with one live cluster fewer |
| Upgma.LastCluster | src/bisectingKmeans.c:531 | the last active slot holds a full tree over all samples |
| Upgma.FirstMinimumUnique | src/bisectingKmeans.c:491-504 | the first minimal active pair in scan order is unique |
| Upgma.EarliestOf | src/bisectingKmeans.c:491-504 | a non-empty set of active pairs has one that comes first by distance and then by row-major order |
| Upgma.FirstMinimumExists | src/bisectingKmeans.c:491-504 | with at least two active slots, a first minimal active pair exists |
| Upgma.FindClosestPair | src/bisectingKmeans.c:491-504 | the scan returns an active pair with the smallest distance in the matrix, the first in row-major order among equals (strict `<` from FLT_MAX) |
| Upgma.MergedDistances | src/bisectingKmeans.c:519-529 | the joined row and column are the average of the two old rows, its diagonal is 0, and everything else is unchanged |
| Upgma.MergedSymmetric | src/bisectingKmeans.c:519-529 | the distance update keeps a symmetric matrix symmetric |
| Upgma.AverageRows | src/bisectingKmeans.c:519-529 | the array after the update is `Merged` of the array before |
| Upgma.UpdateDistances | src/bisectingKmeans.c:519-529 | the distance update leaves the matrix `Merged` of the old one, and keeps a symmetric matrix symmetric |
| Upgma.MergedStays | src/bisectingKmeans.c:519-529 | when the averages equal the distances already there, the update leaves a symmetric matrix unchanged |
| Upgma.Closest | src/bisectingKmeans.c:491-504 | the pair a round on values joins is a first minimal active pair |
| Upgma.Rounds | src/bisectingKmeans.c:490-529 | rounds on values keep the matrix square, the slot arrays' lengths, and the last join's slot in range |
| Upgma.UpgmaRun | src/bisectingKmeans.c:476-531 | upgma on values runs numseq - 1 rounds from one leaf per sample; the last join's slot is a valid slot |
| Upgma.RoundStep | src/bisectingKmeans.c:490-529 | k rounds are the join of the one first minimal pair (a into slot a, as[a] = cnode + 1, as[b] = 0, rows averaged) followed by k - 1 rounds |
| Upgma.RoundsKeepForest | src/bisectingKmeans.c:490-531 | the rounds keep the forest invariant and end with one active cluster, in the last join's slot |
| Upgma.UpgmaTreeSpans | src/bisectingKmeans.c:462-537 | the tree upgma on values returns is a full binary tree with every sample once as a leaf id and numseq - 1 joins |
| Upgma.FourPointsStay | src/bisectingKmeans.c:519-529 | on four points with AB = 1, CD = 2 and every other distance 4, joining A with B or C with D leaves the distances as they were |
| Upgma.FourPointsMinima | src/bisectingKmeans.c:491-504 | on those four points the scan settles on (A, B), then (C, D), then the two joined slots |
| Upgma.FourPointsTree | src/bisectingKmeans.c:462-537 | on those four points upgma returns ((A, B), (C, D)) |
| Upgma.InitActive | src/bisectingKmeans.c:478-481 | as[i] == i + 1 for every slot |
| Upgma.InitLeaves | src/bisectingKmeans.c:483-488 | one leaf per sample, with the sample as id |
| Upgma.JoinSlots | src/bisectingKmeans.c:505-517 | slot a takes the join of slots a and b and the new node number, slot b is emptied and retired, and nothing else changes |
| Upgma.Round | src/bisectingKmeans.c:490-529 | one round picks the first minimal active pair of the old matrix, and leaves as, tree and dm as the round on values does: join into a, as[a] = id (upgma passes cnode + 1), as[b] = 0, rows averaged |
| Upgma.MergeLoop | src/bisectingKmeans.c:490-531 | the loop leaves dm, as and tree as numseq - 1 rounds on values do, and returns the tree in the last join's slot |
| Upgma.Upgma | src/bisectingKmeans.c:462-537 | the root and the final matrix are those of `UpgmaRun` on the input matrix; the root is a full binary tree with every sample once as a leaf id and n - 1 joins, a single sample gives a leaf, and a symmetric matrix stays symmetric |
| MatrixIo.DoubleMatrix.constructor | src/matrix_io.c:749-799 | alloc_double_matrix: zero matrix of the given shape, labels 1, empty names, real_sample = ncol |
| MatrixIo.DoubleMatrix.Transpose | src/matrix_io.c:46-74 | t[i][j] == m[j][i]; names swap sides, truncated to BUFFER_LEN - 1; all labels 1 |
| MatrixIo.Shuffled | src/matrix_io.c:829-834 | the Fisher–Yates pass as a function of the draws keeps the row's length |
| MatrixIo.ShuffledPermutes | src/matrix_io.c:829-834 | a Fisher–Yates pass is a permutation of the row |
| MatrixIo.ShufflePass | src/matrix_io.c:813-818 | the swap loop applies `Shuffled` to one slice of a row, using one draw per swap, and leaves the rest alone |
| MatrixIo.DoubleMatrix.Shuffle | src/matrix_io.c:824-837 | every row becomes its own Fisher–Yates shuffle with consecutive draws, so it is a permutation of the old row |
| MatrixIo.FilledControls | src/matrix_io.c:806-818 | the real block stays as it was, and the control block is a permutation of it |
| MatrixIo.FillRow | src/matrix_io.c:807-818 | one row becomes `Filled`: copy the reals to the controls, then shuffle the controls |
| MatrixIo.DoubleMatrix.FillRandom | src/matrix_io.c:801-821 | every row is `Filled` with consecutive draws, and each row's controls are a permutation of its reals |
| MatrixIo.Truncate | src/matrix_io.c:737-738 | snprintf into `cap` characters keeps a prefix of at most cap, and the whole string when it fits |
| MatrixIo.DecimalRoundTrip | src/matrix_io.c:737 | the `%d` digits of n read back as n |
| MatrixIo.DecimalInjective | src/matrix_io.c:737 | two column numbers with the same `%d` text are equal |
| MatrixIo.Renamed | src/matrix_io.c:737-738 | a renamed column is shorter than the buffer, and is `name_<i+1>` exactly when that fits |
| MatrixIo.Deduped | src/matrix_io.c:722-740 | names are untouched without a duplicate, and otherwise every name is renamed by its position |
| MatrixIo.RenamedDistinct | src/matrix_io.c:737 | two columns renamed at different positions get different names when neither is cut |
| MatrixIo.DedupedDistinct | src/matrix_io.c:722-740 | after de-duplication no two names are equal when every renamed name fits |
| MatrixIo.ReadNamesDistinct | src/matrix_io.c:597-598 | with the reader's width (longest entry + 10) and fewer than 10^8 columns, the names after de-duplication are pairwise distinct |
| MatrixIo.DoubleMatrix.HasDuplicateNames | src/matrix_io.c:722-733 | the nested scan reports a hit iff two of the first ncol names are equal |
| MatrixIo.DoubleMatrix.RenameColumns | src/matrix_io.c:735-740 | each column name becomes `Renamed` of itself at its position, and the rest are untouched |
| MatrixIo.DoubleMatrix.DedupColumnNames | src/matrix_io.c:722-740 | the first ncol names become `Deduped` of the old names, and the rest are untouched |
| MatrixScan.ClassesDisjoint | src/matrix_io.c:514-521 | no character is both a letter and a digit, so the two counts never exceed the length |
| MatrixScan.CountsAppend | src/matrix_io.c:514-521 | letter and digit counts add up over concatenation |
| MatrixScan.AnalyzeToken | src/matrix_io.c:507-529 | the result is 0 iff the token has more digits than letters, and otherwise 1 |
| MatrixScan.ReadLen | src/matrix_io.c:548 | the scan stops at the first NUL character, or at the end of the text |
| MatrixScan.ScanShape | src/matrix_io.c:547-593 | the character loop returns `ScanText`: separator error, uneven rows, or the size |
| MatrixScan.RunMeaning | src/matrix_io.c:548-591 | the state after a prefix fails iff two entry-ending characters (tab, comma or newline) are adjacent; otherwise its counters are the lines, fields and longest token of the prefix |
| MatrixScan.StepMeaning | src/matrix_io.c:549-587 | one character of the switch fails exactly on a second entry-ending character in a row, and otherwise keeps the variables describing the text read so far |
| MatrixScan.FailureSticks | src/matrix_io.c:556-567 | once two entry-ending characters (tab, comma or newline) have met, the scan fails whatever follows |
| MatrixScan.LinesAreNewlines | src/matrix_io.c:580 | the row count is the number of newlines |
| MatrixScan.MaxFieldsIsMax | src/matrix_io.c:574-576 | max_columns bounds every line's field count and is reached by one |
| MatrixScan.MinFieldsIsMin | src/matrix_io.c:577-579 | min_columns is below every line's field count and is reached by one |
| MatrixScan.MaxLenIsMax | src/matrix_io.c:551-561 | longest_entry bounds every token's length and is reached by one |
| MatrixScan.MultipleIffDoubled | src/matrix_io.c:556-567 | the reader fails with "Multiple" iff two entry-ending characters (tab, comma or newline) are adjacent before the first NUL |
| MatrixScan.SizedIffRectangular | src/matrix_io.c:547-593 | the scan succeeds iff the text before the first NUL has no empty field (no two adjacent entry-ending characters), at least one line, and the same field count on every line; the size is those fields by the newline count |
| MatrixScan.LongestEntry | src/matrix_io.c:550-597 | on success the width is 10 more than the longest token, counting the trailing token only when the text ran to EOF |

## Left out

- File I/O: `fopen`, `rewind`, `fclose` and the character source become a `seq<char>`. A NUL character ends the first pass, as `while((c = fgetc(file)))` does.
- The second pass of `read_double_matrix` (the `atof` parsing of cells, the name copies and the row trimming) is not part of this model. Only its first pass and its closing de-duplication are.
- Memory: allocation failure (`MMALLOC`, `_mm_malloc`), `free`, `free_double_matrix` and `free_kmeans_results` are not modelled. Allocations always succeed, except that `alloc_kmeans_result` returns NULL on zero samples.
- Floats are modelled as exact reals, with NaN and FLT_MAX as explicit sentinels. Single-precision rounding is not modelled.
- `edist_256`/`edist_serial` and `bpm_256` are opaque function parameters. The AVX and serial variants are not distinguished.
- The random number generator is a fixed stream of draws. Its state, seeding and distribution are not modelled. The functions only require each draw to lie in range.
- `BUFFER_LEN` is not defined in the modelled files, so it is the parameter `bufLen` of `Transpose`.
- `isalpha`/`isdigit` are modelled for the C locale: ASCII letters and digits.
- Upgma.Upgma: the nodes are `Tree` values in an `array<Tree>`, not heap nodes. No node is mutated after it is linked or shared, so the identity of nodes is not captured.
- Upgma.FindClosestPair: distances are `real`s, so no NaN, infinity or value at or above FLT_MAX occurs, and every active pair beats the starting FLT_MAX. The C path where no pair does cannot occur in the model: there `node_a` and `node_b` keep their stale values, and in the first round `tree[0]` is joined with itself and then set to NULL (lines 491-511).
- Kmeans.PaddedAnchors: stands alone. The model's centroids have the anchor width. The C buffers are padded to `num_var` lanes, but every loop over them stops at `num_anchors` except the zeroing of `w` (lines 298-301), so the padding lanes enter no result.
- Upgma.Upgma: requires at least one sample. With none, `cnode` never reaches `numprofiles` (-1), and the loop reads `tree[0]` of an empty array.
- GuideTree.MergeClusters: the `RUN` error exits of `test_for_merge` cannot occur in the model (no allocation fails), so the pass always completes.
- MatrixIo.DoubleMatrix.FillRandom: requires `2 * real_sample <= ncol`. The C code writes past the row otherwise. Its callers are not part of this model.
- MatrixIo.DoubleMatrix.HasDuplicateNames: requires that no two names from row `real_sample + 1` on are equal. After a hit the scan sets `i = real_sample`, and the outer `i++` resumes it at row `real_sample + 1`. So a hit at or before row `real_sample` moves the scan forward. A hit after that row sends the scan back to the same row, where it finds the same pair again and never ends. The reader always meets this requires, since its `real_sample` is `max_columns`, at least `ncol`.
- MatrixIo.DoubleMatrix.DedupColumnNames: carries the same requires, for the same reason.
- MatrixScan.MinFieldsIsMin: requires every line's field count to be at most INT32_MAX. The C counter `cur_columns` is a 32-bit `int` and is not modelled with wrap-around.
- MatrixScan.SizedIffRectangular: carries the same INT32_MAX bound on field counts, for the same reason.
- The 32-bit `int` counters (`nrows`, `longest_entry`, `n`) are unbounded naturals. Overflow on inputs over 2^31 characters is not modelled.
- `detect_outlier_rc`, `alloc_rc_prop`, `analyze_data_file`, `fill_double_matrix`, `read_dm`, `print_double_matrix`, `build_tree_kmeans`, `label_internal` and `printTree` are outside the modelled core. So are `src/run_seqnet.c` and `src/parameters.c`.
- Logging (`LOG_MSG`, timers) is not modelled.
