# Odd-even transposition sort, modelled in Dafny

This project models a small C code base that sorts `int` arrays by odd-even
transposition sort and records benchmark results in CSV files:

- the serial program (`odd_even_serial.c`) and its helpers in `utils.h`
  (random fill, sortedness check);
- the shared-memory program (`odd_even_openmp.c`), whose phases run their
  compare-and-swaps in a parallel `for`;
- the distributed program (`odd_even_mpi.c`): it splits the array into
  uneven blocks over `size` ranks (`sendcounts`, `displs`), runs the phase
  loop on every rank, trades one boundary value per phase with a partner
  rank, and gathers the blocks again;
- the serial benchmark (`odd_even_serial_benchmark.c`), which sorts arrays
  of five fixed sizes and writes one CSV line per size;
- the CSV helpers (`csv_utils.h`), which create the file's directory and
  append one result row, writing the header first when the file is new.

Modules, one concept each:

- `OddEvenSpec` (odd_even_spec.dfy): what one phase does to a sequence
  (`Phase`), k phases (`Phases`), the whole serial sort (`SerialSort`).
  It also holds compare-and-swap of one pair and the proof that a phase's
  pairs are disjoint, so running them in any order gives the same result.
- `SortCorrectness` (sort_correctness.dfy): n phases sort n values and
  permute them. The proof uses the 0-1 principle and an invariant on 0-1
  sequences.
- `ArrayUtils` (utils.dfy): `generate_random_array` and `is_sorted` as
  array methods. C's `%` is written out as a remainder truncated toward
  zero.
- `SerialKernels` (serial.dfy): `swap`, the two phase loops, the sort and
  `main` as array methods proved against `OddEvenSpec`. The sort in the
  benchmark file and in the distributed file have the same code as this
  one apart from comments, so this one model covers all three.
- `SharedMemorySort` (openmp.dfy): each parallel `for` runs its pairs in an
  arbitrary order, given as a schedule parameter.
- `BlockLayout` (mpi_layout.dfy): block sizes and displacements, the loop
  that fills `sendcounts`/`displs`, and scatter and gather as slicing and
  concatenation.
- `DistributedPhases` (mpi_phases.dfy): the distributed phase loop as
  written, simulated over the blocks of all ranks. A phase in which a rank
  with an empty block has a partner reads outside its block; the model
  reports that as `None`.
- `CorrectedDistributedSort` (mpi_corrected.dfy): the loop with global
  index parity, proved to do exactly what the serial sort does.
- `Text` (text.dfy): splitting and joining at a separator, and the
  rendering and reading back of `%d` and `%.Nf` numbers.
- `CsvResults` (csv.dfy): the CSV helpers over a file system reduced to
  file texts and a set of directories.
- `SerialBenchmark` (benchmark.dfy): the benchmark's `main`.

Environment effects are parameters:

- `rand()` values;
- whether `strdup`, `mkdir` and `fopen` succeed, and whether the benchmark's `malloc` does;
- measured times, given as their values rounded to the printed decimals.

## Model

| member | source | states |
|---|---|---|
| OddEvenSpec.Phase | odd_even_serial.c:16-29 | one phase keeps the number of cells |
| OddEvenSpec.PhaseOrdersPairs | odd_even_serial.c:16-29 | after phase t every pair (q, q+1) with q of t's parity is in order: (i-1, i) for odd i after an even phase, (i, i+1) after an odd one |
| OddEvenSpec.PhaseParity | odd_even_serial.c:16 | a phase depends only on whether its number is even or odd |
| OddEvenSpec.PhasesNext | odd_even_serial.c:14-31 | k+1 phases are phase k applied after the first k |
| OddEvenSpec.Phases | odd_even_serial.c:14-31 | the phase loop keeps the number of cells |
| OddEvenSpec.CompareSwap | odd_even_serial.c:19-20 | one compare-and-swap leaves (min, max) in the pair and changes no other cell |
| OddEvenSpec.CompareSwapPermutes | odd_even_serial.c:7-11 | a compare-and-swap keeps the multiset of values |
| OddEvenSpec.CompareSwapsCommute | odd_even_openmp.c:18-30 | two different pairs of the same phase share no cell, so their compare-and-swaps commute |
| OddEvenSpec.ApplyPairs | odd_even_openmp.c:19-23 | compare-and-swapping pairs in any listed order keeps the length and the multiset of values |
| OddEvenSpec.ApplyPairsAt | odd_even_openmp.c:18-30 | after distinct pairs of one phase, in any order, each cell holds the value fixed by its own pair alone |
| OddEvenSpec.ApplyPairsIsPhase | odd_even_openmp.c:18-30 | running all pairs of a phase once each, in any order, gives exactly that phase |
| OddEvenSpec.PhasePairs | odd_even_openmp.c:19-26 | the loop indices of a phase list each of its pairs exactly once |
| OddEvenSpec.PairsFrom | odd_even_serial.c:18 | stepping i by 2 visits every index of the same parity inside the array, in increasing order |
| OddEvenSpec.PhasePermutes | odd_even_serial.c:16-29 | a phase keeps the multiset of values |
| OddEvenSpec.PhasesPermute | odd_even_serial.c:13-32 | the sort returns a permutation of its input |
| OddEvenSpec.PhaseFixesSorted | odd_even_serial.c:19 | the comparisons are strict, so a phase leaves a sorted array unchanged |
| OddEvenSpec.PhasesFixSorted | odd_even_serial.c:13-32 | the sort leaves a sorted array unchanged |
| OddEvenSpec.Prefix | utils.h:45 | the first n cells, none when n is not positive |
| OddEvenSpec.Rest | utils.h:32 | the cells from n on; with the first n they give back the array |
| SortCorrectness.ThresholdPhase | odd_even_serial.c:16-29 | a phase commutes with replacing every value by "is it above v" (0-1 principle) |
| SortCorrectness.ThresholdPhases | odd_even_serial.c:14-31 | k phases commute with the same thresholding |
| SortCorrectness.PhasesOnTrack | odd_even_serial.c:14-31 | on a 0-1 array after k phases, each 1, the j-th from the right, is home (at n - j) or sits at k - j or further right, and once j <= k it sits on a cell of the next phase's parity |
| SortCorrectness.ZeroOneSorted | odd_even_serial.c:13-32 | n phases sort every 0-1 array of n cells |
| SortCorrectness.SerialSortSorts | odd_even_serial.c:13-32 | n phases sort every array of n cells |
| SortCorrectness.SerialSortCorrect | odd_even_serial.c:13-32 | the sort's result is non-decreasing and a permutation of its input |
| ArrayUtils.CRem | utils.h:33 | C's `%`: non-negative below the bound for a non-negative dividend, sign of the dividend otherwise |
| ArrayUtils.Generated | utils.h:28-35 | the fill writes n values, the i-th being the i-th `rand()` value modulo max_val, all in [0, max_val) when `rand()` is non-negative |
| ArrayUtils.GenerateRandomArray | utils.h:28-35 | cells 0..n-1 receive the generated values and every later cell is unchanged |
| ArrayUtils.IsSorted | utils.h:44-51 | returns 1 exactly when every adjacent pair of the first n cells is in order (so for n <= 1), 0 otherwise, and writes nothing |
| SerialKernels.Swap | odd_even_serial.c:7-11 | exchanges exactly the two cells and keeps the multiset |
| SerialKernels.EvenPhase | odd_even_serial.c:16-22 | the even-phase loop leaves exactly `Phase(old, 0)` |
| SerialKernels.OddPhase | odd_even_serial.c:23-29 | the odd-phase loop leaves exactly `Phase(old, 1)` |
| SerialKernels.SinglePhase | odd_even_mpi.c:35-49 | `single_phase_odd_even` leaves exactly `Phase(old, phase)` |
| SerialKernels.OddEvenSortSerial | odd_even_serial.c:13-32 | the sort leaves exactly n phases of its input, which is sorted and a permutation |
| SerialKernels.SerialMain | odd_even_serial.c:36-77 | a wrong argument count gives status 1; otherwise status 0 and the final check reports the array sorted |
| SharedMemorySort.CompareSwapCells | odd_even_openmp.c:20-22 | one iteration's compare-and-swap of cells q and q+1 |
| SharedMemorySort.ParallelPhase | odd_even_openmp.c:17-31 | whatever order the threads run the phase's pairs in, the result is exactly that phase |
| SharedMemorySort.OddEvenSortOpenMPStatic | odd_even_openmp.c:12-34 | for any thread count and schedule the result equals the serial sort's |
| SharedMemorySort.OpenMPMain | odd_even_openmp.c:59-97 | a wrong argument count gives status 1; otherwise status 0 and the final check reports the array sorted |
| BlockLayout.Counts | odd_even_mpi.c:81-82 | one count per rank |
| BlockLayout.CountIsLocalN | odd_even_mpi.c:70-82 | `sendcounts[r]` equals rank r's own `local_n` |
| BlockLayout.LocalNBalanced | odd_even_mpi.c:68-70 | block sizes do not grow with the rank and differ by at most 1 |
| BlockLayout.LocalNEmpty | odd_even_mpi.c:68-70 | rank r's block is empty exactly when n <= r |
| BlockLayout.OffsetMonotone | odd_even_mpi.c:83-84 | displacements never decrease |
| BlockLayout.DisplFormula | odd_even_mpi.c:80-85 | `displs[r] = r * (n / size) + min(r, n % size)` |
| BlockLayout.DisplEnd | odd_even_mpi.c:80-85 | the running displacement ends at n, so the block sizes sum to n |
| BlockLayout.EmptyBlockAtEnd | odd_even_mpi.c:68-85 | an empty block starts at n |
| BlockLayout.CountsEmptyOnlyAtEnd | odd_even_mpi.c:81-82 | after an empty block every later block is empty |
| BlockLayout.EmptyTail | odd_even_mpi.c:83-84 | blocks from an empty one on all start where it starts |
| BlockLayout.Offsets | odd_even_mpi.c:83 | the k-th displacement is the sum of the first k counts |
| BlockLayout.ComputeLayout | odd_even_mpi.c:78-85 | the loop fills `sendcounts` with the block sizes and `displs` with their running sums |
| BlockLayout.BlockOf | odd_even_mpi.c:119-121 | the block `MPI_Scatterv` sends to rank r has `sendcounts[r]` cells |
| BlockLayout.ScatterBy | odd_even_mpi.c:119-121 | scattering gives one block per count, of that length |
| BlockLayout.Scatter | odd_even_mpi.c:119-121 | the scattered blocks have the layout of n values over `size` ranks |
| BlockLayout.GatherLength | odd_even_mpi.c:168-170 | gathering the first r blocks gives `displs[r]` values |
| BlockLayout.GatherPrefix | odd_even_mpi.c:168-170 | gathering fewer blocks gives a prefix of gathering more |
| BlockLayout.Locate | odd_even_mpi.c:168-170 | cell i of block r lands at `displs[r] + i` |
| BlockLayout.GatherScatterPrefix | odd_even_mpi.c:119-121 | the first r scattered blocks are the array up to `displs[r]` |
| BlockLayout.GatherScatter | odd_even_mpi.c:168-170 | gathering the scattered blocks gives the array back |
| BlockLayout.ScatterByGather | odd_even_mpi.c:119-121 | scattering gathered blocks by their counts gives the blocks back |
| BlockLayout.BlockOfGather | odd_even_mpi.c:119-121 | block r of the gathered array is block r |
| BlockLayout.ScatterGather | odd_even_mpi.c:119-121 | blocks with the layout of n values are the scatter of their gathering |
| DistributedPhases.Partner | odd_even_mpi.c:131-136 | the partner differs from the rank by 1, and is the higher neighbour exactly when the rank has the phase's parity |
| DistributedPhases.PartnerOfPartner | odd_even_mpi.c:131-136 | the partner of the partner is the rank itself |
| DistributedPhases.PartnerSymmetric | odd_even_mpi.c:138 | a rank's partner inside the communicator has that rank as its partner |
| DistributedPhases.SendValue | odd_even_mpi.c:140-145 | the lower rank sends its last value, the higher its first; none exists when the block is empty |
| DistributedPhases.PhaseFailsWhenSendMissing | odd_even_mpi.c:138-145 | a phase fails exactly when some rank with a partner has no value to send |
| DistributedPhases.Absorb | odd_even_mpi.c:153-157 | the lower rank's last cell becomes the minimum, the higher rank's first cell the maximum, of the two boundary values; no other cell changes |
| DistributedPhases.ExchangeKeepsValues | odd_even_mpi.c:139-157 | a boundary exchange keeps the multiset of the two blocks' values |
| DistributedPhases.LocalPhases | odd_even_mpi.c:130 | the local phase keeps every block's length |
| DistributedPhases.RankAfter | odd_even_mpi.c:138-157 | the rank absorbs the value its partner sends, and the exchange keeps its block length |
| DistributedPhases.PhaseAsWritten | odd_even_mpi.c:129-159 | a phase fails exactly when a rank with a partner has an empty block, and otherwise keeps the number of ranks |
| DistributedPhases.PhaseAsWrittenShape | odd_even_mpi.c:129-159 | a phase keeps every block's length |
| DistributedPhases.PhaseAsWrittenAt | odd_even_mpi.c:130-157 | a rank's block after a phase is its local phase followed by the trade with its partner |
| DistributedPhases.ExchangeAllTrades | odd_even_mpi.c:138-157 | the exchange trades values only within partner pairs and leaves unpartnered ranks alone |
| DistributedPhases.LocalPhasesKeepValues | odd_even_mpi.c:130 | the local phases keep the values of the blocks |
| DistributedPhases.PhaseAsWrittenPermutes | odd_even_mpi.c:129-159 | a phase keeps the multiset of all blocks' values |
| DistributedPhases.RunAsWrittenShape | odd_even_mpi.c:129-159 | the loop keeps every block's length |
| DistributedPhases.RunKeepsValues | odd_even_mpi.c:129-159 | the loop keeps the values held by all blocks |
| DistributedPhases.RunAsWrittenPermutes | odd_even_mpi.c:129-170 | the gathered result is a permutation of the gathered input |
| DistributedPhases.GatherValues | odd_even_mpi.c:168-170 | the gathered array holds the values of all blocks |
| DistributedPhases.SortAsWrittenDefined | odd_even_mpi.c:119-170 | with at least as many values as ranks the run never fails and returns a permutation of the input |
| DistributedPhases.NeverFails | odd_even_mpi.c:138-145 | with no empty block no phase fails |
| DistributedPhases.EmptyRankAt | odd_even_mpi.c:68-70 | with 0 < n < size, rank n gets no values |
| DistributedPhases.SortAsWrittenFails | odd_even_mpi.c:138-145 | with 0 < n < size some rank with an empty block gets a partner, so the loop reads outside a block |
| DistributedPhases.FirstPhaseGoesThrough | odd_even_mpi.c:138-145 | for even n and size = n + 1 the first phase does not fail |
| DistributedPhases.SecondPhaseFails | odd_even_mpi.c:138-145 | for even n and size = n + 1 the second phase fails |
| DistributedPhases.AsWrittenCounterexample | odd_even_mpi.c:129-159 | the loop as written turns [1, 2, 3, 0] over 3 ranks into the unsorted [1, 0, 2, 3] |
| CorrectedDistributedSort.LocalBlockIsPhase | odd_even_mpi.c:130 | the corrected local phase is the phase with the global parity `phase + displs[rank]` |
| CorrectedDistributedSort.CorrectedBlock | odd_even_mpi.c:129-159 | the corrected phase keeps a block's length |
| CorrectedDistributedSort.CorrectedPhase | odd_even_mpi.c:129-159 | the corrected phase keeps the layout |
| CorrectedDistributedSort.TradedValueIsPhaseAt | odd_even_mpi.c:153-157 | a cell after the local phase and the trades holds what the global phase puts there |
| CorrectedDistributedSort.LeftTrade | odd_even_mpi.c:138-144 | a rank trades with the previous rank exactly when the pair across their boundary belongs to the phase |
| CorrectedDistributedSort.RightTrade | odd_even_mpi.c:138-141 | a rank trades with the next rank exactly when the pair across their boundary belongs to the phase |
| CorrectedDistributedSort.CorrectedCell | odd_even_mpi.c:129-159 | each cell of each block after a corrected phase is the global phase's cell at that index |
| CorrectedDistributedSort.CorrectedPhaseIsPhase | odd_even_mpi.c:129-159 | a corrected phase on the blocks is one phase of the whole array |
| CorrectedDistributedSort.CorrectedRunIsPhases | odd_even_mpi.c:129-159 | k corrected phases are k phases of the whole array |
| CorrectedDistributedSort.CorrectedSortIsSerial | odd_even_mpi.c:119-170 | for every size the corrected distributed sort equals the serial sort: sorted and a permutation |
| Text.Split | csv_utils.h:54 | splitting gives at least one piece and no piece holds the separator |
| Text.SplitJoin | csv_utils.h:54 | fields without the separator, joined, split back into the same fields |
| Text.JoinSplit | csv_utils.h:54 | joining the pieces of a split gives the text back |
| Text.JoinAvoids | csv_utils.h:54 | a character neither in the fields nor the separator is not in the joined line |
| Text.SplitCount | csv_utils.h:54 | a text splits into one more piece than it has separators |
| Text.CountJoin | csv_utils.h:74 | a joined line has at least the separators between fields plus those inside a field |
| Text.SplitUnlines | csv_utils.h:50-54 | lines written with a newline after each split back into those lines and a final empty piece |
| Text.UnlinesAppend | csv_utils.h:50-54 | writing lines a then lines b is writing a + b |
| Text.IntString | csv_utils.h:54 | `%d` gives a non-empty text of digits and a sign, with no comma or newline |
| Text.IntStringRoundTrip | csv_utils.h:54 | reading a `%d` rendering back gives the number |
| Text.FixedString | csv_utils.h:54 | `%.Nf` gives a text of digits, sign and point, with no comma or newline |
| Text.FixedStringShape | csv_utils.h:54 | a `%.Nf` rendering is the sign, then the digits with the point N places from the end |
| Text.FixedStringRoundTrip | csv_utils.h:54 | reading a `%.Nf` rendering back gives the value in units of 10^-N, and the point is N characters before the end |
| CsvResults.LastSlash | csv_utils.h:24 | `strrchr`: the position of a '/' with none after it, and none exactly when the path has no '/' |
| CsvResults.DirOfCut | csv_utils.h:24-26 | the directory is the text before the last '/'; no directory when there is no '/' |
| CsvResults.EnsureDirEffect | csv_utils.h:17-36 | only the path's directory can be added; nothing when there is no '/'; it exists afterwards when `strdup` and `mkdir` succeed |
| CsvResults.EnsureDirKeepsFileAbsent | csv_utils.h:40-42 | making the directory does not make the file exist, so the header decision is unaffected |
| CsvResults.AppendWritesHeaderIffNew | csv_utils.h:42-54 | the header line is written exactly when the file did not exist; the old text stays in front and no other file changes |
| CsvResults.FailedOpenChangesNothing | csv_utils.h:44-48 | when `fopen` fails no file changes |
| CsvResults.AppendAddsLines | csv_utils.h:44-54 | the file's old lines are kept and exactly one data row (after the header for a new file) is added at the end |
| CsvResults.TwoSavesOneHeader | csv_utils.h:39-56 | two saves to a path that did not exist leave one header and the two rows |
| CsvResults.FixedFields | csv_utils.h:74 | each `%.Nf` field holds no comma and no newline |
| CsvResults.SerialHeaderFields | csv_utils.h:51 | the serial header has the 2 column names |
| CsvResults.OpenMPHeaderFields | csv_utils.h:71 | the OpenMP header has the 6 column names |
| CsvResults.MpiHeaderFields | csv_utils.h:91 | the MPI header has the 10 column names |
| CsvResults.SerialFieldsMatch | csv_utils.h:51-54 | the serial row splits into the header's 2 fields, which read back as the size and the time |
| CsvResults.OpenMPFieldsMatch | csv_utils.h:71-74 | the OpenMP row has the header's 6 fields exactly when the schedule name has no comma |
| CsvResults.OpenMPCommaRow | csv_utils.h:74 | a comma in the schedule name gives the row more than 6 fields |
| CsvResults.OpenMPRowSplitsBack | csv_utils.h:74 | without one the row splits back into its 6 fields |
| CsvResults.OpenMPFieldsRoundTrip | csv_utils.h:74 | every OpenMP field reads back as the value written |
| CsvResults.MpiFieldsMatch | csv_utils.h:91-94 | the MPI row splits into the header's 10 fields |
| CsvResults.MpiFieldsRoundTrip | csv_utils.h:94 | every MPI field reads back as the value written |
| CsvResults.FixedFieldsRoundTrip | csv_utils.h:94 | every `%.Nf` field reads back as its value |
| CsvResults.RowOfRenderings | csv_utils.h:94 | comma-free fields followed by `%.Nf` fields split back into exactly those fields |
| CsvResults.FileSystem.EnsureDirExists | csv_utils.h:17-36 | `ensure_dir_exists` changes only the directories, as `DirsAfterEnsure` says |
| CsvResults.FileSystem.AppendResult | csv_utils.h:39-56 | a save: the directory step, then the append with the header decided by whether the path existed after it |
| CsvResults.FileSystem.SaveSerialResult | csv_utils.h:39-56 | `save_serial_result` appends "%d,%.6f" under the serial header |
| CsvResults.FileSystem.SaveOpenMPResult | csv_utils.h:59-76 | `save_openmp_result` appends "%d,%d,%s,%.6f,%.4f,%.4f" under the OpenMP header |
| CsvResults.FileSystem.SaveMpiResult | csv_utils.h:79-96 | `save_mpi_result` appends the ten MPI fields under the MPI header |
| SerialBenchmark.Sizes | odd_even_serial_benchmark.c:47 | five sizes, each positive and within `int`, in increasing order |
| SerialBenchmark.RowReadBack | odd_even_serial_benchmark.c:75 | a data line has no newline and splits into the size and the time |
| SerialBenchmark.RowsReadBack | odd_even_serial_benchmark.c:52-78 | there is one data line per allocated size, and the j-th line's first field reads back as the j-th allocated size |
| SerialBenchmark.AllocatedInOrder | odd_even_serial_benchmark.c:52-78 | the allocated sizes come from the table in increasing order, and are the whole table when every allocation succeeds |
| SerialBenchmark.FileStep | odd_even_serial_benchmark.c:54-75 | a size adds its line exactly when its allocation succeeded |
| SerialBenchmark.BenchmarkCsvLines | odd_even_serial_benchmark.c:39-80 | the file reads back as the header, one line per allocated size carrying that size, and nothing after the last newline |
| SerialBenchmark.SortedValuesInRange | odd_even_serial_benchmark.c:31-36 | the sorted array of n generated values is sorted, has n cells, and all lie in [0, 1000) |
| SerialBenchmark.SortRandomArray | odd_even_serial_benchmark.c:54-67 | an allocated array ends as the serial sort of its generated values |
| SerialBenchmark.BenchmarkSize | odd_even_serial_benchmark.c:53-77 | one pass of the loop: a failed allocation is skipped; otherwise the array is sorted and its line appended |
| SerialBenchmark.BenchmarkMain | odd_even_serial_benchmark.c:38-84 | a failed open gives status 1 and changes nothing; otherwise the file holds exactly the header and the lines of the allocated sizes, and status is 0 |

## Left out

- Timing is left out: `clock_gettime`, `omp_get_wtime`, `MPI_Wtime`, `comm_time`. So are the derived metrics (speedup, efficiency, overheads). A time or metric enters the model as its value already rounded to the printed decimals.
- Floating point is left out. How `%.Nf` rounds a binary `double` is not modelled, and "-0.000000" (a negative value that rounds to zero) is printed by C but cannot be represented here.
- `rand()`, `srand(time(NULL))`, `atoi` and the contents of `argv` are parameters. So are the outcomes of `strdup`, `mkdir` and `fopen`, and of the benchmark's `malloc`. `stat` is not a parameter: it is answered from the modelled file map.
- SerialKernels.SerialMain: `malloc` is assumed to succeed. The program does not check for NULL, so a failed allocation with n > 0 ends in a write through a null pointer in `generate_random_array`; the model does not represent that crash.
- SharedMemorySort.OpenMPMain: `malloc` is assumed to succeed, for the same reason as in the serial `main`.
- BlockLayout.LocalN: n is a natural number. A negative argument from `atoi`, which C divides with truncation into negative block sizes and displacements that `malloc` and `MPI_Scatterv` then reject, is not modelled.
- DistributedPhases.SortAsWritten: n is a natural number, for the same reason as in `BlockLayout.LocalN`.
- `printf`, `print_array` and `perror` output are left out.
- Concurrency is left out. The OpenMP threads become an arbitrary order of each phase's pairs. The MPI processes become one sequential simulation over all ranks' blocks.
- The MPI runtime is left out: `MPI_Init`, `MPI_Bcast`, `MPI_Barrier`, `MPI_Reduce` and `MPI_Finalize`, along with the `argc` check of the distributed `main`.
- The serial timing copy that rank 0 sorts is also left out; it is the serial sort modelled by `SerialKernels.OddEvenSortSerial`.
- DistributedPhases: the phase loop is modelled on values, each rank's `local_arr` being one element of a `seq<seq<int>>`. The in-place overwrite of `local_arr[0]` and `local_arr[local_n-1]` is not captured as array updates.
- Out-of-bounds reads are modelled as a failed run (`None`), not as the undefined behaviour C gives them.
- SerialKernels.OddEvenSortSerial, SharedMemorySort.OddEvenSortOpenMPStatic: the array has exactly n cells. Integers are unbounded: `n * sizeof(int)` overflow and 32-bit wrap-around are not modelled, and values never overflow because they are only compared and moved.
- CsvResults.OpenMPFieldsMatch: the row has as many fields as the header only when the schedule name has no comma. The code does not check this, and the model states exactly when it holds.
- SerialBenchmark.BenchmarkMain: whether `fopen(..., "w")` succeeds, for instance whether `data/` exists, is a parameter. The sorted arrays are returned as ghost values, since the program frees them without using them.
- The Python plotting and averaging scripts hold no discrete logic to model.

## Findings

| source | as written | input that shows it | evidently intended | confidence | as-written member | corrected member |
|---|---|---|---|---|---|---|
| odd_even_mpi.c:129-159 | each rank runs the phase with the parity of its local indices and trades a boundary value with the partner chosen by rank parity | [1, 2, 3, 0] over 3 ranks ends as [1, 0, 2, 3] | every distributed phase is one phase of the whole array (global index parity), so the run sorts | not executed | DistributedPhases.AsWrittenCounterexample | CorrectedDistributedSort.CorrectedSortIsSerial |
| odd_even_mpi.c:138-145 | a rank with `local_n = 0` that has a partner reads `local_arr[local_n - 1]` or `local_arr[0]` | n = 1 over 2 ranks: rank 1 holds no value and partners rank 0 in phase 0 | ranks without values take no part in the exchange | not executed | DistributedPhases.SortAsWrittenFails | CorrectedDistributedSort.CorrectedSortIsSerial |
