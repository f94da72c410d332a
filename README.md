# MultiCoreBenchmarkStudio harness core, modelled in Dafny

MultiCoreBenchmarkStudio runs the same five workloads in C, Java and Rust:
sum of squares, matrix multiplication, Monte Carlo estimation of pi, merge
sort and a radix-2 FFT. Each language has a small command-line front end
that validates `--alg --threads --runs --size --out` and then runs the
chosen workload `runs` times, appending one JSON record per run. This project
models the parts of those harnesses whose correctness does not depend on
floating point:

- the static partitioners that split `size` items or `n` rows over the
  worker threads, and the proof that their ranges are disjoint and cover
  `[0, size)`. This is what makes running the workers one after another
  (as the model does) equivalent to running them in parallel;
- the three merge sorts: C `mergesort_worker`/`merge`, Java
  `MergeSortTask`, Rust `mergesort_rec`/`merge_into`. They are proved to
  leave a sorted permutation and to take the left run on ties;
- the FFT index structure: the power-of-two guards, the even/odd
  decimation, the combine loop's coverage of every index, Java's
  bit-reversal swap loop, and the agreement of the Rust recursion with the
  C one on power-of-two inputs;
- the C xorshift64* generator on 64-bit words, and the per-task seeds of
  all three languages as unsigned 64-bit values, proved different for
  different tasks;
- the configuration front ends: C `utils.c` argv lookup and the exit codes
  of `main.c`, whose run loop calls the C workloads, Java `parseArgs`, and
  the Rust checks in `main`.

Modules:

| module | contents |
|---|---|
| `Common` | shared types, the first-failing-check helper, 32-bit casts, wrapping 64-bit products, bitwise AND/XOR on naturals, powers of two |
| `Partition` | the chunk, balanced and clamped partitions |
| `Sorting` | the merge and the reference sort on sequences |
| `ArrayMerge` | the in-place array merge and the threshold merge sort, shared by Java and Rust |
| `SumSq`, `MatMul`, `MonteCarlo`, `MergeSortC`, `FftC` | the C workloads |
| `ArgUtils`, `MainC` | the C command line |
| `JavaBench` | `Main.java` |
| `RustBench` | `main.rs` |

Library calls and effects become parameters of the methods that make them:

- `atoi`, `_strtoui64`, `Integer.parseInt`, `Long.parseLong`, `Path.of`;
- `fopen`, the JSONL writes, `std::fs::write`;
- `malloc` and `CreateThread` outcomes;
- `rand()`, `SplittableRandom` and `rng.gen` values;
- `time(NULL)` and `System.nanoTime`;
- the floating-point hit test, the dot product and the twiddle factors.

## Model

| member | source | states |
|---|---|---|
| Common.AlgFromNumber | bench_c/bench_c/bench_c/src/common.h:5-11 | a workload id exists exactly for 1..5 and maps back to its number |
| Common.FirstFailing | bench_c/bench_c/bench_c/src/main.c:22-42 | None exactly when every check passes; otherwise the name of the first failing check, all earlier ones passing |
| Common.FirstFailingAt | bench_c/bench_c/bench_c/src/main.c:22-42 | a check that fails after only passing ones is the one reported |
| Common.Int32Cast | bench_c/bench_c/bench_c/src/matmul.c:45 | `(int)size` lies in the 32-bit range, agrees with size modulo 2^32 and is size itself below 2^31 |
| Common.AndPredecessorZeroIffPow2 | bench_c/bench_c/bench_c/src/fft.c:62 | for positive n, `n & (n - 1)` is 0 exactly when n is a power of two |
| Common.HighBit | bench_java/bench_java/src/main/java/com/mcb/Main.java:260-261 | for j < 2^(k+1), `j & 2^k` is non-zero exactly when j >= 2^k, and `j ^ 2^k` subtracts or adds 2^k |
| Common.StridedChecksumIndices | bench_c/bench_c/bench_c/src/fft.c:75-78 | the smoke-check loop reads at most 16 indices, all below n, with stride n/16 + 1 |
| Partition.ContiguousIsExactCover | bench_c/bench_c/bench_c/src/sumsq.c:40-42 | ranges that start at 0, meet end to start and end at size cover each index of [0, size) exactly once |
| Partition.ContiguousSumLen | bench_c/bench_c/bench_c/src/sumsq.c:40-42 | contiguous ranges hold size items in all |
| Partition.ChunkContiguous | bench_c/bench_c/bench_c/src/sumsq.c:38-42 | the chunk ranges, remainder in the last task, are contiguous, an exact cover of [0, size) and sum to size; the same ranges are the ones Java runSumSq and runMonteCarlo build, [t*chunk, (t+1)*chunk) with the last ending at n |
| Partition.ChunkNonEmpty | bench_c/bench_c/bench_c/src/sumsq.c:27-42 | with threads <= size every task gets at least one item: chunk items, the last task the rest |
| Partition.ChunkAllToLast | bench_java/bench_java/src/main/java/com/mcb/Main.java:124-128 | with threads > n every task but the last gets no row and the last gets all n rows |
| Partition.BalancedCounts | bench_c/bench_c/bench_c/src/montecarlo.c:45-51 | task i gets base + 1 items exactly when i < rem; counts differ by at most one; no task is empty when size >= threads |
| Partition.BalancedStartClosed | bench_c/bench_c/bench_c/src/matmul.c:77-91 | the running row counter equals i*base + min(i, rem) |
| Partition.BalancedContiguous | bench_c/bench_c/bench_c/src/matmul.c:77-91 | the balanced ranges end at size, are contiguous, an exact cover and sum to size |
| Partition.ClampedOwnerRuns | bench_rs/src/main.rs:115-124 | each index is in the range of exactly one thread, the one ClampedOwner names |
| Partition.ClampedExactCover | bench_rs/src/main.rs:115-124 | the clamped ranges cover [0, size) exactly once, even when threads > size |
| Partition.ClampedIsChunk | bench_rs/src/main.rs:115-124 | when size >= threads the clamp never bites and the ranges are the chunk ranges |
| SumSq.SqSumClosedForm | bench_c/bench_c/bench_c/src/sumsq.c:13-24 | the exact sum of i*i over [0, n) is (n-1)n(2n-1)/6 |
| SumSq.SqSumSplit | bench_c/bench_c/bench_c/src/sumsq.c:57-61 | adjacent ranges' sums add up to the sum over their union |
| SumSq.SumSqWorker | bench_c/bench_c/bench_c/src/sumsq.c:13-24 | the worker's loop computes the exact sum of squares over [start, end) |
| SumSq.SpawnWorkers | bench_c/bench_c/bench_c/src/sumsq.c:40-53 | tasks 0.. get the chunk ranges and their sums, up to the first thread that fails to start |
| SumSq.AddResults | bench_c/bench_c/bench_c/src/sumsq.c:57-61 | the sum of the task results is the sum over [0, size) |
| SumSq.RunSumSq | bench_c/bench_c/bench_c/src/sumsq.c:26-69 | returns 1 exactly when 0 < threads <= size and allocation and every spawn succeed; then the total is the sum over [0, size); on a failed spawn exactly the started handles are closed |
| MonteCarlo.StepNonZero | bench_c/bench_c/bench_c/src/montecarlo.c:10-17 | the xorshift state transition maps 0, and only 0, to 0 |
| MonteCarlo.Xorshift64Star | bench_c/bench_c/bench_c/src/montecarlo.c:10-17 | the new state is the three shift-xors of the old and the output is the state times 2685821657736338717 mod 2^64; a non-zero state stays non-zero |
| MonteCarlo.Draw53 | bench_c/bench_c/bench_c/src/montecarlo.c:19-22 | the integer part of rand01, r >> 11, is below 2^53 |
| MonteCarlo.StartState | bench_c/bench_c/bench_c/src/montecarlo.c:85 | a worker's starting state is never 0: seed 0 becomes 88172645463325252 |
| MonteCarlo.CountHitsBound | bench_c/bench_c/bench_c/src/montecarlo.c:88-93 | a worker never counts more hits than iterations |
| MonteCarlo.MonteCarloWorker | bench_c/bench_c/bench_c/src/montecarlo.c:83-96 | the worker counts the hits of its iters draw pairs from its starting state, at most iters |
| MonteCarlo.TotalHitsBound | bench_c/bench_c/bench_c/src/montecarlo.c:67-71 | the hits of the first k tasks never exceed their iterations |
| MonteCarlo.TaskSeedsDistinct | bench_c/bench_c/bench_c/src/montecarlo.c:48-54 | different tasks of a run get different seeds whatever time(NULL) returns, since the odd stride makes (i+1)*0xBF58476D1CE4E5B9 mod 2^64 one-to-one |
| MonteCarlo.SpawnWorkers | bench_c/bench_c/bench_c/src/montecarlo.c:50-63 | task i gets base (+1 when i < rem) iterations and seed tseed ^ (i+1)*0xBF58476D1CE4E5B9, up to the first failed spawn |
| MonteCarlo.AddHits | bench_c/bench_c/bench_c/src/montecarlo.c:67-71 | the total of the tasks' hits, never more than size, so the u64 sum cannot overflow |
| MonteCarlo.RunMonteCarlo | bench_c/bench_c/bench_c/src/montecarlo.c:33-81 | returns 1 exactly when 0 < threads <= size and allocation and every spawn succeed; the total is the hits from seed time ^ 0x9E3779B97F4A7C15 and at most size |
| MatMul.RowCol | bench_c/bench_c/bench_c/src/matmul.c:28-35 | cell i*n + j is row i, column j |
| MatMul.RowInMatrix | bench_c/bench_c/bench_c/src/matmul.c:28-35 | every cell a worker writes lies inside the n*n matrix |
| MatMul.WriteSetsContiguous | bench_c/bench_c/bench_c/src/matmul.c:27-35 | the cell ranges [row_start*n, row_end*n) of contiguous row ranges are contiguous over [0, n*n) |
| MatMul.WriteSetsExactCover | bench_c/bench_c/bench_c/src/matmul.c:77-100 | the tasks' write sets are disjoint and cover C exactly |
| MatMul.MoreTasksThanRows | bench_c/bench_c/bench_c/src/matmul.c:77-82 | with threads > n the first n tasks get one row each and the rest none |
| MatMul.MatMulWorker | bench_c/bench_c/bench_c/src/matmul.c:20-40 | the worker sets every cell of rows [row_start, row_end) to its dot product and no other cell |
| MatMul.SpawnWorkers | bench_c/bench_c/bench_c/src/matmul.c:80-100 | task t gets rows [start(t), start(t+1)); once all start, every row of C holds its dot products |
| MatMul.RunMatMul | bench_c/bench_c/bench_c/src/matmul.c:42-113 | returns 1 exactly when threads > 0, 0 < (int)size <= 6000 and allocations and spawns succeed; then C[i*n + j] is the dot product of row i and column j |
| FftC.FftSpecCombineCover | bench_c/bench_c/bench_c/src/fft.c:45-51 | each index below 2*(n/2) is written by exactly one k, as k or k + n/2; for odd n the last element is untouched |
| FftC.FftDepthIsLog2 | bench_c/bench_c/bench_c/src/fft.c:42-43 | for a power-of-two n the recursion is log2 n levels deep |
| FftC.LevelSizesArePow2 | bench_c/bench_c/bench_c/src/fft.c:33-43 | every level works on power-of-two blocks of size n / 2^d, down to 1 |
| FftC.SplitEvenOdd | bench_c/bench_c/bench_c/src/fft.c:37-40 | even[i] = x[2i] and odd[i] = x[2i+1] for i < n/2 |
| FftC.CombineHalves | bench_c/bench_c/bench_c/src/fft.c:45-51 | the combine loop leaves every cell as the butterfly prescribes and cells from n on untouched |
| FftC.FftRec | bench_c/bench_c/bench_c/src/fft.c:30-55 | fft_rec transforms x[0..n) into the recursive decimation-in-time transform and leaves the rest of the buffer alone |
| FftC.RunFft | bench_c/bench_c/bench_c/src/fft.c:58-82 | returns 1 exactly when (int)size is 0 or a positive power of two and allocation succeeds; the result is the transform of the (int)size input samples |
| Sorting.MergePermutation | bench_c/bench_c/bench_c/src/mergesort.c:17-33 | the merge of two runs is a permutation of their concatenation |
| Sorting.MergeSorted | bench_c/bench_c/bench_c/src/mergesort.c:17-33 | merging two sorted runs gives a sorted run |
| Sorting.MergeKeepsRunOrder | bench_java/bench_java/src/main/java/com/mcb/Main.java:235-241 | each run's elements appear in the merge in their original order |
| Sorting.MergeTiesPreferLeft | bench_java/bench_java/src/main/java/com/mcb/Main.java:237 | an element from the right run precedes one from the left only when strictly smaller, so ties go to the left run; the Rust merge_into test `left[i] <= right[j]` is the same |
| Sorting.SortSeq | bench_java/bench_java/src/main/java/com/mcb/Main.java:225 | the reference sort gives a sorted permutation of its input |
| Sorting.SortedPermutationUnique | bench_rs/src/main.rs:173 | two sorted permutations of the same values are equal, so any correct library sort gives SortSeq's result |
| ArrayMerge.MergeInto | bench_rs/src/main.rs:193-216 | out[oLo..) receives the merge of the two runs and nothing else of out changes |
| ArrayMerge.MergeAndCopyBack | bench_java/bench_java/src/main/java/com/mcb/Main.java:235-241 | [lo, hi) of a becomes the merge of its two old halves; a and tmp change only in [lo, hi) |
| ArrayMerge.LibrarySort | bench_java/bench_java/src/main/java/com/mcb/Main.java:225 | Arrays.sort(a, lo, hi) leaves the sorted permutation of a[lo..hi) and touches nothing else |
| ArrayMerge.ThresholdMergeSort | bench_java/bench_java/src/main/java/com/mcb/Main.java:221-233 | compute leaves [lo, hi) a sorted permutation of its input; a and tmp change only inside [lo, hi); the Rust mergesort_rec is the same recursion on its slice |
| MergeSortC.MergeRuns | bench_c/bench_c/bench_c/src/mergesort.c:17-33 | merge leaves arr[l..r] the merge of arr[l..m] and arr[m+1..r]; arr and tmp change only there |
| MergeSortC.NoThreadsBelowCutoff | bench_c/bench_c/bench_c/src/mergesort.c:44-59 | at depth >= max_depth no thread is created |
| MergeSortC.ThreadsCreatedBound | bench_c/bench_c/bench_c/src/mergesort.c:44-53 | a worker at depth d creates at most 2^(max_depth - d) - 1 threads |
| MergeSortC.MergeSortWorker | bench_c/bench_c/bench_c/src/mergesort.c:35-63 | mergesort_worker leaves arr[l..r] a sorted permutation, changes nothing outside [l, r], and creates ThreadsCreated threads |
| MergeSortC.MaxDepth | bench_c/bench_c/bench_c/src/mergesort.c:80-82 | max_depth is the least d with 2^d >= threads |
| MergeSortC.RunMergeSort | bench_c/bench_c/bench_c/src/mergesort.c:65-96 | returns 1 exactly when threads > 0, size >= 2, (int)size >= 0 and allocation succeeds (and, above 2^30 elements, the overflowing run happens to succeed); up to 2^30 elements the array ends sorted and a permutation of the rand() values; fewer than 2*threads threads are created |
| ArgUtils.StrEqMeaning | bench_c/bench_c/bench_c/src/utils.c:44-46 | str_eq is equality of two present strings, symmetric, and false when either is null |
| ArgUtils.FirstKey | bench_c/bench_c/bench_c/src/utils.c:49-54 | the lookup finds a position exactly when the key occurs at some i >= 1 with a token after it, and finds the least such i |
| ArgUtils.FindKey | bench_c/bench_c/bench_c/src/utils.c:49-54 | the loop stops at the first matching key position, or reports none |
| ArgUtils.ParseIntArg | bench_c/bench_c/bench_c/src/utils.c:48-56 | returns 1 exactly when the key is present; then the value is atoi of the token after its first occurrence, otherwise the out value is unchanged |
| ArgUtils.ParseU64Arg | bench_c/bench_c/bench_c/src/utils.c:58-66 | the same with _strtoui64 |
| ArgUtils.ParseStrArg | bench_c/bench_c/bench_c/src/utils.c:68-76 | the same, the value being the token itself |
| ArgUtils.ProgramNameIgnored | bench_c/bench_c/bench_c/src/utils.c:49 | argv[0] is never matched: replacing it changes no lookup |
| ArgUtils.TrailingKeyMissing | bench_c/bench_c/bench_c/src/utils.c:49 | a key in the last position has no value and is reported missing |
| ArgUtils.ValueTokenTakenAsKey | bench_c/bench_c/bench_c/src/utils.c:49-54 | value tokens are not skipped: in `prog --out --alg --alg 3`, --out gets "--alg" and --alg gets "--alg" |
| MainC.Presence | bench_c/bench_c/bench_c/src/main.c:22-36 | the five presence checks in order, each true exactly when the key has a value |
| MainC.PresenceAllPass | bench_c/bench_c/bench_c/src/main.c:22-36 | the presence checks all pass exactly when all five keys are present |
| MainC.FirstMissingKey | bench_c/bench_c/bench_c/src/main.c:22-36 | the first key in the order --alg, --threads, --runs, --size, --out that has no value is reported; None when all five are present |
| MainC.RangesAllPass | bench_c/bench_c/bench_c/src/main.c:39-42 | the range checks all pass exactly when alg is 1..5, threads 1..256, runs 1..1000 and size non-zero |
| MainC.ReadConfig | bench_c/bench_c/bench_c/src/main.c:22-36 | reports the first missing key in order, otherwise the converted values of all five |
| MainC.RunWorkload | bench_c/bench_c/bench_c/src/main.c:55-63 | the switch calls the chosen run_* function with threads and size; it returns 1 exactly when that workload's guard on threads and size holds and its allocations and thread creations succeed |
| MainC.RunLoop | bench_c/bench_c/bench_c/src/main.c:52-86 | runs 0, 1, ... each succeeded and wrote their record, in order; 0 after all runs, 2 when the next run failed, 3 when its record could not be written |
| MainC.GuardViolationFails | bench_c/bench_c/bench_c/src/main.c:52-69 | when the workload's guard rejects threads or size, the first run fails: exit code 2 and no records |
| MainC.GuardRejects | bench_c/bench_c/bench_c/src/main.c:56-61 | sumsq with 8 threads and size 4, matmul of size 7000 and an FFT of size 1000 are rejected by their guards; an FFT of size 1024 is not |
| MainC.RunMain | bench_c/bench_c/bench_c/src/main.c:16-87 | exit code 1 with the first missing key, the first out-of-range value or an unopenable file, and no records; otherwise the run loop's code and records, with the matching last message; exit code 2 and no records when the workload's guard rejects threads or size |
| JavaBench.PairsMapKeys | bench_java/bench_java/src/main/java/com/mcb/Main.java:31-38 | the map's keys are exactly the tokens at even positions |
| JavaBench.LaterValueWins | bench_java/bench_java/src/main/java/com/mcb/Main.java:37 | for a duplicated key the value after its last occurrence is kept |
| JavaBench.BuildMap | bench_java/bench_java/src/main/java/com/mcb/Main.java:31-38 | succeeds exactly when every key starts with "--" and has a value; the map is then PairsMap |
| JavaBench.Decode | bench_java/bench_java/src/main/java/com/mcb/Main.java:40-59 | a result means all five keys present, each value parsed, the path valid, alg in 1..5 and threads, runs, size at least 1 |
| JavaBench.DecodeAccepts | bench_java/bench_java/src/main/java/com/mcb/Main.java:51 | conversely every such map is accepted, with no upper bound on threads |
| JavaBench.ParseArgs | bench_java/bench_java/src/main/java/com/mcb/Main.java:28-53 | fails on an empty or malformed command line, otherwise decodes the map |
| JavaBench.MatMulWritesExactCover | bench_java/bench_java/src/main/java/com/mcb/Main.java:124-141 | the cells the tasks write, rows [r0, r1) times n, are disjoint and cover the matrix |
| JavaBench.TaskSeedsDistinct | bench_java/bench_java/src/main/java/com/mcb/Main.java:161-166 | different tasks get different seeds whatever System.nanoTime returns, since the odd constant makes 0x9E3779B97F4A7C15 * (t + 1) mod 2^64 one-to-one |
| JavaBench.RunMergeSort | bench_java/bench_java/src/main/java/com/mcb/Main.java:194-210 | a negative (int)nLong or a thread count outside 1..32767 (the ForkJoinPool limit) fails; otherwise arr ends as the sorted permutation of the random values, so the final check never prints |
| JavaBench.NextReversed | bench_java/bench_java/src/main/java/com/mcb/Main.java:259-261 | for a power-of-two n and j < n, the updated j is below n, so the swap indices are in bounds |
| JavaBench.SwapPairs | bench_java/bench_java/src/main/java/com/mcb/Main.java:262-265 | (re[i], im[i]) and (re[j], im[j]) change places and the multiset of pairs is kept |
| JavaBench.BitReversal | bench_java/bench_java/src/main/java/com/mcb/Main.java:258-266 | the loop keeps the multiset of (re, im) pairs |
| JavaBench.PowerOfTwoGuardMeaning | bench_java/bench_java/src/main/java/com/mcb/Main.java:247 | the guard lets through exactly 0 and the powers of two |
| JavaBench.RunFft | bench_java/bench_java/src/main/java/com/mcb/Main.java:245-266 | proceeds exactly when (int)nLong is 0 or a power of two; then the arrays hold a permutation of the (signal(i), 0) pairs |
| RustBench.ChecksAllPass | bench_rs/src/main.rs:280-291 | the checks all pass exactly when alg is 1..5 and threads, runs and size are positive; no thread cap |
| RustBench.RunLoop | bench_rs/src/main.rs:296-323 | runs 0, 1, ... each appended their record, in order; Ok after all runs, an I/O error when the next append failed |
| RustBench.RunMain | bench_rs/src/main.rs:277-327 | bails with the first failing check's message and no records; an I/O error when the truncation fails; otherwise the run loop's outcome |
| RustBench.ThreadSeedsDistinct | bench_rs/src/main.rs:127 | different threads get different seeds, and a seed depends on the thread index alone: tid + 1 is recovered from it and no clock enters |
| RustBench.ThreadInside | bench_rs/src/main.rs:129-137 | a thread never counts more hits than samples |
| RustBench.CountInside | bench_rs/src/main.rs:129-137 | the sampling loop counts the hits of the draws over its range, one draw pair per index |
| RustBench.MonteCarloThread | bench_rs/src/main.rs:118-137 | thread tid counts the hits over its clamped range, drawing from its own seed |
| RustBench.TotalInsideBound | bench_rs/src/main.rs:113-140 | the hits of the first k threads never exceed the lengths of their ranges |
| RustBench.ClampedSumLen | bench_rs/src/main.rs:115-124 | the clamped ranges hold size items in all, whether or not the clamp bites |
| RustBench.RunMonteCarlo | bench_rs/src/main.rs:103-144 | the total is the sum of the threads' counts and at most size, so the u64 sum cannot overflow |
| RustBench.MergeSortParallel | bench_rs/src/main.rs:147-162 | the slice ends as the sorted permutation of its input |
| RustBench.RunMergeSort | bench_rs/src/main.rs:219-234 | the array ends as the sorted permutation of the generated values |
| RustBench.StepSplit | bench_rs/src/main.rs:243-244 | for an even length the step_by halves are C's even/odd halves; for an odd length the even half also holds the last element |
| RustBench.FftSpecAgreesWithC | bench_rs/src/main.rs:237-256 | on power-of-two lengths fft_rec computes the same transform as the C fft_rec |
| RustBench.CollectEvens | bench_rs/src/main.rs:243 | collects x[0], x[2], ..., ceil(n/2) of them |
| RustBench.CollectOdds | bench_rs/src/main.rs:244 | collects x[1], x[3], ..., floor(n/2) of them |
| RustBench.Combine | bench_rs/src/main.rs:249-255 | the combine loop writes every cell as the butterfly prescribes; for odd n the last cell is untouched |
| RustBench.FftRec | bench_rs/src/main.rs:237-256 | fft_rec transforms x in place into the recursive step_by transform |
| RustBench.FftGuardMeaning | bench_rs/src/main.rs:263 | the guard rejects exactly the sizes that are not powers of two, 0 included |
| RustBench.RunFft | bench_rs/src/main.rs:259-274 | runs the transform exactly when size is a power of two; the result is both the Rust and the C transform of the input |

## Left out

- Threads and their scheduling are left out; every worker runs as a sequential call. These are `CreateThread`/`WaitForMultipleObjects`/`CloseHandle`, `ExecutorService`, `ForkJoinPool.invokeAll`, and rayon `join` and pools. The partition lemmas show the workers touch disjoint data, which is why the order does not matter.
- Floating point is left out: the sums of squares, dot products, `rand01` scaling, the hit test, the twiddle factors and the checksums. Exact integers or reals are used, and the hit test, dot product and twiddle are parameters.
- Timing, `now_seconds`, the JSONL formatting and writing, `print_usage`, `usageAndExit` printing and the final `println`s are left out. Only the outcome of each write and the exit status are modelled.
- Java `main` and the Java run loop and file writing are not part of this model. Only `parseArgs` and the workloads are.
- Rust `Args::parse` (clap) is not part of this model. Its failure exits are the library's, so main starts from the parsed values.
- `run_sumsq` and `run_matmul` in Rust are left out: they are rayon parallel iterators with no partition of their own.
- FftC.RunFft: a negative `(int)size` fails. The guard `n & (n - 1)` rejects every negative n except INT_MIN, where `n - 1` overflows (undefined behaviour); the model assumes the allocation of nearly 2^64 bytes that would follow fails.
- FftC.FftRec: the `even` and `odd` mallocs of fft_rec (fft.c:34-35) are not checked for NULL. The model's allocation cannot fail, so the crash a failed allocation causes in C is not modelled.
- MergeSortC.RunMergeSort: a negative `(int)size` is a failed allocation, since the request converts to nearly 2^64 bytes. Above 2^30 elements the midpoint `(l + r) / 2` may overflow (undefined behaviour); the outcome is the parameter `largeOk`, and nothing is promised about the array.
- MergeSortC.MaxDepth: computes 2^d with unbounded integers. In C, `1 << 31` is undefined for threads > 2^30; main caps threads at 256.
- MonteCarlo.RunMonteCarlo: requires threads < 2^31, the range of the C `int` it is passed as.
- The unchecked `CreateThread` in `mergesort_worker` (mergesort.c:48) is left out: a failed handle is waited on without a check, and the model assumes the thread runs.
- JavaBench.BitReversal: proves that the swaps stay in bounds and keep the multiset of pairs. It does not prove that j is the bit reversal of i, so the final order of the pairs is not stated.
- JavaBench.RunFft: a negative n throws either at the guard or when the arrays are allocated. Both are modelled as the same failure, without telling the two exceptions apart.
- JavaBench.RunFft: the butterfly passes (Main.java:268-294) are floating point and are left out.
- Java `runMatMul`'s `int nn = n * n` overflows for n > 46340; the model keeps n*n unbounded.
- Java `runMonteCarlo` and `runSumSq` worker bodies are left out; `SplittableRandom` is a library generator. Only their partitions and seeds are modelled.
- MonteCarlo.StartState: tests the seed's 64-bit word (Common.ToWord) for zero rather than the integer seed. The two agree below 2^64, but the model does not prove it.
- Allocation failures in Rust (`vec!` aborting) and Java (`OutOfMemoryError`) are left out.
- ArrayMerge.LibrarySort: `Arrays.sort` and `sort_unstable` are library sorts. They are modelled by a stand-in that writes the reference sort; SortedPermutationUnique shows that every correct sort gives that result.
