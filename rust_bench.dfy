/** The Rust harness (src/main.rs): the checks main makes on the parsed
    arguments and its run loop, the clamped partition and per-thread seeds
    of run_montecarlo, merge_sort_parallel with mergesort_rec and
    merge_into (ArrayMerge's ThresholdMergeSort and MergeInto, with
    THRESHOLD = 2^15), and the guard of run_fft with the even/odd recursion
    of fft_rec. rayon's join and thread pools run their closures one after
    the other here. */
module RustBench {
  import opened Common
  import opened Partition
  import opened Sorting
  import opened ArrayMerge
  import FftC

  type u32 = x: int | 0 <= x < TWO_POW_32

  // ---------------------------------------------------------------------
  // main

  /** The arguments clap parses; parsing itself is the library's. */
  datatype Args = Args(alg: u32, threads: u32, runs: u32, size: u64, out: string)

  /** main's checks, in order, each with the message it bails with. */
  function Checks(a: Args): seq<(string, bool)> {
    [("--alg must be 1..5", 1 <= a.alg <= 5), ("--threads must be >= 1", a.threads != 0),
     ("--runs must be >= 1", a.runs != 0), ("--size must be >= 1", a.size != 0)]
  }

  /** The checks all pass exactly when alg is 1..5 and threads, runs and size
      are positive; there is no upper bound on threads or runs. */
  lemma ChecksAllPass(a: Args)
    ensures FirstFailing(Checks(a)).None? <==>
      1 <= a.alg <= 5 && a.threads >= 1 && a.runs >= 1 && a.size >= 1
  {
    var checks := Checks(a);
    assert checks[0].1 == (1 <= a.alg <= 5);
    assert checks[1].1 == (a.threads != 0);
    assert checks[2].1 == (a.runs != 0);
    assert checks[3].1 == (a.size != 0);
  }

  /** How main ends: an error bailed out with its message, an I/O error
      passed up by `?`, or Ok after printing the output path. */
  datatype Outcome = Bailed(message: string) | IoError | Done(path: string)

  /** The record main appends for run r. */
  function Record(a: Args, r: nat): (rr: RunResult)
    ensures rr.language == "rust" && rr.runIndex == r && rr.inputSize == a.size
  {
    RunResult("rust", a.alg, a.threads, r, a.size)
  }

  /** What the run loop leaves behind: runs 0, 1, ... each appended its
      record, in order; Done means all of them, IoError that the next
      append failed. */
  ghost predicate RunsAppended(a: Args, res: Outcome, records: seq<RunResult>, appended: nat -> bool) {
    |records| <= a.runs &&
    (forall r :: 0 <= r < |records| ==> records[r] == Record(a, r) && appended(r)) &&
    (res == Done(a.out) <==> |records| == a.runs) &&
    (res != Done(a.out) ==> res == IoError && !appended(|records|))
  }

  /** The run loop of main: each run calls the workload (which cannot fail
      here) and appends its record; `appended(r)` is whether opening the
      file and writing record r succeeded. */
  method RunLoop(a: Args, appended: nat -> bool) returns (res: Outcome, records: seq<RunResult>)
    ensures RunsAppended(a, res, records, appended)
  {
    records := [];
    var r := 0;
    while r < a.runs
      invariant 0 <= r <= a.runs && |records| == r
      invariant forall q :: 0 <= q < r ==> records[q] == Record(a, q) && appended(q)
      decreases a.runs - r
    {
      var rr := RunResult("rust", a.alg, a.threads, r, a.size);
      if !appended(r) {
        return IoError, records;
      }
      records := records + [rr];
      r := r + 1;
    }
    res := Done(a.out);
  }

  /** main after Args::parse: the four checks in order, the truncation of
      the output file (`truncated` is whether it succeeded), then the run
      loop. */
  method RunMain(a: Args, truncated: bool, appended: nat -> bool) returns (res: Outcome, records: seq<RunResult>)
    ensures FirstFailing(Checks(a)).Some? ==>
      res == Bailed(FirstFailing(Checks(a)).value) && records == []
    ensures FirstFailing(Checks(a)).None? && !truncated ==> res == IoError && records == []
    ensures FirstFailing(Checks(a)).None? && truncated ==> RunsAppended(a, res, records, appended)
  {
    records := [];
    ChecksAllPass(a);
    if !(1 <= a.alg <= 5) {
      FirstFailingAt(Checks(a), 0);
      return Bailed("--alg must be 1..5"), records;
    }
    if a.threads == 0 {
      FirstFailingAt(Checks(a), 1);
      return Bailed("--threads must be >= 1"), records;
    }
    if a.runs == 0 {
      FirstFailingAt(Checks(a), 2);
      return Bailed("--runs must be >= 1"), records;
    }
    if a.size == 0 {
      FirstFailingAt(Checks(a), 3);
      return Bailed("--size must be >= 1"), records;
    }
    if !truncated {
      return IoError, records;
    }
    res, records := RunLoop(a, appended);
  }

  // ---------------------------------------------------------------------
  // run_montecarlo

  const SEED_MIX: u64 := 0x9E37_79B9_7F4A_7C15

  /** The seed of thread tid: SEED_MIX ^ (tid as u64 + 1); no clock. */
  function ThreadSeed(tid: nat): u64 {
    XorWord(SEED_MIX, (tid + 1) % TWO_POW_64)
  }

  /** Different threads get different seeds, and each seed depends on the
      thread index alone: tid + 1 is recovered from it. */
  lemma ThreadSeedsDistinct(t: nat, u: nat)
    requires t != u && t + 1 < TWO_POW_64 && u + 1 < TWO_POW_64
    ensures ThreadSeed(t) != ThreadSeed(u)
    ensures XorNat(ThreadSeed(t), SEED_MIX) == t + 1
  {
    var a, b := (t + 1) % TWO_POW_64, (u + 1) % TWO_POW_64;
    assert a == t + 1 && b == u + 1;
    XorWordInjective(SEED_MIX, a, b);
    XorWordCancel(SEED_MIX, a);
  }

  /** How many of the first `len` sample pairs drawn from the generator
      seeded with `seed` fall inside the quarter circle; `hit(seed, i)`
      stands for the floating-point test on the i-th pair. */
  function ThreadInside(seed: u64, len: nat, hit: (u64, nat) -> bool): (c: nat)
    ensures c <= len
    decreases len
  {
    if len == 0 then 0 else ThreadInside(seed, len - 1, hit) + (if hit(seed, len - 1) then 1 else 0)
  }

  /** The sampling loop `for _ in start..end` of a thread seeded with
      `seed`: counts the hits of its draws. */
  method CountInside(seed: u64, range: Range, hit: (u64, nat) -> bool) returns (local: nat)
    ensures local == ThreadInside(seed, range.Len(), hit)
  {
    var start, end := range.lo, range.hi;
    local := 0;
    var i := start;
    while i < end
      invariant start <= i && (i == start || i <= end)
      invariant local == ThreadInside(seed, i - start, hit)
      decreases end - i
    {
      if hit(seed, i - start) {
        local := local + 1;
      }
      i := i + 1;
    }
    assert i - start == range.Len();
  }

  /** The closure run for thread tid: the range [start, end) of the clamped
      partition, the thread's seed, and the count of hits over the range. */
  method MonteCarloThread(size: nat, threads: nat, tid: nat, hit: (u64, nat) -> bool) returns (local: nat)
    requires 1 <= threads && tid < threads
    ensures local == ThreadInside(ThreadSeed(tid), ClampedRange(size, threads, tid).Len(), hit)
  {
    var range := ClampedRange(size, threads, tid);
    var seed := ThreadSeed(tid);
    local := CountInside(seed, range, hit);
  }

  /** The hits of threads 0 .. k - 1. */
  function TotalInside(size: nat, threads: nat, k: nat, hit: (u64, nat) -> bool): nat
    requires 1 <= threads && k <= threads
  {
    if k == 0 then 0
    else TotalInside(size, threads, k - 1, hit) +
         ThreadInside(ThreadSeed(k - 1), ClampedRange(size, threads, k - 1).Len(), hit)
  }

  /** The hits of the first k threads never exceed the lengths of their
      ranges. */
  lemma {:induction false} TotalInsideBound(size: nat, threads: nat, k: nat, hit: (u64, nat) -> bool)
    requires 1 <= threads && k <= threads
    ensures TotalInside(size, threads, k, hit) <= SumLen(ClampedRanges(size, threads)[..k])
  {
    if k > 0 {
      var rs := ClampedRanges(size, threads);
      TotalInsideBound(size, threads, k - 1, hit);
      assert rs[..k][..k - 1] == rs[..k - 1];
    }
  }

  /** With more threads than items, thread tid < size runs the one index tid
      and every other thread's range is empty. */
  lemma {:induction false} ClampedPrefixLen(size: nat, threads: nat, k: nat)
    requires size < threads && k <= threads - 1
    ensures SumLen(ClampedRanges(size, threads)[..k]) == if k <= size then k else size
  {
    if k > 0 {
      var rs := ClampedRanges(size, threads);
      assert rs[..k][..k - 1] == rs[..k - 1];
      ClampedPrefixLen(size, threads, k - 1);
      DivSmall(size, threads);
      assert ClampedChunk(size, threads) == 1;
      assert (k - 1) * 1 == k - 1 && k * 1 == k;
      assert rs[k - 1] == Range(k - 1, if k <= size then k else size);
    }
  }

  /** A quotient of a smaller by a larger number is 0. */
  lemma DivSmall(a: nat, b: nat)
    requires a < b
    ensures a / b == 0
  {
  }

  /** The clamped ranges hold size indices in all, whether or not the clamp
      bites. */
  lemma ClampedSumLen(size: nat, threads: nat)
    requires threads >= 1
    ensures SumLen(ClampedRanges(size, threads)) == size
  {
    var rs := ClampedRanges(size, threads);
    if threads <= size {
      ClampedIsChunk(size, threads);
      ChunkContiguous(size, threads);
    } else {
      ClampedPrefixLen(size, threads, threads - 1);
      DivSmall(size, threads);
      assert ClampedChunk(size, threads) == 1;
      assert (threads - 1) * 1 == threads - 1;
      assert rs[threads - 1] == Range(threads - 1, size);
      assert rs[..threads - 1] == rs[..|rs| - 1];
      assert SumLen(rs) == SumLen(rs[..threads - 1]) + rs[threads - 1].Len();
    }
  }

  /** run_montecarlo: the threads' counts summed. The total never exceeds
      size, so the u64 sum cannot overflow. */
  method RunMonteCarlo(size: u64, threads: nat, hit: (u64, nat) -> bool) returns (inside: nat)
    requires threads >= 1
    ensures inside == TotalInside(size, threads, threads, hit)
    ensures inside <= size
  {
    inside := 0;
    var tid := 0;
    while tid < threads
      invariant 0 <= tid <= threads
      invariant inside == TotalInside(size, threads, tid, hit)
    {
      var local := MonteCarloThread(size, threads, tid, hit);
      inside := inside + local;
      tid := tid + 1;
    }
    TotalInsideBound(size, threads, threads, hit);
    ClampedSumLen(size, threads);
    assert ClampedRanges(size, threads)[..threads] == ClampedRanges(size, threads);
  }

  // ---------------------------------------------------------------------
  // merge sort

  /** merge_sort_parallel's THRESHOLD, 1 << 15. */
  const THRESHOLD: int := 0x8000

  /** merge_sort_parallel: one scratch buffer of the same length, then
      mergesort_rec over the whole slice. Afterwards the slice holds the
      sorted permutation of its input. */
  method MergeSortParallel(arr: array<int>, threads: nat)
    modifies arr
    ensures arr[..] == SortSeq(old(arr[..]))
    ensures Sorted(arr[..]) && multiset(arr[..]) == multiset(old(arr[..]))
  {
    var tmp := new int[arr.Length];
    ghost var input := arr[..];
    ThresholdMergeSort(arr, tmp, 0, arr.Length, THRESHOLD);
    assert arr[0..arr.Length] == arr[..] && input[0..arr.Length] == input;
    SortedPermutationIsSortSeq(arr[..], input);
  }

  /** run_mergesort: n = size as usize items, `fill(i)` the i-th random i32. */
  method RunMergeSort(size: u64, threads: nat, fill: nat -> int) returns (sorted: seq<int>)
    ensures sorted == SortSeq(seq(size, i requires 0 <= i < size => fill(i)))
    ensures |sorted| == size && Sorted(sorted)
  {
    var arr := new int[size](i requires 0 <= i < size => fill(i));
    assert arr[..] == seq(size, i requires 0 <= i < size => fill(i));
    MergeSortParallel(arr, threads);
    sorted := arr[..];
  }

  // ---------------------------------------------------------------------
  // FFT

  /** x.iter().step_by(2): positions 0, 2, 4, ...; ceil(n / 2) of them. */
  function StepEvens(x: seq<FftC.Complex>): (e: seq<FftC.Complex>)
    ensures |e| == (|x| + 1) / 2
    ensures forall i :: 0 <= i < |e| ==> e[i] == x[2 * i]
  {
    seq((|x| + 1) / 2, i requires 0 <= i < (|x| + 1) / 2 => x[2 * i])
  }

  /** x.iter().skip(1).step_by(2): positions 1, 3, 5, ...; floor(n / 2) of
      them. */
  function StepOdds(x: seq<FftC.Complex>): (o: seq<FftC.Complex>)
    ensures |o| == |x| / 2
    ensures forall i :: 0 <= i < |o| ==> o[i] == x[2 * i + 1]
  {
    seq(|x| / 2, i requires 0 <= i < |x| / 2 => x[2 * i + 1])
  }

  /** For an even length the two iterators split x exactly as the C
      version's even/odd copies do; for an odd length the even half also
      holds the last element. */
  lemma StepSplit(x: seq<FftC.Complex>)
    ensures |x| % 2 == 0 ==> StepEvens(x) == FftC.Evens(x) && StepOdds(x) == FftC.Odds(x)
    ensures |x| % 2 == 1 ==> StepEvens(x) == FftC.Evens(x) + [x[|x| - 1]] && StepOdds(x) == FftC.Odds(x)
  {
  }

  /** The transform fft_rec computes: blocks of length <= 1 are left alone;
      otherwise the step_by halves are transformed and combined. */
  function FftSpec(x: seq<FftC.Complex>, w: (nat, nat) -> FftC.Complex): (y: seq<FftC.Complex>)
    ensures |y| == |x|
    decreases |x|
  {
    if |x| <= 1 then x
    else
      var e := FftSpec(StepEvens(x), w);
      var o := FftSpec(StepOdds(x), w);
      seq(|x|, i requires 0 <= i < |x| => FftC.Combined(e, o, |x|, i, x[i], w))
  }

  /** On power-of-two lengths, the only ones run_fft lets through, the Rust
      recursion computes the same transform as the C one. */
  lemma {:induction false} FftSpecAgreesWithC(x: seq<FftC.Complex>, w: (nat, nat) -> FftC.Complex)
    requires IsPow2(|x|)
    ensures FftSpec(x, w) == FftC.FftSpec(x, w)
    decreases |x|
  {
    if |x| > 1 {
      assert |x| % 2 == 0 && IsPow2(|x| / 2);
      StepSplit(x);
      FftSpecAgreesWithC(FftC.Evens(x), w);
      FftSpecAgreesWithC(FftC.Odds(x), w);
      var e := FftC.FftSpec(FftC.Evens(x), w);
      var o := FftC.FftSpec(FftC.Odds(x), w);
      assert FftSpec(StepEvens(x), w) == e && FftSpec(StepOdds(x), w) == o;
      var ys := FftSpec(x, w);
      var zs := FftC.FftSpec(x, w);
      forall i | 0 <= i < |x|
        ensures ys[i] == zs[i]
      {
        assert ys[i] == FftC.Combined(e, o, |x|, i, x[i], w) == zs[i];
      }
    }
  }

  /** The collect of x.iter().step_by(2) into a fresh vector. */
  method CollectEvens(x: array<FftC.Complex>) returns (even: array<FftC.Complex>)
    ensures fresh(even) && even[..] == StepEvens(x[..])
  {
    even := new FftC.Complex[(x.Length + 1) / 2];
    var i := 0;
    while i < even.Length
      invariant 0 <= i <= even.Length
      invariant forall p :: 0 <= p < i ==> even[p] == x[2 * p]
    {
      even[i] := x[2 * i];
      i := i + 1;
    }
  }

  /** The collect of x.iter().skip(1).step_by(2) into a fresh vector. */
  method CollectOdds(x: array<FftC.Complex>) returns (odd: array<FftC.Complex>)
    ensures fresh(odd) && odd[..] == StepOdds(x[..])
  {
    odd := new FftC.Complex[x.Length / 2];
    var i := 0;
    while i < odd.Length
      invariant 0 <= i <= odd.Length
      invariant forall p :: 0 <= p < i ==> odd[p] == x[2 * p + 1]
    {
      odd[i] := x[2 * i + 1];
      i := i + 1;
    }
  }

  /** The combine loop of fft_rec, for k in 0..n / 2. */
  method Combine(x: array<FftC.Complex>, even: array<FftC.Complex>, odd: array<FftC.Complex>,
                 w: (nat, nat) -> FftC.Complex)
    requires even.Length >= x.Length / 2 && odd.Length >= x.Length / 2
    requires x != even && x != odd
    modifies x
    ensures forall i :: 0 <= i < x.Length ==>
      x[i] == FftC.Combined(even[..], odd[..], x.Length, i, old(x[i]), w)
  {
    var n := x.Length;
    var half := n / 2;
    var k := 0;
    while k < half
      invariant 0 <= k <= half
      invariant forall i :: 0 <= i < n ==>
        x[i] == (if i < k || (half <= i < half + k) then FftC.Combined(even[..], odd[..], n, i, old(x[i]), w)
                 else old(x[i]))
    {
      var t := FftC.CMul(w(k, n), odd[k]);
      x[k] := FftC.CAdd(even[k], t);
      x[k + half] := FftC.CSub(even[k], t);
      k := k + 1;
    }
  }

  /** fft_rec: transforms x in place. */
  method FftRec(x: array<FftC.Complex>, w: (nat, nat) -> FftC.Complex)
    modifies x
    ensures x[..] == FftSpec(old(x[..]), w)
    decreases x.Length
  {
    var n := x.Length;
    if n <= 1 {
      return;
    }
    ghost var xs := x[..];
    var even := CollectEvens(x);
    var odd := CollectOdds(x);
    FftRec(even, w);
    FftRec(odd, w);
    ghost var e, o := even[..], odd[..];
    assert e == FftSpec(StepEvens(xs), w) && o == FftSpec(StepOdds(xs), w);
    Combine(x, even, odd, w);
    FftSpecStep(xs, e, o, x[..], w);
  }

  /** A buffer holding the combination of the transformed halves at every
      position is the transform of the whole block. */
  lemma FftSpecStep(xs: seq<FftC.Complex>, e: seq<FftC.Complex>, o: seq<FftC.Complex>,
                    ys: seq<FftC.Complex>, w: (nat, nat) -> FftC.Complex)
    requires |xs| > 1 && |ys| == |xs|
    requires e == FftSpec(StepEvens(xs), w) && o == FftSpec(StepOdds(xs), w)
    requires forall i :: 0 <= i < |ys| ==> ys[i] == FftC.Combined(e, o, |xs|, i, xs[i], w)
    ensures ys == FftSpec(xs, w)
  {
  }

  /** The guard of run_fft lets through exactly the powers of two. */
  lemma FftGuardMeaning(n: nat)
    ensures (n == 0 || AndNat(n, n - 1) != 0) <==> !IsPow2(n)
  {
    if n > 0 {
      AndPredecessorZeroIffPow2(n);
    }
  }

  /** run_fft: a size that is 0 or not a power of two returns without work;
      otherwise x[i] = signal(i) is transformed by fft_rec. */
  method RunFft(size: u64, threads: nat, signal: nat -> FftC.Complex, w: (nat, nat) -> FftC.Complex)
    returns (ran: bool, x: seq<FftC.Complex>)
    ensures ran <==> IsPow2(size)
    ensures ran ==> x == FftSpec(seq(size, i requires 0 <= i < size => signal(i)), w)
    ensures ran ==> x == FftC.FftSpec(seq(size, i requires 0 <= i < size => signal(i)), w)
  {
    var n: nat := size;
    FftGuardMeaning(n);
    if n == 0 || AndNat(n, n - 1) != 0 {
      return false, [];
    }
    var buf := new FftC.Complex[n](i requires 0 <= i < n => signal(i));
    ghost var input := buf[..];
    assert input == seq(size, i requires 0 <= i < size => signal(i));
    FftRec(buf, w);
    FftSpecAgreesWithC(input, w);
    return true, buf[..];
  }
}
