/** The Monte Carlo workload of the C harness (src/montecarlo.c): the
    xorshift64* generator, the 53-bit draw behind rand01, the base/rem
    iteration split, the per-task seed and the hit-counting worker.
    The floating-point hit test x*x + y*y <= 1 is a parameter `hit` over the
    two 53-bit integers the draws are scaled from. */
module MonteCarlo {
  import opened Common
  import opened Partition

  const MULTIPLIER: u64 := 2685821657736338717
  const SEED_MIX: u64 := 0x9E3779B97F4A7C15
  const SEED_STRIDE: u64 := 0xBF58476D1CE4E5B9
  /** SEED_STRIDE * SEED_STRIDE_INVERSE is 1 mod 2^64. */
  const SEED_STRIDE_INVERSE: u64 := 10871156337175269513
  /** The state a worker starts from when its seed is 0. */
  const ZERO_SEED_STATE: bv64 := 88172645463325252

  /** The three xor-shift stages of xorshift64*. */
  function XorShr12(x: bv64): bv64 { x ^ (x >> 12) }
  function XorShl25(x: bv64): bv64 { x ^ (x << 25) }
  function XorShr27(x: bv64): bv64 { x ^ (x >> 27) }

  /** The state transition of xorshift64*. */
  function Step(x: bv64): bv64 {
    XorShr27(XorShl25(XorShr12(x)))
  }

  /** The output of xorshift64*: the new state times the multiplier, mod 2^64. */
  function Output(state: bv64): bv64 {
    ToWord(MulWrap(state as nat, MULTIPLIER))
  }

  // No stage maps a non-zero word to zero: the highest (for a right shift)
  // or lowest (for a left shift) set bit survives the xor.
  lemma XorShr12NonZero(x: bv64) ensures x != 0 ==> XorShr12(x) != 0 {}
  lemma XorShl25NonZero(x: bv64) ensures x != 0 ==> XorShl25(x) != 0 {}
  lemma XorShr27NonZero(x: bv64) ensures x != 0 ==> XorShr27(x) != 0 {}

  /** A non-zero state stays non-zero, so a worker that starts from a non-zero
      state never falls into the all-zero fixed point. */
  lemma StepNonZero(x: bv64)
    ensures Step(x) == 0 <==> x == 0
  {
    XorShr12NonZero(x);
    XorShl25NonZero(XorShr12(x));
    XorShr27NonZero(XorShl25(XorShr12(x)));
    assert XorShr12(0) == 0 && XorShl25(0) == 0 && XorShr27(0) == 0;
  }

  /** xorshift64star: updates the state through the three stages and returns
      the scrambled output. */
  method Xorshift64Star(state: bv64) returns (next: bv64, r: bv64)
    ensures next == Step(state) && r == Output(next)
    ensures state != 0 ==> next != 0
  {
    var x := state;
    x := XorShr12(x);
    x := XorShl25(x);
    x := XorShr27(x);
    StepNonZero(state);
    next := x;
    r := Output(x);
  }

  /** The integer that rand01 scales by 2^-53: the top 53 bits of the output. */
  function Draw53(r: bv64): (m: bv64)
    ensures m < 1 << 53
  {
    r >> 11
  }

  /** The state a worker starts from: its seed, or a fixed non-zero constant
      when the seed is 0. */
  function StartState(seed: u64): (s: bv64)
    ensures s != 0
  {
    var w := ToWord(seed);
    if w != 0 then w else ZERO_SEED_STATE
  }

  /** The seed of task i: the time-derived seed mixed with (i + 1) times an
      odd constant, all mod 2^64. */
  function TaskSeed(tseed: u64, i: nat): u64
  {
    XorWord(tseed, MulWrap(i + 1, SEED_STRIDE))
  }

  /** Different tasks of a run get different seeds, whatever the clock
      reads: the stride is odd, so (i + 1) * SEED_STRIDE mod 2^64 differs
      for different i, and xor-ing both with tseed keeps them apart. */
  lemma TaskSeedsDistinct(tseed: u64, i: nat, j: nat)
    requires i != j && i + 1 < TWO_POW_64 && j + 1 < TWO_POW_64
    ensures TaskSeed(tseed, i) != TaskSeed(tseed, j)
  {
    MulWrapInjective(i + 1, j + 1, SEED_STRIDE, SEED_STRIDE_INVERSE);
    XorWordInjective(tseed, MulWrap(i + 1, SEED_STRIDE), MulWrap(j + 1, SEED_STRIDE));
  }

  /** The number of hits among the next `n` pairs of draws from `state`. */
  function CountHits(state: bv64, n: nat, hit: (bv64, bv64) -> bool): nat
    decreases n
  {
    if n == 0 then 0
    else
      var s1 := Step(state);
      var s2 := Step(s1);
      (if hit(Draw53(Output(s1)), Draw53(Output(s2))) then 1 else 0) + CountHits(s2, n - 1, hit)
  }

  /** A worker never counts more hits than iterations. */
  lemma {:induction false} CountHitsBound(state: bv64, n: nat, hit: (bv64, bv64) -> bool)
    ensures CountHits(state, n, hit) <= n
    decreases n
  {
    if n > 0 {
      CountHitsBound(Step(Step(state)), n - 1, hit);
    }
  }

  /** montecarlo_worker: draws `iters` pairs and counts the hits. */
  method MonteCarloWorker(seed: u64, iters: nat, hit: (bv64, bv64) -> bool) returns (inside: nat)
    ensures inside == CountHits(StartState(seed), iters, hit)
    ensures inside <= iters
  {
    var state := StartState(seed);
    inside := 0;
    var i := 0;
    while i < iters
      invariant 0 <= i <= iters
      invariant state != 0
      invariant inside + CountHits(state, iters - i, hit) == CountHits(StartState(seed), iters, hit)
    {
      var s1, rx := Xorshift64Star(state);
      var s2, ry := Xorshift64Star(s1);
      state := s2;
      if hit(Draw53(rx), Draw53(ry)) {
        inside := inside + 1;
      }
      i := i + 1;
    }
    CountHitsBound(StartState(seed), iters, hit);
  }

  /** The hits of tasks 0 .. k - 1 of a run. */
  function TotalHits(tseed: u64, size: nat, threads: nat, k: nat, hit: (bv64, bv64) -> bool): nat
    requires 1 <= threads && k <= threads
  {
    if k == 0 then 0
    else
      TotalHits(tseed, size, threads, k - 1, hit) + TaskHits(tseed, size, threads, k - 1, hit)
  }

  /** The hits of the first k tasks never exceed their iterations. */
  lemma {:induction false} TotalHitsBound(tseed: u64, size: nat, threads: nat, k: nat, hit: (bv64, bv64) -> bool)
    requires 1 <= threads && k <= threads
    ensures TotalHits(tseed, size, threads, k, hit) <= BalancedStart(size, threads, k)
  {
    if k > 0 {
      TotalHitsBound(tseed, size, threads, k - 1, hit);
      CountHitsBound(StartState(TaskSeed(tseed, k - 1)), BalancedCount(size, threads, k - 1), hit);
    }
  }

  /** The hits task j records: CountHits from its seed over its iteration count. */
  ghost predicate FilledSlots(inside: seq<nat>, tseed: u64, size: nat, threads: nat, count: nat, hit: (bv64, bv64) -> bool)
    requires 1 <= threads
  {
    count <= |inside| && count <= threads &&
    forall j :: 0 <= j < count ==> inside[j] == TaskHits(tseed, size, threads, j, hit)
  }

  /** What task j records: CountHits from its seed over its iteration count. */
  function TaskHits(tseed: u64, size: nat, threads: nat, j: nat, hit: (bv64, bv64) -> bool): nat
    requires 1 <= threads
  {
    CountHits(StartState(TaskSeed(tseed, j)), BalancedCount(size, threads, j), hit)
  }

  /** Storing task i's hits in slot i extends the filled prefix by one. */
  lemma FillStep(pre: seq<nat>, post: seq<nat>, tseed: u64, size: nat, threads: nat, i: nat, hit: (bv64, bv64) -> bool)
    requires 1 <= threads && i < threads && i < |pre|
    requires FilledSlots(pre, tseed, size, threads, i, hit)
    requires post == pre[i := TaskHits(tseed, size, threads, i, hit)]
    ensures FilledSlots(post, tseed, size, threads, i + 1, hit)
  {
    forall j | 0 <= j < i + 1
      ensures post[j] == TaskHits(tseed, size, threads, j, hit)
    {
      if j < i { assert post[j] == pre[j]; }
    }
  }

  ghost predicate AllSpawned(spawnOk: nat -> bool, count: nat) {
    forall j: nat :: j < count ==> spawnOk(j)
  }

  /** The spawn loop of run_montecarlo: task i gets base + 1 iterations when
      i < rem and base otherwise, and its seed; its worker (run at once, in place
      of a thread) writes slot i only. Stops at the first refused spawn and
      returns how many workers were started. */
  method SpawnWorkers(inside: array<nat>, tseed: u64, size: u64, threads: nat,
                      spawnOk: nat -> bool, hit: (bv64, bv64) -> bool)
    returns (started: nat)
    requires 1 <= threads <= size && threads < TWO_POW_31 && inside.Length == threads
    modifies inside
    ensures started <= threads
    ensures forall j: nat :: j < started ==> spawnOk(j)
    ensures started < threads ==> !spawnOk(started)
    ensures FilledSlots(inside[..], tseed, size, threads, started, hit)
  {
    var base := size / threads;
    var rem := size % threads;
    var i := 0;
    while i < threads
      invariant 0 <= i <= threads
      invariant AllSpawned(spawnOk, i)
      invariant FilledSlots(inside[..], tseed, size, threads, i, hit)
    {
      var iters := base + (if i < rem then 1 else 0);
      assert iters == BalancedCount(size, threads, i);
      var seed := TaskSeed(tseed, i);
      if !spawnOk(i) {
        return i;
      }
      var hits := MonteCarloWorker(seed, iters, hit);
      ghost var pre := inside[..];
      inside[i] := hits;
      FillStep(pre, inside[..], tseed, size, threads, i, hit);
      i := i + 1;
    }
    return threads;
  }

  /** The join loop: inside_total is the sum of the per-task hits, and never
      exceeds size, so the 64-bit total cannot wrap. */
  method AddHits(inside: array<nat>, tseed: u64, size: u64, threads: nat, hit: (bv64, bv64) -> bool)
    returns (insideTotal: nat)
    requires 1 <= threads < TWO_POW_31 && inside.Length == threads
    requires FilledSlots(inside[..], tseed, size, threads, threads, hit)
    ensures insideTotal == TotalHits(tseed, size, threads, threads, hit)
    ensures insideTotal <= size
  {
    insideTotal := 0;
    var i := 0;
    while i < threads
      invariant 0 <= i <= threads
      invariant insideTotal == TotalHits(tseed, size, threads, i, hit)
    {
      insideTotal := insideTotal + inside[i];
      i := i + 1;
    }
    TotalHitsBound(tseed, size, threads, threads, hit);
    BalancedContiguous(size, threads);
  }

  /** run_montecarlo with its workers run one after another. `now` stands for
      time(NULL); `allocOk` and `spawnOk` for the allocation and thread-creation
      outcomes. Returns the status and the total number of hits. */
  method RunMonteCarlo(threads: int, size: u64, allocOk: bool, now: u64,
                       spawnOk: nat -> bool, hit: (bv64, bv64) -> bool)
    returns (ok: int, insideTotal: nat)
    requires threads < TWO_POW_31
    ensures ok == 1 <==> 0 < threads <= size && allocOk && (forall i: nat :: i < threads ==> spawnOk(i))
    ensures ok == 0 || ok == 1
    ensures ok == 1 ==> insideTotal == TotalHits(XorWord(now, SEED_MIX), size, threads, threads, hit)
    ensures ok == 1 ==> insideTotal <= size
  {
    insideTotal := 0;
    if threads <= 0 { return 0, insideTotal; }
    if size < threads { return 0, insideTotal; }
    if !allocOk { return 0, insideTotal; }

    var tseed := XorWord(now, SEED_MIX);
    var inside := new nat[threads];
    var started := SpawnWorkers(inside, tseed, size, threads, spawnOk, hit);
    if started < threads {
      return 0, insideTotal;
    }
    insideTotal := AddHits(inside, tseed, size, threads, hit);
    ok := 1;
  }
}
