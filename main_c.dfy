/** The entry point of the C harness (src/main.c): the five presence checks,
    the four range checks, the probe that the output file can be opened, and
    the run loop with its exit codes (1 bad command line, 2 a workload
    failed, 3 a record could not be written, 0 success). Each run calls the
    workload modelled in its own module; what the machine decides (opening
    the file, allocations, thread creations, the clock, rand(), each record
    write) is passed in as parameters. */
module MainC {
  import opened Common
  import opened ArgUtils
  import SumSqC = SumSq
  import MatMulC = MatMul
  import MonteCarloC = MonteCarlo
  import MergeSortC
  import FftC

  /** The line main prints last, on stderr or (for Wrote) stdout. */
  datatype Diagnostic =
    | Missing(key: string)
    | Invalid(key: string)
    | CannotOpen
    | AlgorithmFailed(alg: int)
    | WriteFailed
    | Wrote(path: string)

  /** The keys main requires, in the order it looks for them. */
  const KEYS: seq<string> := ["--alg", "--threads", "--runs", "--size", "--out"]

  /** Which of the required keys the command line holds, in checking order. */
  function Presence(argv: seq<string>): (checks: seq<(string, bool)>)
    ensures |checks| == |KEYS|
    ensures forall k :: 0 <= k < |KEYS| ==>
      checks[k] == (KEYS[k], exists i :: KeyAt(argv, KEYS[k], i))
  {
    seq(|KEYS|, k requires 0 <= k < |KEYS| => (KEYS[k], FirstKey(argv, KEYS[k]).Some?))
  }

  /** Every required key has a value on the command line. */
  predicate AllPresent(argv: seq<string>) {
    FirstKey(argv, "--alg").Some? && FirstKey(argv, "--threads").Some? &&
    FirstKey(argv, "--runs").Some? && FirstKey(argv, "--size").Some? &&
    FirstKey(argv, "--out").Some?
  }

  /** The presence checks all pass exactly when every key is present. */
  lemma PresenceAllPass(argv: seq<string>)
    ensures FirstFailing(Presence(argv)).None? <==> AllPresent(argv)
  {
    var p := Presence(argv);
    assert p[0].1 == FirstKey(argv, "--alg").Some?;
    assert p[1].1 == FirstKey(argv, "--threads").Some?;
    assert p[2].1 == FirstKey(argv, "--runs").Some?;
    assert p[3].1 == FirstKey(argv, "--size").Some?;
    assert p[4].1 == FirstKey(argv, "--out").Some?;
  }

  /** The settings main reads from a complete command line. */
  datatype Config = Config(alg: int, threads: int, runs: int, size: u64, out: string)

  function ConfigOf(argv: seq<string>, atoi: string -> int, strtoui64: string -> u64): Config
    requires AllPresent(argv)
  {
    Config(atoi(ArgValue(argv, "--alg")), atoi(ArgValue(argv, "--threads")),
           atoi(ArgValue(argv, "--runs")), strtoui64(ArgValue(argv, "--size")),
           ArgValue(argv, "--out"))
  }

  /** The range checks, in checking order: alg in 1..5, threads in 1..256,
      runs in 1..1000, size not 0. */
  function Ranges(c: Config): seq<(string, bool)> {
    [("--alg", 1 <= c.alg <= 5), ("--threads", 0 < c.threads <= 256),
     ("--runs", 0 < c.runs <= 1000), ("--size", c.size != 0)]
  }

  /** The range checks all pass exactly when the settings are in range. */
  lemma RangesAllPass(c: Config)
    ensures FirstFailing(Ranges(c)).None? <==>
      1 <= c.alg <= 5 && 1 <= c.threads <= 256 && 1 <= c.runs <= 1000 && c.size != 0
  {
    var checks := Ranges(c);
    assert checks[0].1 == (1 <= c.alg <= 5);
    assert checks[1].1 == (0 < c.threads <= 256);
    assert checks[2].1 == (0 < c.runs <= 1000);
    assert checks[3].1 == (c.size != 0);
  }

  /** The record main writes for run r. */
  function Record(alg: int, threads: int, r: nat, size: u64): (rr: RunResult)
    ensures rr.language == "c" && rr.runIndex == r
  {
    RunResult("c", alg, threads, r, size)
  }

  /** What the machine and the C library decide for run r: whether its
      allocations succeed, whether matmul's task array is allocated, whether
      worker t is created (spawnOk(r)(t)), time(NULL), the i-th rand() value
      (fill(r)(i)), the outcome of a merge sort too large for int midpoints,
      and the floating-point parameters of the workloads. */
  datatype Env = Env(
    allocOk: nat -> bool,
    tasksOk: nat -> bool,
    spawnOk: nat -> nat -> bool,
    now: nat -> u64,
    fill: nat -> nat -> int,
    largeOk: nat -> bool,
    dot: nat -> (nat, nat) -> real,
    hit: (bv64, bv64) -> bool,
    signal: nat -> FftC.Complex,
    w: (nat, nat) -> FftC.Complex)

  /** The checks each run_* function makes of threads and size before it
      allocates anything; a run whose check fails returns 0 whatever the
      machine does. */
  predicate WorkloadGuard(id: AlgId, threads: int, size: u64) {
    match id
    case SumSq => 0 < threads <= size
    case MatMul => threads > 0 && 0 < Int32Cast(size) <= MatMulC.MAX_DIM
    case MonteCarlo => 0 < threads <= size
    case MergeSort => threads > 0 && size >= 2 && Int32Cast(size) >= 0
    case Fft => Int32Cast(size) == 0 || (Int32Cast(size) > 0 && IsPow2(Int32Cast(size)))
  }

  /** Every worker thread of run r is created. */
  predicate AllSpawned(env: Env, r: nat, threads: int) {
    forall t: nat :: t < threads ==> env.spawnOk(r)(t)
  }

  /** Run r of workload id returns 1: its guard holds and every allocation and
      thread creation it makes succeeds. */
  predicate RunSucceeds(id: AlgId, threads: int, size: u64, env: Env, r: nat) {
    WorkloadGuard(id, threads, size) && env.allocOk(r) &&
    match id
    case SumSq => AllSpawned(env, r, threads)
    case MatMul => env.tasksOk(r) && AllSpawned(env, r, threads)
    case MonteCarlo => AllSpawned(env, r, threads)
    case MergeSort => Int32Cast(size) <= MergeSortC.TWO_POW_30 || env.largeOk(r)
    case Fft => true
  }

  /** The switch of the run loop: calls the workload's run function with
      run r's outcomes and returns its status. */
  method RunWorkload(id: AlgId, threads: int, size: u64, env: Env, r: nat) returns (ok: int)
    requires threads < TWO_POW_31
    ensures ok == 0 || ok == 1
    ensures ok == 1 <==> RunSucceeds(id, threads, size, env, r)
  {
    match id {
      case SumSq =>
        var total, closed;
        ok, total, closed := SumSqC.RunSumSq(threads, size, env.allocOk(r), env.spawnOk(r));
      case MatMul =>
        var result;
        ok, result := MatMulC.RunMatMul(threads, size, env.allocOk(r), env.tasksOk(r),
                                        env.spawnOk(r), env.dot(r));
      case MonteCarlo =>
        var inside;
        ok, inside := MonteCarloC.RunMonteCarlo(threads, size, env.allocOk(r), env.now(r),
                                                env.spawnOk(r), env.hit);
      case MergeSort =>
        var sorted, spawned;
        ok, sorted, spawned := MergeSortC.RunMergeSort(threads, size, env.allocOk(r), env.largeOk(r),
                                                       env.fill(r));
      case Fft =>
        var result;
        ok, result := FftC.RunFft(threads, size, env.allocOk(r), env.signal, env.w);
    }
  }

  /** The run loop: run r calls the workload and, on success, writes
      Record(r) (its outcome is written(r)). Stops at the first failure with
      2 or 3; returns 0 after all runs. */
  method RunLoop(alg: int, threads: int, runs: int, size: u64, env: Env, written: nat -> bool)
    returns (code: int, records: seq<RunResult>)
    requires 1 <= alg <= 5 && 1 <= runs && threads < TWO_POW_31
    ensures code == 0 || code == 2 || code == 3
    ensures |records| <= runs
    ensures forall r :: 0 <= r < |records| ==>
      records[r] == Record(alg, threads, r, size) &&
      RunSucceeds(AlgFromNumber(alg).value, threads, size, env, r) && written(r)
    ensures code == 0 <==> |records| == runs
    ensures code == 2 ==> !RunSucceeds(AlgFromNumber(alg).value, threads, size, env, |records|)
    ensures code == 3 ==>
      RunSucceeds(AlgFromNumber(alg).value, threads, size, env, |records|) && !written(|records|)
  {
    records := [];
    var r := 0;
    while r < runs
      invariant 0 <= r <= runs && |records| == r
      invariant forall q :: 0 <= q < r ==>
        records[q] == Record(alg, threads, q, size) &&
        RunSucceeds(AlgFromNumber(alg).value, threads, size, env, q) && written(q)
      decreases runs - r
    {
      var ok := 0;
      match AlgFromNumber(alg) {
        case Some(id) => ok := RunWorkload(id, threads, size, env, r);
        case None => ok := 0;
      }
      if ok == 0 {
        return 2, records;
      }
      var rr := RunResult("c", alg, threads, r, size);
      if !written(r) {
        return 3, records;
      }
      records := records + [rr];
      r := r + 1;
    }
    code := 0;
  }

  /** A configuration whose threads or size its workload rejects fails on the
      first run: nothing is written and the exit code is 2. */
  lemma GuardViolationFails(c: Config, code: int, records: seq<RunResult>, env: Env,
                            written: nat -> bool)
    requires 1 <= c.alg <= 5 && 1 <= c.runs
    requires RunsRecorded(c, code, records, env, written)
    requires !WorkloadGuard(AlgFromNumber(c.alg).value, c.threads, c.size)
    ensures code == 2 && records == []
  {
    // run 0 fails, so it has no record, and neither has any later run
    assert !RunSucceeds(AlgFromNumber(c.alg).value, c.threads, c.size, env, 0);
  }

  /** The guards reject more threads than items for sumsq, a matrix above
      MAX_DIM, and an FFT size that is not a power of two. */
  lemma GuardRejects()
    ensures !WorkloadGuard(SumSq, 8, 4)
    ensures !WorkloadGuard(MatMul, 1, 7000)
    ensures !WorkloadGuard(Fft, 1, 1000) && WorkloadGuard(Fft, 1, 1024)
  {
    assert Int32Cast(1000) == 1000 && Int32Cast(1024) == 1024;
    assert !IsPow2(125);
    assert !IsPow2(250) && !IsPow2(500) && !IsPow2(1000);
    assert IsPow2(2) && IsPow2(4) && IsPow2(8) && IsPow2(16) && IsPow2(32);
    assert IsPow2(64) && IsPow2(128) && IsPow2(256) && IsPow2(512) && IsPow2(1024);
  }

  /** The presence checks report the first key, in KEYS order, that has no
      value on the command line. */
  lemma FirstMissingKey(argv: seq<string>)
    ensures FirstFailing(Presence(argv)) ==
      if FirstKey(argv, "--alg").None? then Some("--alg")
      else if FirstKey(argv, "--threads").None? then Some("--threads")
      else if FirstKey(argv, "--runs").None? then Some("--runs")
      else if FirstKey(argv, "--size").None? then Some("--size")
      else if FirstKey(argv, "--out").None? then Some("--out")
      else None
  {
    var p := Presence(argv);
    assert p[0] == ("--alg", FirstKey(argv, "--alg").Some?);
    assert p[1] == ("--threads", FirstKey(argv, "--threads").Some?);
    assert p[2] == ("--runs", FirstKey(argv, "--runs").Some?);
    assert p[3] == ("--size", FirstKey(argv, "--size").Some?);
    assert p[4] == ("--out", FirstKey(argv, "--out").Some?);
    if !p[0].1 {
      FirstFailingAt(p, 0);
    } else if !p[1].1 {
      FirstFailingAt(p, 1);
    } else if !p[2].1 {
      FirstFailingAt(p, 2);
    } else if !p[3].1 {
      FirstFailingAt(p, 3);
    } else if !p[4].1 {
      FirstFailingAt(p, 4);
    }
  }

  /** The five presence checks: the first missing key in KEYS order is
      reported; otherwise the converted values. */
  method ReadConfig(argv: seq<string>, atoi: string -> int, strtoui64: string -> u64)
    returns (missing: Option<string>, cfg: Config)
    ensures missing == FirstFailing(Presence(argv))
    ensures missing.None? ==> AllPresent(argv) && cfg == ConfigOf(argv, atoi, strtoui64)
  {
    var alg, threads, runs, size, outPath := 0, 0, 0, 0, "";
    cfg := Config(0, 0, 0, 0, "");
    var found;
    FirstMissingKey(argv);
    found, alg := ParseIntArg(argv, "--alg", alg, atoi);
    if found == 0 {
      return Some("--alg"), cfg;
    }
    found, threads := ParseIntArg(argv, "--threads", threads, atoi);
    if found == 0 {
      return Some("--threads"), cfg;
    }
    found, runs := ParseIntArg(argv, "--runs", runs, atoi);
    if found == 0 {
      return Some("--runs"), cfg;
    }
    found, size := ParseU64Arg(argv, "--size", size, strtoui64);
    if found == 0 {
      return Some("--size"), cfg;
    }
    found, outPath := ParseStrArg(argv, "--out", outPath);
    if found == 0 {
      return Some("--out"), cfg;
    }
    return None, Config(alg, threads, runs, size, outPath);
  }

  /** main. `atoi` and `strtoui64` are the C conversions, `canOpen(path)` the
      outcome of the fopen probe, `env` what the machine decides in each run
      and `written(r)` the outcome of record r's write. Returns the exit code,
      the records appended to the output file and the last line printed. */
  method RunMain(argv: seq<string>, atoi: string -> int, strtoui64: string -> u64,
                 canOpen: string -> bool, env: Env, written: nat -> bool)
    returns (code: int, records: seq<RunResult>, diag: Diagnostic)
    ensures code in {0, 1, 2, 3}
    ensures code == 1 ==> records == []
    // a missing key: the first one in KEYS order is reported
    ensures FirstFailing(Presence(argv)).Some? ==>
      code == 1 && diag == Missing(FirstFailing(Presence(argv)).value)
    // a value out of range: the first failing range check is reported
    ensures AllPresent(argv) && FirstFailing(Ranges(ConfigOf(argv, atoi, strtoui64))).Some? ==>
      code == 1 && diag == Invalid(FirstFailing(Ranges(ConfigOf(argv, atoi, strtoui64))).value)
    ensures AllPresent(argv) && FirstFailing(Ranges(ConfigOf(argv, atoi, strtoui64))).None? ==>
      var c := ConfigOf(argv, atoi, strtoui64);
      (!canOpen(c.out) ==> code == 1 && diag == CannotOpen) &&
      (canOpen(c.out) ==> code != 1 && RunsRecorded(c, code, records, env, written)) &&
      // threads or size rejected by the workload: exit 2 before any record
      (canOpen(c.out) && !WorkloadGuard(AlgFromNumber(c.alg).value, c.threads, c.size) ==>
        code == 2 && records == []) &&
      (code == 0 ==> diag == Wrote(c.out)) &&
      (code == 2 ==> diag == AlgorithmFailed(c.alg)) &&
      (code == 3 ==> diag == WriteFailed)
  {
    records := [];
    var missing, c := ReadConfig(argv, atoi, strtoui64);
    if missing.Some? {
      return 1, records, Missing(missing.value);
    }
    RangesAllPass(c);
    if c.alg < 1 || c.alg > 5 {
      FirstFailingAt(Ranges(c), 0);
      return 1, records, Invalid("--alg");
    }
    if c.threads <= 0 || c.threads > 256 {
      FirstFailingAt(Ranges(c), 1);
      return 1, records, Invalid("--threads");
    }
    if c.runs <= 0 || c.runs > 1000 {
      FirstFailingAt(Ranges(c), 2);
      return 1, records, Invalid("--runs");
    }
    if c.size == 0 {
      FirstFailingAt(Ranges(c), 3);
      return 1, records, Invalid("--size");
    }
    if !canOpen(c.out) {
      return 1, records, CannotOpen;
    }
    code, records := RunLoop(c.alg, c.threads, c.runs, c.size, env, written);
    if !WorkloadGuard(AlgFromNumber(c.alg).value, c.threads, c.size) {
      GuardViolationFails(c, code, records, env, written);
    }
    diag := if code == 0 then Wrote(c.out) else if code == 2 then AlgorithmFailed(c.alg) else WriteFailed;
  }

  /** What the run loop leaves behind for a valid configuration: runs 0, 1, ...
      each succeeded and was written, in order, with their records; code 0
      means all `runs` of them, code 2 that the next run failed, code 3 that
      the next record could not be written. */
  ghost predicate RunsRecorded(c: Config, code: int, records: seq<RunResult>,
                               env: Env, written: nat -> bool)
    requires 1 <= c.alg <= 5
  {
    (code == 0 || code == 2 || code == 3) && |records| <= c.runs &&
    (forall r :: 0 <= r < |records| ==>
      records[r] == Record(c.alg, c.threads, r, c.size) &&
      RunSucceeds(AlgFromNumber(c.alg).value, c.threads, c.size, env, r) && written(r)) &&
    (code == 0 <==> |records| == c.runs) &&
    (code == 2 ==> !RunSucceeds(AlgFromNumber(c.alg).value, c.threads, c.size, env, |records|)) &&
    (code == 3 ==>
      RunSucceeds(AlgFromNumber(c.alg).value, c.threads, c.size, env, |records|) && !written(|records|))
  }
}
