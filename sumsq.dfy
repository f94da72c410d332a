/** The sum-of-squares workload of the C harness (src/sumsq.c): the chunk
    partition, one worker per task run in turn, and the final accumulation.
    Sums are taken over mathematical integers instead of `double`. */
module SumSq {
  import opened Common
  import opened Partition

  /** One task: its half-open range and its result slot. */
  datatype SumSqTask = SumSqTask(start: nat, end: nat, result: int)

  /** The sum of i * i for lo <= i < hi. */
  function SqSum(lo: int, hi: int): int
    decreases hi - lo
  {
    if hi <= lo then 0 else SqSum(lo, hi - 1) + (hi - 1) * (hi - 1)
  }

  /** Closed form: 6 * (0^2 + ... + (n-1)^2) == (n - 1) * n * (2n - 1). */
  lemma {:induction false} SqSumClosedForm(n: nat)
    ensures 6 * SqSum(0, n) == (n - 1) * n * (2 * n - 1)
  {
    if n > 0 {
      SqSumClosedForm(n - 1);
      var m := n - 1;
      assert SqSum(0, n) == SqSum(0, m) + m * m;
      CubicStep(m);
    }
  }

  /** The closed form grows by 6m^2 from m to m + 1. */
  lemma CubicStep(m: int)
    ensures (m - 1) * m * (2 * m - 1) + 6 * (m * m) == m * (m + 1) * (2 * m + 1)
  {
    assert (m - 1) * m * (2 * m - 1) == 2 * m * m * m - 3 * m * m + m;
    assert m * (m + 1) * (2 * m + 1) == 2 * m * m * m + 3 * m * m + m;
  }

  /** Adding the sums of two adjacent ranges gives the sum of their union. */
  lemma {:induction false} SqSumSplit(lo: int, mid: int, hi: int)
    requires lo <= mid <= hi
    ensures SqSum(lo, hi) == SqSum(lo, mid) + SqSum(mid, hi)
    decreases hi - mid
  {
    if mid < hi {
      SqSumSplit(lo, mid, hi - 1);
    }
  }

  /** The worker: accumulate i * i over [start, end) into its result slot. */
  method SumSqWorker(start: nat, end: nat) returns (s: int)
    ensures s == SqSum(start, end)
  {
    s := 0;
    var i := start;
    while i < end
      invariant start <= i <= if start <= end then end else start
      invariant s == SqSum(start, i)
      decreases end - i
    {
      s := s + i * i;
      i := i + 1;
    }
    if end < start {
      assert SqSum(start, end) == 0;
    }
  }

  /** The task list sumsq.c builds: ChunkRange i with its worker's result. */
  ghost predicate FilledTasks(tasks: seq<SumSqTask>, size: nat, threads: nat, count: nat)
    requires threads >= 1
  {
    count <= |tasks| && count <= threads &&
    forall j :: 0 <= j < count ==>
      tasks[j] == SumSqTask(ChunkRange(size, threads, j).lo, ChunkRange(size, threads, j).hi,
                            SqSum(ChunkRange(size, threads, j).lo, ChunkRange(size, threads, j).hi))
  }

  /** The spawn loop of run_sumsq: task i gets its range and a zeroed slot,
      then its worker (run at once, in place of a thread) fills the slot. Stops
      at the first spawn the system refuses and returns how many were started. */
  method SpawnWorkers(tasks: array<SumSqTask>, size: u64, threads: nat, spawnOk: nat -> bool)
    returns (started: nat)
    requires 1 <= threads <= size && tasks.Length == threads
    modifies tasks
    ensures started <= threads
    ensures forall j: nat :: j < started ==> spawnOk(j)
    ensures started < threads ==> !spawnOk(started)
    ensures FilledTasks(tasks[..], size, threads, started)
  {
    var chunk := size / threads;
    var i := 0;
    while i < threads
      invariant 0 <= i <= threads
      invariant forall j: nat :: j < i ==> spawnOk(j)
      invariant FilledTasks(tasks[..], size, threads, i)
    {
      var end := if i == threads - 1 then size else (i + 1) * chunk;
      tasks[i] := SumSqTask(i * chunk, end, 0);
      if !spawnOk(i) {
        return i;
      }
      var s := SumSqWorker(tasks[i].start, tasks[i].end);
      tasks[i] := tasks[i].(result := s);
      i := i + 1;
    }
    return threads;
  }

  /** The join loop: adding the per-task results gives the sum over [0, size). */
  method AddResults(tasks: array<SumSqTask>, size: u64, threads: nat) returns (total: int)
    requires 1 <= threads && tasks.Length == threads
    requires FilledTasks(tasks[..], size, threads, threads)
    ensures total == SqSum(0, size)
  {
    ChunkContiguous(size, threads);
    ghost var rs := ChunkRanges(size, threads);
    total := 0;
    var i := 0;
    while i < threads
      invariant 0 <= i <= threads
      invariant total == SqSum(0, if i < threads then rs[i].lo else size)
    {
      SqSumSplit(0, rs[i].lo, rs[i].hi);
      total := total + tasks[i].result;
      i := i + 1;
    }
  }

  /** run_sumsq with its threads run one after another. `allocOk` says whether
      the two buffers could be allocated and `spawnOk(i)` whether the system
      accepted the i-th worker thread. Returns the status (1 success, 0
      failure), the integer total and the number of thread handles closed. */
  method RunSumSq(threads: int, size: u64, allocOk: bool, spawnOk: nat -> bool)
    returns (ok: int, total: int, closed: nat)
    ensures ok == 1 <==> 0 < threads <= size && allocOk && (forall i: nat :: i < threads ==> spawnOk(i))
    ensures ok == 0 || ok == 1
    ensures ok == 1 ==> total == SqSum(0, size) && closed == threads
    ensures ok == 0 && 0 < threads <= size && allocOk ==>
      closed < threads && !spawnOk(closed) && forall j: nat :: j < closed ==> spawnOk(j)
    ensures ok == 0 && !(0 < threads <= size && allocOk) ==> closed == 0
  {
    total, closed := 0, 0;
    if threads <= 0 { return 0, total, closed; }
    if size < threads { return 0, total, closed; }
    if !allocOk { return 0, total, closed; }

    var tasks := new SumSqTask[threads];
    var started := SpawnWorkers(tasks, size, threads, spawnOk);
    if started < threads {
      // close the handles of the workers already started, 0 .. started - 1
      closed := started;
      return 0, total, closed;
    }
    total := AddResults(tasks, size, threads);
    closed := threads;
    ok := 1;
  }
}
