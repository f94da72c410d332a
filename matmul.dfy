/** The matrix-multiply workload of the C harness (src/matmul.c): the guards,
    the balanced row partition built by advancing `row`, the cells each worker
    writes, and the strided checksum. The inner product of row i of A and
    column j of B, computed in `double`, is the parameter `dot(i, j)`. */
module MatMul {
  import opened Common
  import opened Partition

  const MAX_DIM: int := 6000

  /** One task: the rows [rowStart, rowEnd) of C it computes. */
  datatype MatMulTask = MatMulTask(rowStart: nat, rowEnd: nat)

  /** Row-major indexing: cell (i, j) of an n x n matrix sits at i * n + j. */
  lemma RowCol(i: nat, j: nat, n: nat)
    requires j < n
    ensures (i * n + j) / n == i && (i * n + j) % n == j
  {
    var x := i * n + j;
    var q, r := x / n, x % n;
    assert (q - i) * n == j - r;
    if q > i {
      MulMonotone(1, q - i, n);
    } else if q < i {
      MulMonotone(1, i - q, n);
    }
  }

  lemma RowInMatrix(i: nat, j: nat, n: nat)
    requires i < n && j < n
    ensures i * n + j < n * n
  {
    MulMonotone(i + 1, n, n);
  }

  /** The cells of C a worker for rows [lo, hi) writes: [lo * n, hi * n). */
  function WriteSet(r: Range, n: nat): Range {
    Range(r.lo * n, r.hi * n)
  }

  function WriteSets(rs: seq<Range>, n: nat): (ws: seq<Range>)
    ensures |ws| == |rs|
    ensures forall t :: 0 <= t < |rs| ==> ws[t] == WriteSet(rs[t], n)
  {
    seq(|rs|, t requires 0 <= t < |rs| => WriteSet(rs[t], n))
  }

  /** Scaling contiguous row ranges by n gives contiguous cell ranges. */
  lemma WriteSetsContiguous(rs: seq<Range>, size: nat, n: nat)
    requires Contiguous(rs, size)
    ensures Contiguous(WriteSets(rs, n), size * n)
  {
    var ws := WriteSets(rs, n);
    forall t | 0 <= t < |rs|
      ensures ws[t].lo <= ws[t].hi
    {
      assert rs[t].lo <= rs[t].hi;
      ContiguousBounds(rs, size, t);
      MulMonotone(rs[t].lo, rs[t].hi, n);
    }
  }

  /** Every cell of C belongs to the write set of exactly one task, and every
      write set lies inside [0, n * n): the workers never race on a cell. */
  lemma WriteSetsExactCover(n: nat, threads: nat)
    requires threads >= 1
    ensures ExactCover(WriteSets(BalancedRanges(n, threads), n), n * n)
  {
    BalancedContiguous(n, threads);
    WriteSetsContiguous(BalancedRanges(n, threads), n, n);
    ContiguousIsExactCover(WriteSets(BalancedRanges(n, threads), n), n * n);
  }

  /** With more tasks than rows, base is 0: tasks t < n get one row each and
      the others get none, and the run still goes ahead. */
  lemma MoreTasksThanRows(n: nat, threads: nat, t: nat)
    requires threads > n && t < threads
    ensures BalancedCount(n, threads, t) == (if t < n then 1 else 0)
  {
  }

  /** The cells of C after a worker for rows [lo, hi) ran. */
  ghost predicate RowsDone(c: seq<real>, before: seq<real>, n: nat, lo: nat, hi: nat, dot: (nat, nat) -> real)
    requires |c| == |before|
  {
    forall idx :: 0 <= idx < |c| ==>
      c[idx] == (if lo * n <= idx < hi * n then dot(idx / n, idx % n) else before[idx])
  }

  /** Two workers on adjacent row ranges, one after the other, fill the union. */
  lemma RowsDoneTrans(a: seq<real>, b: seq<real>, c: seq<real>, n: nat, lo: nat, mid: nat, hi: nat,
                      dot: (nat, nat) -> real)
    requires |a| == |b| == |c| && lo <= mid <= hi
    requires RowsDone(b, a, n, lo, mid, dot) && RowsDone(c, b, n, mid, hi, dot)
    ensures RowsDone(c, a, n, lo, hi, dot)
  {
    MulMonotone(lo, mid, n);
    MulMonotone(mid, hi, n);
  }

  /** matmul_worker: for each row i in [rowStart, rowEnd) and column j < n,
      stores the inner product in C[i * n + j]; no other cell changes. */
  method MatMulWorker(c: array<real>, n: nat, rowStart: nat, rowEnd: nat, dot: (nat, nat) -> real)
    requires rowStart <= rowEnd <= n && c.Length == n * n
    modifies c
    ensures RowsDone(c[..], old(c[..]), n, rowStart, rowEnd, dot)
  {
    var i := rowStart;
    MulMonotone(rowStart, rowEnd, n);
    while i < rowEnd
      invariant rowStart <= i <= rowEnd
      invariant RowsDone(c[..], old(c[..]), n, rowStart, i, dot)
    {
      var iN := i * n;
      var j := 0;
      while j < n
        invariant 0 <= j <= n
        invariant forall idx :: 0 <= idx < c.Length ==>
          c[idx] == (if rowStart * n <= idx < iN + j then dot(idx / n, idx % n) else old(c[idx]))
      {
        RowInMatrix(i, j, n);
        RowCol(i, j, n);
        MulMonotone(rowStart, i, n);
        c[iN + j] := dot(i, j);
        j := j + 1;
      }
      assert iN + n == (i + 1) * n;
      i := i + 1;
    }
  }

  /** Task t of the balanced row partition: rows [start(t), start(t + 1)). */
  function TaskOf(n: nat, threads: nat, t: nat): MatMulTask
    requires threads >= 1
  {
    MatMulTask(BalancedStart(n, threads, t), BalancedStart(n, threads, t + 1))
  }

  /** The partition loop of run_matmul: task t gets rows [row, row + rows) with
      rows = base + (t < rem ? 1 : 0), then row advances; its worker (run at
      once, in place of a thread) fills those rows of C. Stops at the first
      refused spawn and returns how many workers were started. */
  method SpawnWorkers(c: array<real>, tasks: array<MatMulTask>, n: nat, threads: nat,
                      spawnOk: nat -> bool, dot: (nat, nat) -> real)
    returns (started: nat)
    requires 1 <= threads && tasks.Length == threads && c.Length == n * n
    modifies c, tasks
    ensures started <= threads
    ensures forall j: nat :: j < started ==> spawnOk(j)
    ensures started < threads ==> !spawnOk(started)
    ensures forall t :: 0 <= t < started ==> tasks[t] == TaskOf(n, threads, t)
    ensures started == threads ==> RowsDone(c[..], old(c[..]), n, 0, n, dot)
  {
    var base := n / threads;
    var rem := n % threads;
    var row := 0;
    var t := 0;
    BalancedEnd(n, threads);
    while t < threads
      invariant 0 <= t <= threads
      invariant row == BalancedStart(n, threads, t)
      invariant forall j: nat :: j < t ==> spawnOk(j)
      invariant forall u :: 0 <= u < t ==> tasks[u] == TaskOf(n, threads, u)
      invariant RowsDone(c[..], old(c[..]), n, 0, row, dot)
    {
      var rows := base + (if t < rem then 1 else 0);
      assert row + rows == BalancedStart(n, threads, t + 1);
      BalancedStartMonotone(n, threads, t + 1, threads);
      tasks[t] := MatMulTask(row, row + rows);
      assert tasks[t] == TaskOf(n, threads, t);
      if !spawnOk(t) {
        return t;
      }
      ghost var mid := c[..];
      MatMulWorker(c, n, row, row + rows, dot);
      RowsDoneTrans(old(c[..]), mid, c[..], n, 0, row, row + rows, dot);
      row := row + rows;
      t := t + 1;
    }
    return threads;
  }

  /** run_matmul with its workers run one after another. `buffersOk` and
      `tasksOk` stand for the two allocation outcomes, `spawnOk` for thread
      creation. Returns the status and the contents of C before it is freed. */
  method RunMatMul(threads: int, size: u64, buffersOk: bool, tasksOk: bool,
                   spawnOk: nat -> bool, dot: (nat, nat) -> real)
    returns (ok: int, result: seq<real>)
    ensures ok == 1 <==>
      threads > 0 && 0 < Int32Cast(size) <= MAX_DIM && buffersOk && tasksOk &&
      (forall t: nat :: t < threads ==> spawnOk(t))
    ensures ok == 0 || ok == 1
    ensures ok == 1 ==> var n := Int32Cast(size);
      |result| == n * n &&
      forall idx :: 0 <= idx < n * n ==> result[idx] == dot(idx / n, idx % n)
  {
    result := [];
    if threads <= 0 { return 0, result; }
    var n := Int32Cast(size);
    if n <= 0 { return 0, result; }
    if n > MAX_DIM { return 0, result; }
    var nn := n * n;
    if !buffersOk { return 0, result; }

    // C starts zeroed; A and B hold the floating-point inputs behind `dot`
    var c := new real[nn](_ => 0.0);
    if !tasksOk { return 0, result; }
    var tasks := new MatMulTask[threads](_ => MatMulTask(0, 0));
    var started := SpawnWorkers(c, tasks, n, threads, spawnOk, dot);
    if started < threads {
      return 0, result;
    }
    var visited := StridedChecksumIndices(nn);
    result := c[..];
    ok := 1;
  }
}
