/** The three static partitioners the workloads use to split `size` work items
    (or `n` matrix rows) over `threads` tasks, and the facts that make running
    the tasks one after another equivalent to running them in parallel: the
    ranges are pairwise disjoint and together cover the index space exactly. */
module Partition {

  /** The half-open index range [lo, hi); a range with lo >= hi is empty. */
  datatype Range = Range(lo: int, hi: int) {
    predicate Contains(x: int) { lo <= x < hi }
    function Len(): nat { if hi <= lo then 0 else hi - lo }
  }

  /** Ranges that start at 0, end at `size` and meet end to start. */
  ghost predicate Contiguous(rs: seq<Range>, size: int) {
    |rs| > 0 && rs[0].lo == 0 && rs[|rs| - 1].hi == size &&
    (forall i :: 0 <= i < |rs| ==> rs[i].lo <= rs[i].hi) &&
    (forall i :: 0 <= i < |rs| - 1 ==> rs[i].hi == rs[i + 1].lo)
  }

  /** Some range holds `x`. */
  ghost predicate Covered(rs: seq<Range>, x: int) {
    exists i :: 0 <= i < |rs| && rs[i].Contains(x)
  }

  /** Every index of [0, size) lies in exactly one range and no range holds
      an index outside [0, size). */
  ghost predicate ExactCover(rs: seq<Range>, size: int) {
    (forall x :: 0 <= x < size ==> Covered(rs, x)) &&
    (forall i, j, x :: 0 <= i < |rs| && 0 <= j < |rs| && rs[i].Contains(x) && rs[j].Contains(x) ==> i == j) &&
    (forall i, x :: 0 <= i < |rs| && rs[i].Contains(x) ==> 0 <= x < size)
  }

  function SumLen(rs: seq<Range>): nat {
    if rs == [] then 0 else SumLen(rs[..|rs| - 1]) + rs[|rs| - 1].Len()
  }

  lemma {:induction false} ContiguousMonotone(rs: seq<Range>, size: int, i: int, j: int)
    requires Contiguous(rs, size)
    requires 0 <= i < j < |rs|
    ensures rs[i].hi <= rs[j].lo
    decreases j - i
  {
    if i + 1 < j {
      ContiguousMonotone(rs, size, i + 1, j);
    }
  }

  lemma {:induction false} ContiguousBounds(rs: seq<Range>, size: int, i: int)
    requires Contiguous(rs, size)
    requires 0 <= i < |rs|
    ensures 0 <= rs[i].lo && rs[i].hi <= size
  {
    if i > 0 { ContiguousMonotone(rs, size, 0, i); }
    if i < |rs| - 1 { ContiguousMonotone(rs, size, i, |rs| - 1); }
  }

  /** The index of the range holding `x`, found by walking the ranges. */
  lemma {:induction false} ContiguousFind(rs: seq<Range>, size: int, x: int, from: int) returns (i: int)
    requires Contiguous(rs, size)
    requires 0 <= from < |rs| && rs[from].lo <= x < size
    ensures from <= i < |rs| && rs[i].Contains(x)
    decreases |rs| - from
  {
    if x < rs[from].hi {
      i := from;
    } else {
      i := ContiguousFind(rs, size, x, from + 1);
    }
  }

  /** A contiguous list of ranges is an exact cover. */
  lemma ContiguousIsExactCover(rs: seq<Range>, size: int)
    requires Contiguous(rs, size)
    ensures ExactCover(rs, size)
  {
    forall x | 0 <= x < size
      ensures Covered(rs, x)
    {
      var i := ContiguousFind(rs, size, x, 0);
    }
    forall i, j, x | 0 <= i < |rs| && 0 <= j < |rs| && rs[i].Contains(x) && rs[j].Contains(x)
      ensures i == j
    {
      if i < j { ContiguousMonotone(rs, size, i, j); }
      if j < i { ContiguousMonotone(rs, size, j, i); }
    }
    forall i, x | 0 <= i < |rs| && rs[i].Contains(x)
      ensures 0 <= x < size
    {
      ContiguousBounds(rs, size, i);
    }
  }

  /** The lengths of a contiguous list of ranges add up to `size`. */
  lemma {:induction false} ContiguousSumLen(rs: seq<Range>, size: int)
    requires Contiguous(rs, size)
    ensures SumLen(rs) == size
    decreases |rs|
  {
    if |rs| > 1 {
      var front := rs[..|rs| - 1];
      assert Contiguous(front, rs[|rs| - 2].hi);
      ContiguousSumLen(front, rs[|rs| - 2].hi);
    }
  }

  lemma MulMonotone(a: nat, b: nat, c: nat)
    requires a <= b
    ensures a * c <= b * c
  {
  }

  // ---------------------------------------------------------------------
  // Chunk with the remainder in the last task (sumsq.c, and the Java
  // runSumSq / runMonteCarlo / runMatMul).

  function Chunk(size: nat, threads: nat): nat
    requires threads >= 1
  {
    size / threads
  }

  /** Task i covers [i * chunk, (i + 1) * chunk), except the last, which ends at size. */
  function ChunkRange(size: nat, threads: nat, i: nat): Range
    requires threads >= 1
  {
    Range(i * Chunk(size, threads), if i == threads - 1 then size else (i + 1) * Chunk(size, threads))
  }

  function ChunkRanges(size: nat, threads: nat): (rs: seq<Range>)
    requires threads >= 1
    ensures |rs| == threads
    ensures forall i :: 0 <= i < threads ==> rs[i] == ChunkRange(size, threads, i)
  {
    seq(threads, i requires 0 <= i < threads => ChunkRange(size, threads, i))
  }

  /** The chunk ranges tile [0, size) for every size, also when threads > size
      (then every task but the last is empty). */
  lemma ChunkContiguous(size: nat, threads: nat)
    requires threads >= 1
    ensures Contiguous(ChunkRanges(size, threads), size)
    ensures ExactCover(ChunkRanges(size, threads), size)
    ensures SumLen(ChunkRanges(size, threads)) == size
  {
    var rs := ChunkRanges(size, threads);
    var c := Chunk(size, threads);
    assert (threads - 1) * c <= size by {
      MulMonotone(threads - 1, threads, c);
    }
    forall i | 0 <= i < threads
      ensures rs[i].lo <= rs[i].hi
    {
      MulMonotone(i, i + 1, c);
    }
    ContiguousIsExactCover(rs, size);
    ContiguousSumLen(rs, size);
  }

  /** When size >= threads every chunk task is non-empty, and the last one,
      which absorbs the remainder, is at least as long as the others. */
  lemma ChunkNonEmpty(size: nat, threads: nat, i: nat)
    requires 1 <= threads <= size && i < threads
    ensures ChunkRange(size, threads, i).Len() >= 1
    ensures i < threads - 1 ==> ChunkRange(size, threads, i).Len() == Chunk(size, threads)
    ensures ChunkRange(size, threads, threads - 1).Len() == size - Chunk(size, threads) * (threads - 1)
    ensures ChunkRange(size, threads, threads - 1).Len() >= Chunk(size, threads)
  {
    var c := Chunk(size, threads);
    assert c >= 1;
    assert threads * c <= size;
  }

  /** Java's matrix partition with more tasks than rows: rowsPer is 0, so every
      task but the last is empty and the last one gets all n rows. */
  lemma ChunkAllToLast(n: nat, threads: nat, t: nat)
    requires threads > n && t < threads
    ensures t < threads - 1 ==> ChunkRange(n, threads, t).Len() == 0
    ensures ChunkRange(n, threads, threads - 1) == Range(0, n)
  {
  }

  // ---------------------------------------------------------------------
  // Balanced base/rem (montecarlo.c, matmul.c).

  /** Task i gets base + 1 items when i < rem, otherwise base. */
  function BalancedCount(size: nat, threads: nat, i: nat): nat
    requires threads >= 1
  {
    size / threads + (if i < size % threads then 1 else 0)
  }

  /** Where task i starts: the running sum of the counts before it. */
  function BalancedStart(size: nat, threads: nat, i: nat): nat
    requires threads >= 1
  {
    if i == 0 then 0 else BalancedStart(size, threads, i - 1) + BalancedCount(size, threads, i - 1)
  }

  function BalancedRanges(size: nat, threads: nat): (rs: seq<Range>)
    requires threads >= 1
    ensures |rs| == threads
  {
    seq(threads, i requires 0 <= i < threads =>
      Range(BalancedStart(size, threads, i), BalancedStart(size, threads, i) + BalancedCount(size, threads, i)))
  }

  /** The first `rem` tasks get base + 1 and the rest base, so the counts differ by
      at most one, each is at least one when size >= threads, and task i starts
      at i * base + min(i, rem). */
  lemma BalancedCounts(size: nat, threads: nat, i: nat, j: nat)
    requires threads >= 1 && i < threads && j < threads
    ensures BalancedCount(size, threads, i) == size / threads + 1 <==> i < size % threads
    ensures BalancedCount(size, threads, i) <= BalancedCount(size, threads, j) + 1
    ensures size >= threads ==> BalancedCount(size, threads, i) >= 1
  {
    if size >= threads {
      assert size / threads >= 1;
    }
  }

  lemma {:induction false} BalancedStartClosed(size: nat, threads: nat, i: nat)
    requires threads >= 1 && i <= threads
    ensures BalancedStart(size, threads, i) == i * (size / threads) + (if i < size % threads then i else size % threads)
  {
    if i > 0 {
      BalancedStartClosed(size, threads, i - 1);
      ClosedFormStep(i, size / threads, size % threads, BalancedStart(size, threads, i - 1));
    }
  }

  /** One step of the closed form: adding task i - 1's count to its start. */
  lemma ClosedFormStep(i: nat, base: nat, rem: nat, prev: nat)
    requires i > 0 && prev == (i - 1) * base + (if i - 1 < rem then i - 1 else rem)
    ensures prev + base + (if i - 1 < rem then 1 else 0) == i * base + (if i < rem then i else rem)
  {
    assert (i - 1) * base + base == i * base;
  }

  lemma {:induction false} BalancedStartMonotone(size: nat, threads: nat, i: nat, j: nat)
    requires threads >= 1 && i <= j
    ensures BalancedStart(size, threads, i) <= BalancedStart(size, threads, j)
    decreases j - i
  {
    if i < j { BalancedStartMonotone(size, threads, i, j - 1); }
  }

  /** The last balanced task ends at size. */
  lemma BalancedEnd(size: nat, threads: nat)
    requires threads >= 1
    ensures BalancedStart(size, threads, threads) == size
  {
    BalancedStartClosed(size, threads, threads);
    assert threads * (size / threads) + size % threads == size;
  }

  /** The balanced ranges tile [0, size): they start at 0, meet end to start,
      the end of the last is size, and the counts add up to size. */
  lemma BalancedContiguous(size: nat, threads: nat)
    requires threads >= 1
    ensures BalancedStart(size, threads, threads) == size
    ensures Contiguous(BalancedRanges(size, threads), size)
    ensures ExactCover(BalancedRanges(size, threads), size)
    ensures SumLen(BalancedRanges(size, threads)) == size
  {
    BalancedEnd(size, threads);
    var rs := BalancedRanges(size, threads);
    assert rs[threads - 1].hi == BalancedStart(size, threads, threads);
    ContiguousIsExactCover(rs, size);
    ContiguousSumLen(rs, size);
  }

  // ---------------------------------------------------------------------
  // Clamped chunk (the Rust run_montecarlo).

  function ClampedChunk(size: nat, threads: nat): (c: nat)
    requires threads >= 1
    ensures c >= 1
  {
    if size / threads >= 1 then size / threads else 1
  }

  /** Task tid runs [tid * chunk, min((tid + 1) * chunk, size)); the last task
      ends at size. A range whose start passes its end is empty. */
  function ClampedRange(size: nat, threads: nat, tid: nat): Range
    requires threads >= 1
  {
    var c := ClampedChunk(size, threads);
    Range(tid * c, if tid == threads - 1 then size
                   else if (tid + 1) * c <= size then (tid + 1) * c else size)
  }

  function ClampedRanges(size: nat, threads: nat): (rs: seq<Range>)
    requires threads >= 1
    ensures |rs| == threads
  {
    seq(threads, i requires 0 <= i < threads => ClampedRange(size, threads, i))
  }

  /** The task that runs index x. */
  function ClampedOwner(size: nat, threads: nat, x: nat): (t: nat)
    requires threads >= 1
    ensures t < threads
  {
    if x / ClampedChunk(size, threads) < threads - 1 then x / ClampedChunk(size, threads) else threads - 1
  }

  lemma ClampedOwnerRuns(size: nat, threads: nat, x: nat, t: nat)
    requires threads >= 1 && x < size && t < threads
    ensures ClampedRange(size, threads, t).Contains(x) <==> t == ClampedOwner(size, threads, x)
  {
    var c := ClampedChunk(size, threads);
    var q := x / c;
    assert q * c <= x < (q + 1) * c;
    if t < q {
      MulMonotone(t + 1, q, c);
    } else if t > q {
      MulMonotone(q + 1, t, c);
    }
    if t == threads - 1 && q >= threads - 1 {
      MulMonotone(threads - 1, q, c);
    }
  }

  /** Even when threads > size the clamped ranges run every index of
      [0, size) exactly once and nothing outside it. */
  lemma ClampedExactCover(size: nat, threads: nat)
    requires threads >= 1
    ensures ExactCover(ClampedRanges(size, threads), size)
  {
    var rs := ClampedRanges(size, threads);
    var c := ClampedChunk(size, threads);
    forall x | 0 <= x < size
      ensures Covered(rs, x)
    {
      var t := ClampedOwner(size, threads, x);
      ClampedOwnerRuns(size, threads, x, t);
      assert rs[t].Contains(x);
    }
    forall i, x | 0 <= i < |rs| && rs[i].Contains(x)
      ensures 0 <= x < size
    {
    }
    forall i, j, x | 0 <= i < |rs| && 0 <= j < |rs| && rs[i].Contains(x) && rs[j].Contains(x)
      ensures i == j
    {
      ClampedOwnerRuns(size, threads, x, i);
      ClampedOwnerRuns(size, threads, x, j);
    }
  }

  /** When size >= threads the clamp never bites: the Rust ranges are the
      chunk-with-remainder ranges. */
  lemma ClampedIsChunk(size: nat, threads: nat)
    requires 1 <= threads <= size
    ensures ClampedRanges(size, threads) == ChunkRanges(size, threads)
  {
    var c := size / threads;
    assert c >= 1;
    forall i | 0 <= i < threads
      ensures ClampedRange(size, threads, i) == ChunkRange(size, threads, i)
    {
      if i < threads - 1 {
        MulMonotone(i + 1, threads, c);
      }
    }
  }
}
