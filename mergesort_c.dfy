/** The merge sort of the C harness (src/mergesort.c): the in-place merge of
    two adjacent runs through a scratch buffer, the recursive worker with its
    depth cutoff for spawning threads, and run_mergesort's guards and
    max_depth loop. The spawned half is run before the other half, in the
    calling thread; the two halves touch disjoint cells. */
module MergeSortC {
  import opened Common
  import opened Sorting
  import opened ArrayMerge

  const TWO_POW_30: int := 0x4000_0000

  /** merge(arr, tmp, l, m, r): the runs arr[l..m] and arr[m+1..r] (inclusive
      bounds, the half-open [l, m + 1) and [m + 1, r + 1)) are merged into
      tmp[l..r], left run first on ties, and copied back. Only cells l..r of
      arr and tmp are written. */
  method MergeRuns(arr: array<int>, tmp: array<int>, l: int, m: int, r: int)
    requires arr != tmp && tmp.Length == arr.Length
    requires 0 <= l <= m < r < arr.Length
    modifies arr, tmp
    ensures arr[l..r + 1] == Merge(old(arr[l..m + 1]), old(arr[m + 1..r + 1]))
    ensures UnchangedOutside(arr[..], old(arr[..]), l, r + 1)
    ensures UnchangedOutside(tmp[..], old(tmp[..]), l, r + 1)
  {
    MergeAndCopyBack(arr, tmp, l, m + 1, r + 1);
  }

  /** When l < r the midpoint (l + r) / 2 splits [l, r] into two strictly
      smaller non-empty halves [l, m] and [m + 1, r]. */
  lemma Midpoint(l: int, r: int)
    requires l < r
    ensures l <= (l + r) / 2 < r
  {
  }

  /** The threads the worker on [l, r] creates: one at every splitting node
      whose depth is below max_depth. */
  function ThreadsCreated(l: int, r: int, depth: int, maxDepth: int): nat
    decreases r - l
  {
    if l >= r then 0
    else
      var m := (l + r) / 2;
      Midpoint(l, r);
      (if depth < maxDepth then 1 else 0) +
      ThreadsCreated(l, m, depth + 1, maxDepth) + ThreadsCreated(m + 1, r, depth + 1, maxDepth)
  }

  /** No node at or below max_depth creates a thread. */
  lemma {:induction false} NoThreadsBelowCutoff(l: int, r: int, depth: int, maxDepth: int)
    requires depth >= maxDepth
    ensures ThreadsCreated(l, r, depth, maxDepth) == 0
    decreases r - l
  {
    if l < r {
      var m := (l + r) / 2;
      Midpoint(l, r);
      NoThreadsBelowCutoff(l, m, depth + 1, maxDepth);
      NoThreadsBelowCutoff(m + 1, r, depth + 1, maxDepth);
    }
  }

  /** A worker at `depth` creates at most 2^(max_depth - depth) - 1 threads;
      the root (depth 0) at most 2^max_depth - 1. */
  lemma {:induction false} ThreadsCreatedBound(l: int, r: int, depth: int, maxDepth: int)
    requires depth <= maxDepth
    ensures ThreadsCreated(l, r, depth, maxDepth) <= Pow2(maxDepth - depth) - 1
    decreases r - l
  {
    if l < r {
      var m := (l + r) / 2;
      Midpoint(l, r);
      if depth < maxDepth {
        ThreadsCreatedBound(l, m, depth + 1, maxDepth);
        ThreadsCreatedBound(m + 1, r, depth + 1, maxDepth);
        assert Pow2(maxDepth - depth) == 2 * Pow2(maxDepth - (depth + 1));
      } else {
        NoThreadsBelowCutoff(l, r, depth, maxDepth);
      }
    }
  }

  /** One level of the call tree: the threads created by the worker on
      [l, r], l < r, are the one it spawns plus those of its two halves. */
  lemma ThreadsCreatedSplit(l: int, m: int, r: int, depth: int, maxDepth: int)
    requires l < r && m == (l + r) / 2
    ensures ThreadsCreated(l, r, depth, maxDepth) ==
      (if depth < maxDepth then 1 else 0) +
      ThreadsCreated(l, m, depth + 1, maxDepth) + ThreadsCreated(m + 1, r, depth + 1, maxDepth)
  {
  }

  /** mergesort_worker on [l, r] (inclusive): afterwards arr[l..r] is a sorted
      permutation of its old contents and no cell of arr or tmp outside
      [l, r] has changed. Returns the number of threads the call tree creates. */
  method MergeSortWorker(arr: array<int>, tmp: array<int>, l: int, r: int, depth: int, maxDepth: int)
    returns (spawned: nat)
    requires arr != tmp && tmp.Length == arr.Length
    requires 0 <= l && r < arr.Length
    modifies arr, tmp
    ensures l <= r ==> SortedPermutationOn(arr[..], old(arr[..]), l, r + 1)
    ensures UnchangedOutside(arr[..], old(arr[..]), l, r + 1)
    ensures UnchangedOutside(tmp[..], old(tmp[..]), l, r + 1)
    ensures spawned == ThreadsCreated(l, r, depth, maxDepth)
    decreases r - l, 2
  {
    if l > r {
      return 0;
    }
    if l == r {
      assert arr[l..r + 1] == [arr[l]];
      return 0;
    }
    spawned := SplitAndMerge(arr, tmp, l, r, depth, maxDepth);
  }

  /** The splitting case of mergesort_worker, l < r: sort both halves, then
      merge them. */
  method SplitAndMerge(arr: array<int>, tmp: array<int>, l: int, r: int, depth: int, maxDepth: int)
    returns (spawned: nat)
    requires arr != tmp && tmp.Length == arr.Length
    requires 0 <= l < r < arr.Length
    modifies arr, tmp
    ensures SortedPermutationOn(arr[..], old(arr[..]), l, r + 1)
    ensures UnchangedOutside(arr[..], old(arr[..]), l, r + 1)
    ensures UnchangedOutside(tmp[..], old(tmp[..]), l, r + 1)
    ensures spawned == ThreadsCreated(l, r, depth, maxDepth)
    decreases r - l, 1
  {
    var m := (l + r) / 2;
    Midpoint(l, r);
    ghost var a0, t0 := arr[..], tmp[..];
    var s1, s2 := SortHalves(arr, tmp, l, m, r, depth, maxDepth);
    MergeSortedHalves(arr, tmp, l, m, r, a0, t0);
    ThreadsCreatedSplit(l, m, r, depth, maxDepth);
    spawned := (if depth < maxDepth then 1 else 0) + s1 + s2;
  }

  /** The merge at the end of mergesort_worker, on halves already sorted:
      `before` and `tmpBefore` are the contents of arr and tmp before the
      halves were sorted. */
  method MergeSortedHalves(arr: array<int>, tmp: array<int>, l: int, m: int, r: int,
                           ghost before: seq<int>, ghost tmpBefore: seq<int>)
    requires arr != tmp && tmp.Length == arr.Length
    requires 0 <= l <= m < r < arr.Length && |before| == arr.Length && |tmpBefore| == tmp.Length
    requires HalvesSorted(arr[..], before, l, m + 1, r + 1)
    requires UnchangedOutside(tmp[..], tmpBefore, l, r + 1)
    modifies arr, tmp
    ensures SortedPermutationOn(arr[..], before, l, r + 1)
    ensures UnchangedOutside(arr[..], before, l, r + 1)
    ensures UnchangedOutside(tmp[..], tmpBefore, l, r + 1)
  {
    ghost var a2, t2 := arr[..], tmp[..];
    MergeRuns(arr, tmp, l, m, r);
    MergeHalvesStep(before, a2, arr[..], l, m + 1, r + 1);
    FrameTwo(tmpBefore, t2, tmp[..], l, r + 1, l, r + 1, l, r + 1);
  }

  /** The two recursive calls of mergesort_worker: [l, m] (in a new thread
      while depth < max_depth; run here first) and then [m + 1, r]. */
  method SortHalves(arr: array<int>, tmp: array<int>, l: int, m: int, r: int, depth: int, maxDepth: int)
    returns (s1: nat, s2: nat)
    requires arr != tmp && tmp.Length == arr.Length
    requires 0 <= l <= m < r < arr.Length
    modifies arr, tmp
    ensures HalvesSorted(arr[..], old(arr[..]), l, m + 1, r + 1)
    ensures UnchangedOutside(tmp[..], old(tmp[..]), l, r + 1)
    ensures s1 == ThreadsCreated(l, m, depth + 1, maxDepth)
    ensures s2 == ThreadsCreated(m + 1, r, depth + 1, maxDepth)
    decreases r - l, 0
  {
    ghost var a0, t0 := arr[..], tmp[..];
    s1 := MergeSortWorker(arr, tmp, l, m, depth + 1, maxDepth);
    ghost var a1, t1 := arr[..], tmp[..];
    s2 := MergeSortWorker(arr, tmp, m + 1, r, depth + 1, maxDepth);
    HalvesStep(a0, a1, arr[..], l, m + 1, r + 1);
    FrameTwo(t0, t1, tmp[..], l, m + 1, m + 1, r + 1, l, r + 1);
  }

  /** The max_depth loop: the least d with 2^d >= threads. */
  method MaxDepth(threads: int) returns (d: nat)
    ensures Pow2(d) >= threads
    ensures d > 0 ==> Pow2(d - 1) < threads
  {
    d := 0;
    var p := 1;
    while p < threads
      invariant p == Pow2(d)
      invariant d > 0 ==> Pow2(d - 1) < threads
      decreases threads - p
    {
      p := 2 * p;
      d := d + 1;
    }
  }

  /** The top-level call mergesort_worker(arr, tmp, 0, n - 1, 0, max_depth):
      the whole array ends sorted and a permutation of its old contents. */
  method SortWhole(arr: array<int>, tmp: array<int>, maxDepth: int) returns (spawned: nat)
    requires arr != tmp && tmp.Length == arr.Length
    modifies arr, tmp
    ensures Sorted(arr[..]) && multiset(arr[..]) == multiset(old(arr[..]))
    ensures spawned == ThreadsCreated(0, arr.Length - 1, 0, maxDepth)
  {
    ghost var input := arr[..];
    spawned := MergeSortWorker(arr, tmp, 0, arr.Length - 1, 0, maxDepth);
    if arr.Length > 0 {
      assert arr[0..arr.Length] == arr[..];
      assert input[0..arr.Length] == input;
    }
  }

  /** With max_depth the least d with 2^d >= threads, the sort creates fewer
      than 2 * threads threads. */
  lemma ThreadsBelowTwice(r: int, threads: int, maxDepth: nat)
    requires threads > 0 && Pow2(maxDepth) >= threads
    requires maxDepth > 0 ==> Pow2(maxDepth - 1) < threads
    ensures ThreadsCreated(0, r, 0, maxDepth) < 2 * threads
  {
    ThreadsCreatedBound(0, r, 0, maxDepth);
    if maxDepth == 0 {
      NoThreadsBelowCutoff(0, r, 0, maxDepth);
    } else {
      assert Pow2(maxDepth) == 2 * Pow2(maxDepth - 1);
    }
  }

  /** run_mergesort, sequentially. `allocOk` stands for the two allocations,
      `fill(i)` for the i-th value rand() returns, and `largeOk` for the
      outcome of a sort of more than 2^30 elements, whose midpoint
      computation may overflow. Returns the status, the array after sorting,
      and the number of threads the sort creates. */
  method RunMergeSort(threads: int, size: u64, allocOk: bool, largeOk: bool, fill: nat -> int)
    returns (ok: int, sorted: seq<int>, spawned: nat)
    ensures ok == 1 <==>
      threads > 0 && size >= 2 && Int32Cast(size) >= 0 && allocOk &&
      (Int32Cast(size) <= TWO_POW_30 || largeOk)
    ensures ok == 0 || ok == 1
    ensures ok == 1 && Int32Cast(size) <= TWO_POW_30 ==>
      var n := Int32Cast(size);
      |sorted| == n && Sorted(sorted) &&
      multiset(sorted) == multiset(seq(n, i requires 0 <= i < n => fill(i)))
    ensures ok == 1 ==> spawned < 2 * threads
    ensures ok == 0 ==> spawned == 0
  {
    sorted, spawned := [], 0;
    if threads <= 0 { return 0, sorted, spawned; }
    if size < 2 { return 0, sorted, spawned; }
    var n := Int32Cast(size);
    // a negative n converts to a request of nearly 2^64 bytes, which fails
    if n < 0 || !allocOk { return 0, sorted, spawned; }
    if n > TWO_POW_30 {
      // (l + r) / 2 may overflow an int: undefined behaviour, outcome largeOk
      ok := if largeOk then 1 else 0;
      return;
    }
    sorted, spawned := SortFilled(n, threads, fill);
    ok := 1;
  }

  /** The body of run_mergesort once the guards and allocations have passed:
      fill arr[0..n), compute max_depth, sort with the worker, and walk the
      checksum indices. */
  method SortFilled(n: nat, threads: int, fill: nat -> int) returns (sorted: seq<int>, spawned: nat)
    requires threads > 0
    ensures |sorted| == n && Sorted(sorted)
    ensures multiset(sorted) == multiset(seq(n, i requires 0 <= i < n => fill(i)))
    ensures spawned < 2 * threads
  {
    var arr := new int[n](i requires 0 <= i < n => fill(i));
    var tmp := new int[n];
    assert arr[..] == seq(n, i requires 0 <= i < n => fill(i));
    var maxDepth := MaxDepth(threads);
    spawned := SortWhole(arr, tmp, maxDepth);
    ThreadsBelowTwice(n - 1, threads, maxDepth);
    var visited := StridedChecksumIndices(n);
    sorted := arr[..];
  }
}
