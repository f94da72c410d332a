/** The Java harness (com/mcb/Main.java): parseArgs with its key/value map,
    the chunk partitions and per-task seeds of the workloads, the merge sort
    entry point (MergeSortTask.compute and merge are ArrayMerge's
    ThresholdMergeSort and MergeAndCopyBack, with THRESH = 2^14), and the
    guard and bit-reversal loop of runFFT. usageAndExit and every exception
    that reaches the top become a `None` or `false` result. */
module JavaBench {
  import opened Common
  import opened Partition
  import opened Sorting
  import opened ArrayMerge
  import MatMul

  /** MergeSortTask.THRESH: ranges up to this length go to Arrays.sort. */
  const THRESH: int := 0x4000
  /** The odd constant the per-task seeds are spread by. */
  const SEED_SPREAD: u64 := 0x9E3779B97F4A7C15
  /** SEED_SPREAD * SEED_SPREAD_INVERSE is 1 mod 2^64. */
  const SEED_SPREAD_INVERSE: u64 := 17428512612931826493

  // ---------------------------------------------------------------------
  // parseArgs

  /** String.startsWith("--"). */
  predicate StartsWithDashes(k: string) {
    |k| >= 2 && k[..2] == "--"
  }

  /** The command lines parseArgs's loop accepts: an even number of tokens,
      each key (every token at an even position) starting with "--". */
  predicate WellFormedPairs(args: seq<string>) {
    |args| % 2 == 0 &&
    forall i :: 0 <= i < |args| && i % 2 == 0 ==> StartsWithDashes(args[i])
  }

  /** The map the loop builds: the pairs put in order, so a later value for
      the same key replaces an earlier one. */
  function PairsMap(args: seq<string>): map<string, string>
    requires |args| % 2 == 0
  {
    if args == [] then map[]
    else PairsMap(args[..|args| - 2])[args[|args| - 2] := args[|args| - 1]]
  }

  /** The keys of the map are exactly the tokens at even positions. */
  lemma {:induction false} PairsMapKeys(args: seq<string>, k: string)
    requires |args| % 2 == 0
    ensures k in PairsMap(args) <==> exists i :: 0 <= i < |args| && i % 2 == 0 && args[i] == k
    decreases |args|
  {
    if args != [] {
      var init := args[..|args| - 2];
      PairsMapKeys(init, k);
      if k in PairsMap(init) {
        var i :| 0 <= i < |init| && i % 2 == 0 && init[i] == k;
        assert args[i] == k;
      }
      if exists i :: 0 <= i < |args| && i % 2 == 0 && args[i] == k {
        var i :| 0 <= i < |args| && i % 2 == 0 && args[i] == k;
        if i < |args| - 2 {
          assert init[i] == k;
        }
      }
    }
  }

  /** For a duplicated key the later value wins: the value of the key at
      position i is the token after it when no later key repeats it. */
  lemma {:induction false} LaterValueWins(args: seq<string>, i: nat)
    requires |args| % 2 == 0 && i % 2 == 0 && i + 1 < |args|
    requires forall j :: i < j < |args| && j % 2 == 0 ==> args[j] != args[i]
    ensures args[i] in PairsMap(args) && PairsMap(args)[args[i]] == args[i + 1]
    decreases |args|
  {
    var init := args[..|args| - 2];
    if i < |args| - 2 {
      assert args[|args| - 2] != args[i];
      LaterValueWins(init, i);
    }
  }

  /** The loop of parseArgs: key k = args[i] must start with "--" and have a
      value args[i + 1]; m.put(k, v) for each pair. Fails (usageAndExit) at
      the first bad key or a key without a value. */
  method BuildMap(args: seq<string>) returns (ok: bool, m: map<string, string>)
    ensures ok <==> WellFormedPairs(args)
    ensures ok ==> m == PairsMap(args)
  {
    m := map[];
    var i := 0;
    while i < |args|
      invariant 0 <= i <= |args| && i % 2 == 0
      invariant forall p :: 0 <= p < i && p % 2 == 0 ==> StartsWithDashes(args[p])
      invariant m == PairsMap(args[..i])
      decreases |args| - i
    {
      var k := args[i];
      if !StartsWithDashes(k) {
        return false, m;
      }
      if i + 1 >= |args| {
        return false, m;
      }
      var v := args[i + 1];
      assert args[..i + 2][..i] == args[..i];
      m := m[k := v];
      i := i + 2;
    }
    assert args[..i] == args;
    return true, m;
  }

  /** The validated settings. */
  datatype JavaArgs = JavaArgs(alg: int, threads: int, runs: int, size: int, out: string)

  /** The five keys parseArgs requires. */
  predicate HasKeys(m: map<string, string>) {
    "--alg" in m && "--threads" in m && "--runs" in m && "--size" in m && "--out" in m
  }

  /** The try block and the range check of parseArgs on the map: req for each
      key, Integer.parseInt / Long.parseLong (None for a
      NumberFormatException), Path.of (false for an invalid path), then
      alg in 1..5 and threads, runs, size at least 1. There is no upper
      bound on threads. */
  function Decode(m: map<string, string>, parseInt: string -> Option<int>,
                  parseLong: string -> Option<int>, pathOk: string -> bool): (r: Option<JavaArgs>)
    ensures r.Some? ==> HasKeys(m) && pathOk(m["--out"]) && r.value.out == m["--out"]
    ensures r.Some? ==>
      parseInt(m["--alg"]) == Some(r.value.alg) && parseInt(m["--threads"]) == Some(r.value.threads) &&
      parseInt(m["--runs"]) == Some(r.value.runs) && parseLong(m["--size"]) == Some(r.value.size)
    ensures r.Some? ==>
      1 <= r.value.alg <= 5 && r.value.threads >= 1 && r.value.runs >= 1 && r.value.size >= 1
  {
    if !HasKeys(m) then None
    else
      var alg, threads, runs := parseInt(m["--alg"]), parseInt(m["--threads"]), parseInt(m["--runs"]);
      var size := parseLong(m["--size"]);
      if alg.None? || threads.None? || runs.None? || size.None? || !pathOk(m["--out"]) then None
      else if alg.value < 1 || alg.value > 5 || threads.value < 1 || runs.value < 1 || size.value < 1 then None
      else Some(JavaArgs(alg.value, threads.value, runs.value, size.value, m["--out"]))
  }

  /** Every decodable map with all values in range is accepted: in
      particular any thread count of at least 1, unlike the C harness's cap
      of 256. */
  lemma DecodeAccepts(m: map<string, string>, parseInt: string -> Option<int>,
                      parseLong: string -> Option<int>, pathOk: string -> bool, a: JavaArgs)
    requires HasKeys(m) && pathOk(m["--out"]) && a.out == m["--out"]
    requires parseInt(m["--alg"]) == Some(a.alg) && parseInt(m["--threads"]) == Some(a.threads)
    requires parseInt(m["--runs"]) == Some(a.runs) && parseLong(m["--size"]) == Some(a.size)
    requires 1 <= a.alg <= 5 && a.threads >= 1 && a.runs >= 1 && a.size >= 1
    ensures Decode(m, parseInt, parseLong, pathOk) == Some(a)
  {
  }

  /** parseArgs: an empty command line, a malformed one, a missing or
      unparsable value and an out-of-range value all end in usageAndExit
      (None). */
  method ParseArgs(args: seq<string>, parseInt: string -> Option<int>,
                   parseLong: string -> Option<int>, pathOk: string -> bool)
    returns (r: Option<JavaArgs>)
    ensures r.Some? ==> |args| > 0 && WellFormedPairs(args)
    ensures r == (if |args| == 0 || !WellFormedPairs(args) then None
                  else Decode(PairsMap(args), parseInt, parseLong, pathOk))
  {
    if |args| == 0 {
      return None;
    }
    var ok, m := BuildMap(args);
    if !ok {
      return None;
    }
    r := Decode(m, parseInt, parseLong, pathOk);
  }

  // ---------------------------------------------------------------------
  // Partitions and seeds

  /** runMatMul gives task t the rows [t * rowsPer, (t + 1) * rowsPer), the
      last task up to n: these are the chunk ranges, so the cells of C the
      tasks write, [r0 * n, r1 * n), are disjoint and cover the matrix. */
  lemma MatMulWritesExactCover(n: nat, threads: nat)
    requires threads >= 1
    ensures ExactCover(MatMul.WriteSets(ChunkRanges(n, threads), n), n * n)
  {
    ChunkContiguous(n, threads);
    MatMul.WriteSetsContiguous(ChunkRanges(n, threads), n, n);
    ContiguousIsExactCover(MatMul.WriteSets(ChunkRanges(n, threads), n), n * n);
  }

  /** The long product 0x9E3779B97F4A7C15 * (t + 1), wrapping modulo 2^64. */
  function Spread(t: nat): u64 {
    MulWrap(t + 1, SEED_SPREAD)
  }

  /** The seed of task t in runMonteCarlo: the clock reading seedBase mixed
      with the spread of t. */
  function TaskSeed(seedBase: u64, t: nat): u64 {
    XorWord(seedBase, Spread(t))
  }

  /** Different tasks get different seeds, whatever the clock reads: the
      spread constant is odd, so its products with different t + 1 differ
      mod 2^64, and xor-ing both with seedBase keeps them apart. */
  lemma TaskSeedsDistinct(seedBase: u64, t: nat, u: nat)
    requires t != u && t + 1 < TWO_POW_64 && u + 1 < TWO_POW_64
    ensures TaskSeed(seedBase, t) != TaskSeed(seedBase, u)
  {
    MulWrapInjective(t + 1, u + 1, SEED_SPREAD, SEED_SPREAD_INVERSE);
    XorWordInjective(seedBase, Spread(t), Spread(u));
  }

  // ---------------------------------------------------------------------
  // runMergeSort

  /** The largest parallelism a ForkJoinPool accepts (its MAX_CAP). */
  const FJ_MAX_CAP: int := 0x7fff

  /** runMergeSort: n = (int) nLong; `fill(i)` is the i-th rng.nextInt().
      A negative n ends in NegativeArraySizeException, and a thread count
      outside 1..FJ_MAX_CAP in the IllegalArgumentException of
      `new ForkJoinPool(threads)` (both false). Otherwise the MergeSortTask
      over [0, n) leaves the array sorted: it equals the reference sort of
      the input, so the final arr[0] > arr[n - 1] check never prints. */
  method RunMergeSort(threads: int, nLong: u64, fill: nat -> int) returns (ok: bool, sorted: seq<int>)
    ensures ok <==> Int32Cast(nLong) >= 0 && 0 < threads <= FJ_MAX_CAP
    ensures ok ==> var n := Int32Cast(nLong);
      sorted == SortSeq(seq(n, i requires 0 <= i < n => fill(i)))
    ensures ok ==> |sorted| == Int32Cast(nLong) && Sorted(sorted)
    ensures ok && |sorted| >= 2 ==> sorted[0] <= sorted[|sorted| - 1]
  {
    var n := Int32Cast(nLong);
    if n < 0 {
      return false, [];
    }
    if threads <= 0 || threads > FJ_MAX_CAP {
      return false, [];
    }
    sorted := SortFilled(n, fill);
    ok := true;
  }

  /** The body of runMergeSort for n >= 0: fill arr[0..n) and run the
      MergeSortTask over [0, n). */
  method SortFilled(n: nat, fill: nat -> int) returns (sorted: seq<int>)
    ensures sorted == SortSeq(seq(n, i requires 0 <= i < n => fill(i)))
  {
    var arr := new int[n](i requires 0 <= i < n => fill(i));
    ghost var input := arr[..];
    var tmp := new int[n];
    ThresholdMergeSort(arr, tmp, 0, n, THRESH);
    assert arr[0..n] == arr[..] && input[0..n] == input;
    SortedPermutationIsSortSeq(arr[..], input);
    assert input == seq(n, i requires 0 <= i < n => fill(i));
    sorted := arr[..];
  }

  // ---------------------------------------------------------------------
  // runFFT: guard and bit-reversal permutation

  /** The (re, im) pairs of two parallel arrays. */
  function Pairs(re: seq<real>, im: seq<real>): (ps: seq<(real, real)>)
    requires |re| == |im|
    ensures |ps| == |re|
    ensures forall i :: 0 <= i < |re| ==> ps[i] == (re[i], im[i])
  {
    seq(|re|, i requires 0 <= i < |re| => (re[i], im[i]))
  }

  /** Swapping two positions keeps the multiset of a sequence. */
  lemma SwapKeepsMultiset<T>(s: seq<T>, i: nat, j: nat)
    requires i < j < |s|
    ensures multiset(s[i := s[j]][j := s[i]]) == multiset(s)
  {
    var t := s[i := s[j]][j := s[i]];
    assert s == s[..i] + [s[i]] + s[i + 1..j] + [s[j]] + s[j + 1..];
    assert t == s[..i] + [s[j]] + s[i + 1..j] + [s[i]] + s[j + 1..];
  }

  /** The inner loop of the bit-reversal step and the xor after it, on the
      non-negative ints involved: clear the set bits of j from
      bit = n >>> 1 downwards, then set the first clear one. With n a power
      of two and j below n, the new j is below n too. */
  method NextReversed(j: nat, n: nat) returns (j': nat)
    requires IsPow2(n) && n >= 2 && j < n
    ensures j' < n
  {
    var bit := n / 2;
    ghost var e := Log2(n);
    j' := j;
    while AndNat(j', bit) != 0
      invariant bit == Pow2(e) / 2 && j' < Pow2(e) && Pow2(e) <= n
      decreases bit
    {
      // bit is 2^(e-1), the top bit of j' < 2^e
      assert bit != 0;
      assert e >= 1;
      ghost var q := Pow2(e - 1);
      assert Pow2(e) == 2 * q && bit == q;
      HighBit(j', e - 1);
      j' := XorNat(j', bit);
      bit := bit / 2;
      e := e - 1;
    }
    if bit == 0 {
      // every bit of j' has been cleared
      assert e == 0 && j' == 0;
    } else {
      ghost var q := Pow2(e - 1);
      assert Pow2(e) == 2 * q && bit == q;
      HighBit(j', e - 1);
      assert XorNat(j', bit) == j' + bit < n;
    }
    j' := XorNat(j', bit);
  }

  /** Swap (re[i], im[i]) with (re[j], im[j]). */
  method SwapPairs(re: array<real>, im: array<real>, i: nat, j: nat)
    requires re != im && re.Length == im.Length && i < j < re.Length
    modifies re, im
    ensures Pairs(re[..], im[..]) == old(Pairs(re[..], im[..]))[i := old((re[j], im[j]))][j := old((re[i], im[i]))]
    ensures multiset(Pairs(re[..], im[..])) == multiset(old(Pairs(re[..], im[..])))
  {
    ghost var ps := Pairs(re[..], im[..]);
    re[i], re[j] := re[j], re[i];
    im[i], im[j] := im[j], im[i];
    assert Pairs(re[..], im[..]) == ps[i := ps[j]][j := ps[i]];
    SwapKeepsMultiset(ps, i, j);
  }

  /** The bit-reversal loop of runFFT: j runs through the bit-reversed
      counter of i, and (re[i], im[i]) is swapped with (re[j], im[j]) when
      i < j. j stays below n, and the multiset of (re, im) pairs is kept. */
  method BitReversal(re: array<real>, im: array<real>, n: nat)
    requires re != im && re.Length == n && im.Length == n
    requires n == 0 || IsPow2(n)
    modifies re, im
    ensures multiset(Pairs(re[..], im[..])) == multiset(Pairs(old(re[..]), old(im[..])))
  {
    var i := 1;
    var j: nat := 0;
    while i < n
      invariant 1 <= i && (n >= 1 ==> i <= n)
      invariant j < n || n <= 1
      invariant multiset(Pairs(re[..], im[..])) == multiset(Pairs(old(re[..]), old(im[..])))
      decreases n - i
    {
      j := NextReversed(j, n);
      if i < j {
        SwapPairs(re, im, i, j);
      }
      i := i + 1;
    }
  }

  /** The guard (n & (n - 1)) != 0 on a non-negative int n passes for 0
      (0 & -1 is 0) and, for a positive n, when the AND of n and n - 1 is 0. */
  predicate PowerOfTwoGuard(n: nat) {
    n == 0 || AndNat(n, n - 1) == 0
  }

  /** The guard lets through exactly 0 and the powers of two. */
  lemma PowerOfTwoGuardMeaning(n: nat)
    ensures PowerOfTwoGuard(n) <==> n == 0 || IsPow2(n)
  {
    if n > 0 {
      AndPredecessorZeroIffPow2(n);
    }
  }

  /** runFFT up to the butterflies: n = (int) nLong; the guard
      (n & (n - 1)) != 0 throws; a negative n throws either there or
      (NegativeArraySizeException) when the arrays are allocated.
      Otherwise re[i] = signal(i), im[i] = 0, and after the bit-reversal loop
      the arrays hold a permutation of those pairs. The butterfly passes are
      floating point and are not part of this model. */
  method RunFft(threadsIgnored: int, nLong: u64, signal: nat -> real)
    returns (ok: bool, re: seq<real>, im: seq<real>)
    ensures ok <==> (Int32Cast(nLong) == 0 || (Int32Cast(nLong) > 0 && IsPow2(Int32Cast(nLong))))
    ensures ok ==> var n := Int32Cast(nLong);
      |re| == n && |im| == n &&
      multiset(Pairs(re, im)) == multiset(seq(n, i requires 0 <= i < n => (signal(i), 0.0)))
  {
    var n := Int32Cast(nLong);
    // a negative n throws whether or not it passes the guard
    if n < 0 {
      return false, [], [];
    }
    PowerOfTwoGuardMeaning(n);
    if !PowerOfTwoGuard(n) {
      return false, [], [];
    }
    var reA := new real[n](i requires 0 <= i < n => signal(i));
    var imA := new real[n](_ => 0.0);
    assert Pairs(reA[..], imA[..]) == seq(n, i requires 0 <= i < n => (signal(i), 0.0));
    BitReversal(reA, imA, n);
    return true, reA[..], imA[..];
  }
}
