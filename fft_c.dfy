/** The FFT workload of the C harness (src/fft.c): the complex helpers, the
    recursive radix-2 decimation with its even/odd split and combine loop,
    and run_fft's power-of-two guard. Arithmetic is over reals rather than
    `double`, and the twiddle factor e^(-2*pi*i*k/n), computed with cos and
    sin, is the parameter `w(k, n)`. */
module FftC {
  import opened Common

  datatype Complex = Complex(re: real, im: real)

  function CAdd(a: Complex, b: Complex): Complex {
    Complex(a.re + b.re, a.im + b.im)
  }

  function CSub(a: Complex, b: Complex): Complex {
    Complex(a.re - b.re, a.im - b.im)
  }

  function CMul(a: Complex, b: Complex): Complex {
    Complex(a.re * b.re - a.im * b.im, a.re * b.im + b.re * a.im)
  }

  /** The elements at even positions 0, 2, ..., 2 * (|x| / 2 - 1). */
  function Evens(x: seq<Complex>): (e: seq<Complex>)
    ensures |e| == |x| / 2
  {
    seq(|x| / 2, i requires 0 <= i < |x| / 2 => x[2 * i])
  }

  /** The elements at odd positions 1, 3, ..., 2 * (|x| / 2) - 1. */
  function Odds(x: seq<Complex>): (o: seq<Complex>)
    ensures |o| == |x| / 2
  {
    seq(|x| / 2, i requires 0 <= i < |x| / 2 => x[2 * i + 1])
  }

  /** The value the combine loop of fft_rec leaves at position i of a block
      of length n, given the transforms e and o of the even and odd halves
      and the old value: for k < n / 2, x[k] = e[k] + t and
      x[k + n / 2] = e[k] - t with t = w(k, n) * o[k]; for an odd n the last
      cell keeps old_i. The halves may be longer than n / 2, as Rust's
      step_by even half of an odd-length block is. */
  function Combined(e: seq<Complex>, o: seq<Complex>, n: nat, i: nat, old_i: Complex,
                    w: (nat, nat) -> Complex): Complex
    requires |e| >= n / 2 && |o| >= n / 2
  {
    var half := n / 2;
    if i < half then CAdd(e[i], CMul(w(i, n), o[i]))
    else if i < 2 * half then CSub(e[i - half], CMul(w(i - half, n), o[i - half]))
    else old_i
  }

  /** The result of the recursive decimation-in-time FFT as fft_rec computes
      it: blocks of length <= 1 are left alone; otherwise the halves are
      transformed and combined, and for an odd length the last element, which
      neither half holds, stays as it was. */
  function FftSpec(x: seq<Complex>, w: (nat, nat) -> Complex): (y: seq<Complex>)
    ensures |y| == |x|
    decreases |x|
  {
    if |x| <= 1 then x
    else
      var e := FftSpec(Evens(x), w);
      var o := FftSpec(Odds(x), w);
      seq(|x|, i requires 0 <= i < |x| => Combined(e, o, |x|, i, x[i], w))
  }

  /** A block of length <= 1 is its own transform. */
  lemma FftSpecSmall(x: seq<Complex>, w: (nat, nat) -> Complex)
    requires |x| <= 1
    ensures FftSpec(x, w) == x
  {
  }

  /** For an odd length the last element is untouched; every other index is
      written by the combine step from exactly one k < n / 2, as k or as
      k + n / 2. */
  lemma FftSpecCombineCover(x: seq<Complex>, w: (nat, nat) -> Complex, i: nat)
    requires |x| >= 2 && i < |x|
    ensures |x| % 2 == 1 && i == |x| - 1 ==> FftSpec(x, w)[i] == x[i]
    ensures i < 2 * (|x| / 2) ==>
      (i < |x| / 2 && FftSpec(x, w)[i] == CAdd(FftSpec(Evens(x), w)[i], CMul(w(i, |x|), FftSpec(Odds(x), w)[i]))) ||
      (|x| / 2 <= i && FftSpec(x, w)[i] ==
         CSub(FftSpec(Evens(x), w)[i - |x| / 2], CMul(w(i - |x| / 2, |x|), FftSpec(Odds(x), w)[i - |x| / 2])))
  {
  }

  /** The number of recursion levels below a block of length n. */
  function FftDepth(n: nat): nat
    decreases n
  {
    if n <= 1 then 0 else 1 + FftDepth(n / 2)
  }

  /** For a power-of-two length the recursion is log2 n levels deep. */
  lemma {:induction false} FftDepthIsLog2(n: nat)
    requires IsPow2(n)
    ensures FftDepth(n) == Log2(n)
    decreases n
  {
    if n > 1 {
      FftDepthIsLog2(n / 2);
    }
  }

  /** The length of the blocks d levels down: n halved d times. */
  function LevelSize(n: nat, d: nat): nat {
    if d == 0 then n else LevelSize(n, d - 1) / 2
  }

  /** Every level of a power-of-two FFT works on power-of-two blocks, and
      the block length times 2^d is n, down to blocks of length 1. */
  lemma {:induction false} LevelSizesArePow2(n: nat, d: nat)
    requires IsPow2(n) && d <= Log2(n)
    ensures IsPow2(LevelSize(n, d))
    ensures LevelSize(n, d) * Pow2(d) == n
    ensures d == Log2(n) ==> LevelSize(n, d) == 1
  {
    if d > 0 {
      LevelSizesArePow2(n, d - 1);
      var m := LevelSize(n, d - 1);
      // m * 2^(d-1) == n > 2^(d-1) rules out m == 1
      assert m != 1 by {
        if m == 1 { Log2Monotone(n, d - 1); }
      }
      var h, p := LevelSize(n, d), Pow2(d - 1);
      assert h * 2 == m && Pow2(d) == 2 * p;
      HalveAndDouble(h, m, p);
    }
    if d == Log2(n) {
      assert n == Pow2(d);
      Pow2Cancel(LevelSize(n, d), d);
    }
  }

  /** Halving one factor and doubling the other keeps the product. */
  lemma HalveAndDouble(h: nat, m: nat, p: nat)
    requires h * 2 == m
    ensures h * (2 * p) == m * p
  {
  }

  /** n = m * 2^d with m >= 1 means log2 n >= d, strictly when m > 1. */
  lemma {:induction false} Log2Monotone(n: nat, d: nat)
    requires IsPow2(n) && n == Pow2(d)
    ensures Log2(n) == d
    decreases d
  {
    if d > 0 {
      assert n / 2 == Pow2(d - 1);
      Pow2IsPow2(d - 1);
      Log2Monotone(n / 2, d - 1);
    }
  }

  /** m * 2^d == 2^d forces m == 1. */
  lemma Pow2Cancel(m: nat, d: nat)
    requires m * Pow2(d) == Pow2(d)
    ensures m == 1
  {
  }

  /** The fill loop of fft_rec: even[i] = x[2i] and odd[i] = x[2i + 1]. */
  method SplitEvenOdd(x: array<Complex>, n: nat) returns (even: array<Complex>, odd: array<Complex>)
    requires n <= x.Length
    ensures fresh(even) && fresh(odd) && even != odd
    ensures even.Length == n / 2 && odd.Length == n / 2
    ensures even[..] == Evens(x[..n]) && odd[..] == Odds(x[..n])
  {
    var half := n / 2;
    even := new Complex[half];
    odd := new Complex[half];
    var i := 0;
    while i < half
      invariant 0 <= i <= half
      invariant forall p :: 0 <= p < i ==> even[p] == x[2 * p] && odd[p] == x[2 * p + 1]
    {
      even[i] := x[2 * i];
      odd[i] := x[2 * i + 1];
      i := i + 1;
    }
  }

  /** One level of FftSpec: combining the transforms of the halves gives the
      transform of the block. */
  lemma FftSpecStep(xs: seq<Complex>, e: seq<Complex>, o: seq<Complex>, ys: seq<Complex>,
                    w: (nat, nat) -> Complex)
    requires |xs| >= 2 && |ys| == |xs|
    requires e == FftSpec(Evens(xs), w) && o == FftSpec(Odds(xs), w)
    requires forall idx :: 0 <= idx < |xs| ==> ys[idx] == Combined(e, o, |xs|, idx, xs[idx], w)
    ensures ys == FftSpec(xs, w)
  {
  }

  /** The combine loop of fft_rec: for k < n / 2 the butterfly of even[k]
      and w(k, n) * odd[k] is stored at x[k] and x[k + n / 2]. Every other
      cell of x keeps its value. */
  method CombineHalves(x: array<Complex>, n: nat, even: array<Complex>, odd: array<Complex>,
                       w: (nat, nat) -> Complex)
    requires n <= x.Length && even.Length == n / 2 && odd.Length == n / 2
    requires x != even && x != odd
    modifies x
    ensures forall idx :: 0 <= idx < x.Length ==>
      x[idx] == (if idx < n then Combined(even[..], odd[..], n, idx, old(x[idx]), w) else old(x[idx]))
  {
    var half := n / 2;
    var k := 0;
    while k < half
      invariant 0 <= k <= half
      invariant forall idx :: 0 <= idx < x.Length ==>
        x[idx] == (if idx < k || (half <= idx < half + k) then Combined(even[..], odd[..], n, idx, old(x[idx]), w)
                   else old(x[idx]))
    {
      var t := CMul(w(k, n), odd[k]);
      x[k] := CAdd(even[k], t);
      x[k + half] := CSub(even[k], t);
      k := k + 1;
    }
  }

  /** The first half of fft_rec: copy the even- and odd-indexed elements of
      x[0..n) out and transform each copy recursively. x is only read. */
  method TransformHalves(x: array<Complex>, n: nat, w: (nat, nat) -> Complex)
    returns (even: array<Complex>, odd: array<Complex>)
    requires 2 <= n <= x.Length
    ensures fresh(even) && fresh(odd) && even != odd
    ensures even.Length == n / 2 && odd.Length == n / 2
    ensures even[..] == FftSpec(Evens(x[..n]), w) && odd[..] == FftSpec(Odds(x[..n]), w)
    decreases n, 0
  {
    var half := n / 2;
    even, odd := SplitEvenOdd(x, n);
    ghost var ev0, od0 := even[..], odd[..];
    assert ev0[..half] == ev0 && od0[..half] == od0;
    FftRec(even, half, w);
    FftRec(odd, half, w);
    assert even[..] == even[..half] && odd[..] == odd[..half];
  }

  /** fft_rec(x, n): transforms x[0..n) in place; cells from n on are not
      touched. */
  method FftRec(x: array<Complex>, n: nat, w: (nat, nat) -> Complex)
    requires n <= x.Length
    modifies x
    ensures x[..n] == FftSpec(old(x[..n]), w)
    ensures x[n..] == old(x[n..])
    decreases n, 1
  {
    if n <= 1 {
      return;
    }
    ghost var before := x[..];
    var even, odd := TransformHalves(x, n, w);
    CombineHalves(x, n, even, odd, w);
    CombineGivesFft(before, x[..], n, even[..], odd[..], w);
  }

  /** A buffer combined on [0, n) from the transformed halves of its first n
      cells, and kept from n on, holds the transform of those n cells. */
  lemma CombineGivesFft(before: seq<Complex>, after: seq<Complex>, n: nat, e: seq<Complex>, o: seq<Complex>,
                        w: (nat, nat) -> Complex)
    requires 2 <= n <= |before| == |after|
    requires e == FftSpec(Evens(before[..n]), w) && o == FftSpec(Odds(before[..n]), w)
    requires forall idx :: 0 <= idx < |after| ==>
      after[idx] == (if idx < n then Combined(e, o, n, idx, before[idx], w) else before[idx])
    ensures after[..n] == FftSpec(before[..n], w)
    ensures after[n..] == before[n..]
  {
    assert forall idx :: 0 <= idx < n ==> after[..n][idx] == Combined(e, o, n, idx, before[..n][idx], w);
    FftSpecStep(before[..n], e, o, after[..n], w);
  }

  /** run_fft with the threads argument ignored. `allocOk` stands for the
      allocation and `signal(i)` for the i-th input sample (sin i, 0).
      Returns the status and the transformed buffer. */
  method RunFft(threads: int, size: u64, allocOk: bool, signal: nat -> Complex, w: (nat, nat) -> Complex)
    returns (ok: int, result: seq<Complex>)
    ensures ok == 1 <==>
      (Int32Cast(size) == 0 || (Int32Cast(size) > 0 && IsPow2(Int32Cast(size)))) && allocOk
    ensures ok == 0 || ok == 1
    ensures ok == 1 ==>
      var n := Int32Cast(size);
      result == FftSpec(seq(n, i requires 0 <= i < n => signal(i)), w)
  {
    result := [];
    var n := Int32Cast(size);
    if n < 0 {
      // n & (n - 1) is non-zero for every negative n but INT_MIN, where n - 1
      // overflows; the allocation it would then reach asks for nearly 2^64
      // bytes and fails
      return 0, result;
    }
    // n & (n - 1) on an int; for n == 0 that is 0 & -1 == 0, which passes
    var bits := if n == 0 then 0 else AndNat(n, n - 1);
    if n > 0 {
      AndPredecessorZeroIffPow2(n);
    }
    if bits != 0 {
      return 0, result;
    }
    if !allocOk {
      return 0, result;
    }
    var x := new Complex[n](i requires 0 <= i < n => signal(i));
    assert x[..n] == seq(n, i requires 0 <= i < n => signal(i));
    FftRec(x, n, w);
    var visited := StridedChecksumIndices(n);
    result := x[..n];
    ok := 1;
  }
}
