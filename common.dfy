/** Shared vocabulary of the benchmark harness: workload ids, run records,
    fixed-width integer helpers and powers of two. */
module Common {

  datatype Option<T> = None | Some(value: T)

  /** The five workloads, numbered 1..5 on the command line. */
  datatype AlgId = SumSq | MatMul | MonteCarlo | MergeSort | Fft

  /** The numeric id a workload is selected by. */
  function AlgNumber(a: AlgId): (k: int)
    ensures 1 <= k <= 5
  {
    match a
    case SumSq => 1
    case MatMul => 2
    case MonteCarlo => 3
    case MergeSort => 4
    case Fft => 5
  }

  /** The workload selected by a numeric id; ids outside 1..5 select none. */
  function AlgFromNumber(k: int): (r: Option<AlgId>)
    ensures r.Some? <==> 1 <= k <= 5
    ensures r.Some? ==> AlgNumber(r.value) == k
  {
    if k == 1 then Some(SumSq)
    else if k == 2 then Some(MatMul)
    else if k == 3 then Some(MonteCarlo)
    else if k == 4 then Some(MergeSort)
    else if k == 5 then Some(Fft)
    else None
  }

  /** One output line. The elapsed time is measured outside the model. */
  datatype RunResult = RunResult(language: string, alg: int, threads: int, runIndex: int, inputSize: nat)

  /** The name of the first check in `checks` that fails, if any. */
  function FirstFailing(checks: seq<(string, bool)>): (r: Option<string>)
    ensures r.None? <==> forall k :: 0 <= k < |checks| ==> checks[k].1
    ensures r.Some? ==>
      exists k :: (0 <= k < |checks| && checks[k].0 == r.value && !checks[k].1 &&
                   forall j :: 0 <= j < k ==> checks[j].1)
  {
    if checks == [] then None
    else if !checks[0].1 then Some(checks[0].0)
    else
      var r := FirstFailing(checks[1..]);
      if r.Some? then
        var k :| 0 <= k < |checks[1..]| && checks[1..][k].0 == r.value && !checks[1..][k].1 &&
          forall j :: 0 <= j < k ==> checks[1..][j].1;
        assert checks[k + 1].0 == r.value && !checks[k + 1].1;
        r
      else r
  }

  /** A failing check named first in `checks`, with all before it passing,
      is the one FirstFailing reports. */
  lemma {:induction false} FirstFailingAt(checks: seq<(string, bool)>, k: nat)
    requires k < |checks| && !checks[k].1
    requires forall j :: 0 <= j < k ==> checks[j].1
    ensures FirstFailing(checks) == Some(checks[k].0)
  {
    if k > 0 {
      FirstFailingAt(checks[1..], k - 1);
    }
  }

  const TWO_POW_31: int := 0x8000_0000
  const TWO_POW_32: int := 0x1_0000_0000
  const TWO_POW_64: int := 0x1_0000_0000_0000_0000

  type u64 = x: int | 0 <= x < TWO_POW_64

  /** The C conversion `(int)x` of an unsigned 64-bit value on a two's-complement
      32-bit `int`: keep the low 32 bits and read them as signed. */
  function Int32Cast(x: u64): (n: int)
    ensures -TWO_POW_31 <= n < TWO_POW_31
    ensures (n - x) % TWO_POW_32 == 0
    ensures x < TWO_POW_31 ==> n == x
  {
    var low := x % TWO_POW_32;
    if low < TWO_POW_31 then low else low - TWO_POW_32
  }

  /** The 64-bit word holding n mod 2^64, built bit by bit from the least
      significant end. */
  function ToWord(n: nat): bv64
    decreases n
  {
    if n == 0 then 0 else (ToWord(n / 2) << 1) | (if n % 2 == 1 then 1 else 0)
  }

  /** The wrapping 64-bit product (uint64_t)k * c: the product mod 2^64. */
  function MulWrap(k: nat, c: u64): u64 {
    (k * c) % TWO_POW_64
  }

  lemma ModMultiple(x: int, q: int)
    ensures (q * TWO_POW_64 + x) % TWO_POW_64 == x % TWO_POW_64
  {
  }

  /** Multiplying by a value congruent to 1 mod 2^64 keeps the residue. */
  lemma MulByUnit(k: int, u: int)
    requires u % TWO_POW_64 == 1
    ensures (k * u) % TWO_POW_64 == k % TWO_POW_64
  {
    var q := u / TWO_POW_64;
    assert u == q * TWO_POW_64 + 1;
    assert k * u == (k * q) * TWO_POW_64 + k;
    ModMultiple(k, k * q);
  }

  /** Values congruent mod 2^64 stay congruent when multiplied by the same
      factor. */
  lemma MulCongruent(a: int, b: int, f: int)
    requires a % TWO_POW_64 == b % TWO_POW_64
    ensures (a * f) % TWO_POW_64 == (b * f) % TWO_POW_64
  {
    var qa, qb := a / TWO_POW_64, b / TWO_POW_64;
    var r := a % TWO_POW_64;
    assert a * f == (qa * f) * TWO_POW_64 + r * f;
    assert b * f == (qb * f) * TWO_POW_64 + r * f;
    ModMultiple(r * f, qa * f);
    ModMultiple(r * f, qb * f);
  }

  /** A multiplier with an inverse mod 2^64 (any odd one) sends different
      values below 2^64 to different wrapping products. */
  lemma MulWrapInjective(a: nat, b: nat, c: u64, inverse: u64)
    requires (c * inverse) % TWO_POW_64 == 1
    requires a < TWO_POW_64 && b < TWO_POW_64 && a != b
    ensures MulWrap(a, c) != MulWrap(b, c)
  {
    if MulWrap(a, c) == MulWrap(b, c) {
      MulCongruent(a * c, b * c, inverse);
      assert a * c * inverse == a * (c * inverse);
      assert b * c * inverse == b * (c * inverse);
      MulByUnit(a, c * inverse);
      MulByUnit(b, c * inverse);
    }
  }

  function Pow2(k: nat): (p: nat)
    ensures p >= 1
  {
    if k == 0 then 1 else 2 * Pow2(k - 1)
  }

  /** `n` is 2^k for some k. */
  predicate IsPow2(n: nat)
    decreases n
  {
    n == 1 || (n >= 2 && n % 2 == 0 && IsPow2(n / 2))
  }

  lemma {:induction false} Pow2IsPow2(k: nat)
    ensures IsPow2(Pow2(k))
  {
    if k > 0 {
      Pow2IsPow2(k - 1);
      assert Pow2(k) / 2 == Pow2(k - 1);
    }
  }

  /** The exponent of a power of two. */
  function Log2(n: nat): (k: nat)
    requires IsPow2(n)
    ensures Pow2(k) == n
    decreases n
  {
    if n == 1 then 0 else 1 + Log2(n / 2)
  }

  /** Bitwise AND of two non-negative integers, bit by bit from the least
      significant end; this is C's `&` on non-negative operands. */
  function AndNat(a: nat, b: nat): nat
    decreases a
  {
    if a == 0 || b == 0 then 0
    else 2 * AndNat(a / 2, b / 2) + (if a % 2 == 1 && b % 2 == 1 then 1 else 0)
  }

  lemma {:induction false} AndNatSelf(a: nat)
    ensures AndNat(a, a) == a
    decreases a
  {
    if a > 0 { AndNatSelf(a / 2); }
  }

  /** Bitwise XOR of two non-negative integers, bit by bit from the least
      significant end; `^` on non-negative operands. */
  function XorNat(a: nat, b: nat): nat
    decreases a
  {
    if a == 0 then b
    else if b == 0 then a
    else 2 * XorNat(a / 2, b / 2) + (if a % 2 != b % 2 then 1 else 0)
  }

  lemma XorNatHalves(a: nat, b: nat)
    ensures XorNat(a, b) % 2 == (if a % 2 != b % 2 then 1 else 0)
    ensures XorNat(a, b) / 2 == XorNat(a / 2, b / 2)
  {
    if a != 0 && b != 0 {
      var x, bit := XorNat(a / 2, b / 2), if a % 2 != b % 2 then 1 else 0;
      assert XorNat(a, b) == 2 * x + bit;
    }
  }

  /** Xor-ing with `a` again gives `b` back. */
  lemma {:induction false} XorNatCancel(a: nat, b: nat)
    ensures XorNat(XorNat(a, b), a) == b
    decreases a
  {
    if a != 0 {
      var x := XorNat(a, b);
      XorNatHalves(a, b);
      XorNatHalves(x, a);
      XorNatCancel(a / 2, b / 2);
      assert XorNat(x, a) / 2 == b / 2;
    }
  }

  /** The xor of two values below a power of two stays below it. */
  lemma {:induction false} XorNatBelowPow2(a: nat, b: nat, m: nat)
    requires IsPow2(m) && a < m && b < m
    ensures XorNat(a, b) < m
    decreases m
  {
    if m > 1 && a != 0 && b != 0 {
      XorNatBelowPow2(a / 2, b / 2, m / 2);
    }
  }

  lemma IsPow2Double(p: nat)
    requires IsPow2(p)
    ensures IsPow2(2 * p)
  {
    assert (2 * p) / 2 == p;
  }

  lemma {:induction false} IsPow2Product(a: nat, b: nat)
    requires IsPow2(a) && IsPow2(b)
    ensures IsPow2(a * b)
    decreases a
  {
    if a != 1 {
      var h := a / 2;
      assert a == 2 * h && IsPow2(h);
      IsPow2Product(h, b);
      var p := h * b;
      assert a * b == 2 * p;
      IsPow2Double(p);
    }
  }

  /** `^` on two unsigned 64-bit values; the reduction mod 2^64 only states
      the range, since XorWordExact shows it changes nothing. */
  function XorWord(a: u64, b: u64): u64 {
    XorNat(a, b) % TWO_POW_64
  }

  lemma TwoPow64IsPow2()
    ensures IsPow2(TWO_POW_64)
  {
    assert IsPow2(4);
    IsPow2Product(4, 4);
    IsPow2Product(16, 16);
    IsPow2Product(256, 256);
    IsPow2Product(0x1_0000, 0x1_0000);
    IsPow2Product(0x1_0000_0000, 0x1_0000_0000);
  }

  lemma XorWordExact(a: u64, b: u64)
    ensures XorWord(a, b) == XorNat(a, b)
  {
    TwoPow64IsPow2();
    XorNatBelowPow2(a, b, TWO_POW_64);
  }

  /** Xor-ing the result with `a` again recovers `b`. */
  lemma XorWordCancel(a: u64, b: u64)
    ensures XorNat(XorWord(a, b), a) == b
  {
    XorWordExact(a, b);
    XorNatCancel(a, b);
  }

  /** Xor-ing with the same value never makes two different values equal. */
  lemma XorWordInjective(s: u64, a: u64, b: u64)
    requires a != b
    ensures XorWord(s, a) != XorWord(s, b)
  {
    XorWordCancel(s, a);
    XorWordCancel(s, b);
  }

  /** For j below 2^(k+1), the bit 2^k is set in j exactly when j >= 2^k,
      and xor-ing it in flips it: j - 2^k or j + 2^k. */
  lemma {:induction false} HighBit(j: nat, k: nat)
    requires j < 2 * Pow2(k)
    ensures AndNat(j, Pow2(k)) != 0 <==> j >= Pow2(k)
    ensures XorNat(j, Pow2(k)) == if j >= Pow2(k) then j - Pow2(k) else j + Pow2(k)
    decreases k
  {
    if k > 0 && j > 0 {
      var q := Pow2(k - 1);
      assert Pow2(k) == 2 * q;
      HighBit(j / 2, k - 1);
      assert AndNat(j, Pow2(k)) == 2 * AndNat(j / 2, q);
      assert XorNat(j, Pow2(k)) == 2 * XorNat(j / 2, q) + j % 2;
    }
  }

  /** The classic power-of-two test: for a positive `n`, `n & (n - 1)` is zero
      exactly when `n` is a power of two. */
  lemma {:induction false} AndPredecessorZeroIffPow2(n: nat)
    requires n > 0
    ensures AndNat(n, n - 1) == 0 <==> IsPow2(n)
    decreases n
  {
    if n == 1 {
    } else if n % 2 == 0 {
      // n = 2h, n - 1 = 2h - 1: the low bit of the AND is 0 and the rest is h & (h - 1)
      var h := n / 2;
      assert (n - 1) / 2 == h - 1;
      assert AndNat(n, n - 1) == 2 * AndNat(h, h - 1);
      AndPredecessorZeroIffPow2(h);
    } else {
      // n = 2h + 1 with h >= 1: n & (n - 1) = 2 * (h & h) = 2h, never zero
      var h := n / 2;
      assert (n - 1) / 2 == h;
      AndNatSelf(h);
      assert AndNat(n, n - 1) == 2 * h;
    }
  }

  /** The indices a strided smoke-check loop `for (i = 0; i < n; i += n / 16 + 1)`
      reads; the loop exists only to keep the computation alive. */
  method StridedChecksumIndices(n: nat) returns (visited: seq<nat>)
    ensures n / 16 + 1 >= 1
    ensures |visited| <= 16
    ensures forall k :: 0 <= k < |visited| ==> visited[k] < n
    ensures forall k :: 0 <= k < |visited| ==> visited[k] == k * (n / 16 + 1)
    ensures n > 0 ==> |visited| >= 1
  {
    var stride := n / 16 + 1;
    var i := 0;
    visited := [];
    while i < n
      invariant i == |visited| * stride
      invariant |visited| <= 16
      invariant forall k :: 0 <= k < |visited| ==> visited[k] == k * stride && visited[k] < n
      decreases n - i
    {
      visited := visited + [i];
      // 16 strides already pass n, so a 17th index is never reached
      assert 16 * stride > n;
      i := i + stride;
    }
  }
}
