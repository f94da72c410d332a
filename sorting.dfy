/** The specification shared by the three merge sorts: sortedness, the
    two-run merge that prefers the left run on ties, and a reference sort
    that stands for the library sorts the Java and Rust merge sorts hand
    small ranges to (Arrays.sort and sort_unstable). The C merge sort calls
    no library sort; it recurses down to single elements. */
module Sorting {

  predicate Sorted(s: seq<int>) {
    forall i, j :: 0 <= i < j < |s| ==> s[i] <= s[j]
  }

  /** Merge two runs: take the head of `a` when it is <= the head of `b`
      (the left run wins ties), otherwise the head of `b`. */
  function Merge(a: seq<int>, b: seq<int>): (m: seq<int>)
    ensures |m| == |a| + |b|
    decreases |a| + |b|
  {
    if a == [] then b
    else if b == [] then a
    else if a[0] <= b[0] then [a[0]] + Merge(a[1..], b)
    else [b[0]] + Merge(a, b[1..])
  }

  /** The run each element of Merge(a, b) is taken from: true for `a`. */
  function MergeSources(a: seq<int>, b: seq<int>): (t: seq<bool>)
    ensures |t| == |a| + |b|
    decreases |a| + |b|
  {
    if a == [] then seq(|b|, _ => false)
    else if b == [] then seq(|a|, _ => true)
    else if a[0] <= b[0] then [true] + MergeSources(a[1..], b)
    else [false] + MergeSources(a, b[1..])
  }

  /** The elements of `s` at the positions where `t` holds `v`, in order. */
  function Picks(s: seq<int>, t: seq<bool>, v: bool): seq<int>
    requires |s| == |t|
  {
    if s == [] then [] else (if t[0] == v then [s[0]] else []) + Picks(s[1..], t[1..], v)
  }

  lemma {:induction false} PicksAll(s: seq<int>, t: seq<bool>, v: bool)
    requires |s| == |t|
    requires forall k :: 0 <= k < |t| ==> t[k] == v
    ensures Picks(s, t, v) == s && Picks(s, t, !v) == []
    decreases |s|
  {
    if s != [] { PicksAll(s[1..], t[1..], v); }
  }

  /** The merge is a permutation of the two runs. */
  lemma {:induction false} MergePermutation(a: seq<int>, b: seq<int>)
    ensures multiset(Merge(a, b)) == multiset(a) + multiset(b)
    decreases |a| + |b|
  {
    if a == [] || b == [] {
    } else if a[0] <= b[0] {
      var rest := Merge(a[1..], b);
      assert Merge(a, b) == [a[0]] + rest;
      MergePermutation(a[1..], b);
      assert a == [a[0]] + a[1..];
      assert multiset(a) == multiset{a[0]} + multiset(a[1..]);
    } else {
      var rest := Merge(a, b[1..]);
      assert Merge(a, b) == [b[0]] + rest;
      MergePermutation(a, b[1..]);
      assert b == [b[0]] + b[1..];
      assert multiset(b) == multiset{b[0]} + multiset(b[1..]);
    }
  }

  /** One step of an imperative merge that has emitted `out` and still holds
      the runs ra and rb: emitting the head of ra (it is <= the head of rb)
      keeps out + Merge(ra, rb) fixed. */
  lemma MergeStepLeft(out: seq<int>, ra: seq<int>, rb: seq<int>, whole: seq<int>)
    requires ra != [] && (rb == [] || ra[0] <= rb[0])
    requires out + Merge(ra, rb) == whole
    ensures (out + [ra[0]]) + Merge(ra[1..], rb) == whole
  {
    var rest := Merge(ra[1..], rb);
    if rb == [] {
      assert rest == ra[1..] && Merge(ra, rb) == ra;
      assert ra == [ra[0]] + ra[1..];
    } else {
      assert Merge(ra, rb) == [ra[0]] + rest;
    }
    assert out + ([ra[0]] + rest) == (out + [ra[0]]) + rest;
  }

  /** The same when the head of rb is emitted (it is < the head of ra). */
  lemma MergeStepRight(out: seq<int>, ra: seq<int>, rb: seq<int>, whole: seq<int>)
    requires rb != [] && (ra == [] || rb[0] < ra[0])
    requires out + Merge(ra, rb) == whole
    ensures (out + [rb[0]]) + Merge(ra, rb[1..]) == whole
  {
    var rest := Merge(ra, rb[1..]);
    if ra == [] {
      assert rest == rb[1..] && Merge(ra, rb) == rb;
      assert rb == [rb[0]] + rb[1..];
    } else {
      assert Merge(ra, rb) == [rb[0]] + rest;
    }
    assert out + ([rb[0]] + rest) == (out + [rb[0]]) + rest;
  }

  /** Every element of the merge is at least the smaller of the two heads. */
  lemma MergeHeadBound(a: seq<int>, b: seq<int>, x: int)
    requires Sorted(a) && Sorted(b)
    requires (a != [] ==> x <= a[0]) && (b != [] ==> x <= b[0])
    ensures forall k :: 0 <= k < |Merge(a, b)| ==> x <= Merge(a, b)[k]
  {
    MergePermutation(a, b);
    forall k | 0 <= k < |Merge(a, b)|
      ensures x <= Merge(a, b)[k]
    {
      var y := Merge(a, b)[k];
      assert y in multiset(Merge(a, b));
      assert y in a || y in b;
    }
  }

  /** Merging two sorted runs gives a sorted sequence. */
  lemma {:induction false} MergeSorted(a: seq<int>, b: seq<int>)
    requires Sorted(a) && Sorted(b)
    ensures Sorted(Merge(a, b))
    decreases |a| + |b|
  {
    if a == [] || b == [] {
    } else if a[0] <= b[0] {
      MergeSorted(a[1..], b);
      MergeHeadBound(a[1..], b, a[0]);
    } else {
      MergeSorted(a, b[1..]);
      MergeHeadBound(a, b[1..], b[0]);
    }
  }

  /** Stability, first half: the elements taken from each run appear in the
      merge in their original order. */
  lemma {:induction false} MergeKeepsRunOrder(a: seq<int>, b: seq<int>)
    ensures Picks(Merge(a, b), MergeSources(a, b), true) == a
    ensures Picks(Merge(a, b), MergeSources(a, b), false) == b
    decreases |a| + |b|
  {
    var m, t := Merge(a, b), MergeSources(a, b);
    if a == [] {
      PicksAll(m, t, false);
    } else if b == [] {
      PicksAll(m, t, true);
    } else if a[0] <= b[0] {
      MergeKeepsRunOrder(a[1..], b);
      assert m[1..] == Merge(a[1..], b) && t[1..] == MergeSources(a[1..], b);
    } else {
      MergeKeepsRunOrder(a, b[1..]);
      assert m[1..] == Merge(a, b[1..]) && t[1..] == MergeSources(a, b[1..]);
    }
  }

  /** An element taken from the left run is an element of `a`. */
  lemma {:induction false} MergeSourceLeft(a: seq<int>, b: seq<int>, q: int)
    requires 0 <= q < |a| + |b| && MergeSources(a, b)[q]
    ensures Merge(a, b)[q] in a
    decreases |a| + |b|
  {
    if a == [] {
    } else if b == [] {
    } else if a[0] <= b[0] {
      if q > 0 { MergeSourceLeft(a[1..], b, q - 1); }
    } else {
      MergeSourceLeft(a, b[1..], q - 1);
    }
  }

  /** Stability, second half: an element of the right run is placed before an
      element of the left run only when it is strictly smaller, so equal
      elements keep left-before-right order. */
  lemma {:induction false} MergeTiesPreferLeft(a: seq<int>, b: seq<int>, p: int, q: int)
    requires Sorted(a)
    requires 0 <= p < q < |a| + |b|
    requires !MergeSources(a, b)[p] && MergeSources(a, b)[q]
    ensures Merge(a, b)[p] < Merge(a, b)[q]
    decreases |a| + |b|
  {
    var m, t := Merge(a, b), MergeSources(a, b);
    if a == [] {
    } else if b == [] {
    } else if a[0] <= b[0] {
      assert m == [a[0]] + Merge(a[1..], b) && t == [true] + MergeSources(a[1..], b);
      MergeTiesPreferLeft(a[1..], b, p - 1, q - 1);
      assert m[p] == Merge(a[1..], b)[p - 1] && m[q] == Merge(a[1..], b)[q - 1];
    } else {
      assert m == [b[0]] + Merge(a, b[1..]) && t == [false] + MergeSources(a, b[1..]);
      assert m[q] == Merge(a, b[1..])[q - 1];
      if p == 0 {
        MergeSourceLeft(a, b[1..], q - 1);
        assert a == [a[0]] + a[1..];
      } else {
        MergeTiesPreferLeft(a, b[1..], p - 1, q - 1);
        assert m[p] == Merge(a, b[1..])[p - 1];
      }
    }
  }

  // ---------------------------------------------------------------------
  // Reference sort: the contract of the library sorts.

  function Insert(x: int, s: seq<int>): (r: seq<int>)
    ensures |r| == |s| + 1
    ensures multiset(r) == multiset(s) + multiset{x}
  {
    if s == [] then [x]
    else if x <= s[0] then [x] + s
    else
      assert s == [s[0]] + s[1..];
      [s[0]] + Insert(x, s[1..])
  }

  lemma {:induction false} InsertSorted(x: int, s: seq<int>)
    requires Sorted(s)
    ensures Sorted(Insert(x, s))
  {
    if s != [] && x > s[0] {
      var tail := Insert(x, s[1..]);
      InsertSorted(x, s[1..]);
      forall k | 0 <= k < |tail|
        ensures s[0] <= tail[k]
      {
        assert tail[k] in multiset(tail);
        if tail[k] != x {
          assert tail[k] in multiset(s[1..]);
        }
      }
    }
  }

  /** Insertion sort: a sorted permutation of its input. */
  function SortSeq(s: seq<int>): (r: seq<int>)
    ensures |r| == |s|
    ensures Sorted(r)
    ensures multiset(r) == multiset(s)
  {
    if s == [] then []
    else
      assert s == [s[0]] + s[1..];
      var rest := SortSeq(s[1..]);
      InsertSorted(s[0], rest);
      Insert(s[0], rest)
  }

  /** A sorted sequence has its minimum first. */
  lemma SortedHeadIsMin(s: seq<int>, x: int)
    requires Sorted(s) && x in multiset(s)
    ensures s[0] <= x
  {
    var k :| 0 <= k < |s| && s[k] == x;
  }

  /** Sorting determines the result: two sorted permutations of the same
      multiset are equal, so any sort that returns a sorted permutation
      returns SortSeq of its input. */
  lemma {:induction false} SortedPermutationUnique(r: seq<int>, s: seq<int>)
    requires Sorted(r) && Sorted(s) && multiset(r) == multiset(s)
    ensures r == s
    decreases |r|
  {
    if r != [] {
      assert |s| == |r| by { assert |multiset(s)| == |multiset(r)|; }
      assert r[0] in multiset(s);
      assert s[0] in multiset(r);
      SortedHeadIsMin(s, r[0]);
      SortedHeadIsMin(r, s[0]);
      assert r == [r[0]] + r[1..] && s == [s[0]] + s[1..];
      assert r[0] == s[0];
      assert multiset(r[1..]) == multiset(r) - multiset{r[0]};
      assert multiset(s[1..]) == multiset(s) - multiset{s[0]};
      SortedPermutationUnique(r[1..], s[1..]);
    }
  }

  /** A run sorted by a merge sort is the reference sort of its input. */
  lemma SortedPermutationIsSortSeq(r: seq<int>, s: seq<int>)
    requires Sorted(r) && multiset(r) == multiset(s)
    ensures r == SortSeq(s)
  {
    SortedPermutationUnique(r, SortSeq(s));
  }
}
