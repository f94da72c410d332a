/** The array building blocks the three merge sorts share: the loops that
    merge two sorted runs of one array into another array, the copy back, a
    stand-in for the library sort small ranges are handed to, and the
    recursive sort with a cutoff that the Java MergeSortTask.compute and the
    Rust mergesort_rec both are. Ranges are half-open. */
module ArrayMerge {
  import opened Sorting

  /** after[lo..hi) is a sorted permutation of before[lo..hi). */
  ghost predicate SortedPermutationOn(after: seq<int>, before: seq<int>, lo: int, hi: int)
    requires 0 <= lo <= hi <= |after| == |before|
  {
    Sorted(after[lo..hi]) && multiset(after[lo..hi]) == multiset(before[lo..hi])
  }

  /** No cell outside [lo, hi) differs between before and after. */
  ghost predicate UnchangedOutside(after: seq<int>, before: seq<int>, lo: int, hi: int)
    requires |after| == |before|
  {
    forall x {:trigger after[x]} :: 0 <= x < |after| && !(lo <= x < hi) ==> after[x] == before[x]
  }

  /** The first merge loop: while both runs src[i..lHi) and src[j..rHi) are
      non-empty, store the smaller head in out[k], the left one on ties.
      Returns the indices where it stopped. */
  method MergeHeads(src: array<int>, lLo: int, lHi: int, rLo: int, rHi: int, out: array<int>, oLo: int)
    returns (i: int, j: int, k: int)
    requires src != out
    requires 0 <= lLo <= lHi <= src.Length && 0 <= rLo <= rHi <= src.Length
    requires 0 <= oLo && oLo + (lHi - lLo) + (rHi - rLo) <= out.Length
    modifies out
    ensures lLo <= i <= lHi && rLo <= j <= rHi && k == oLo + (i - lLo) + (j - rLo)
    ensures i == lHi || j == rHi
    ensures out[oLo..k] + Merge(src[i..lHi], src[j..rHi]) == Merge(src[lLo..lHi], src[rLo..rHi])
    ensures UnchangedOutside(out[..], old(out[..]), oLo, k)
  {
    ghost var whole := Merge(src[lLo..lHi], src[rLo..rHi]);
    ghost var s := src[..];
    // done is what out[oLo..k) holds: the merge so far
    ghost var done := [];
    i, j, k := lLo, rLo, oLo;
    while i < lHi && j < rHi
      invariant lLo <= i <= lHi && rLo <= j <= rHi && k == oLo + (i - lLo) + (j - rLo)
      invariant out[oLo..k] == done && MergedSoFar(s, i, lHi, j, rHi, done, whole)
      invariant UnchangedOutside(out[..], old(out[..]), oLo, k)
    {
      ghost var pre := out[..];
      HeadsStep(s, i, lHi, j, rHi, done, whole);
      i, j := StoreHead(src, i, lHi, j, rHi, out, k);
      done := done + [out[k]];
      StoreStep(pre, out[..], old(out[..]), oLo, k);
      k := k + 1;
    }
  }

  /** Which head the first merge loop takes from s[i..) and s[j..): the
      left one unless the right one is strictly smaller. Gives the advanced
      indices and the value taken. */
  function NextHead(s: seq<int>, i: int, j: int): (int, int, int)
    requires 0 <= i < |s| && 0 <= j < |s|
  {
    if s[i] <= s[j] then (i + 1, j, s[i]) else (i, j + 1, s[j])
  }

  /** One turn of the first merge loop: out[k] receives the head NextHead
      takes, and no other cell of out changes. */
  method StoreHead(src: array<int>, i: int, lHi: int, j: int, rHi: int, out: array<int>, k: int)
    returns (i': int, j': int)
    requires src != out
    requires 0 <= i < lHi <= src.Length && 0 <= j < rHi <= src.Length && 0 <= k < out.Length
    modifies out
    ensures (i', j', out[k]) == NextHead(src[..], i, j)
    ensures forall x {:trigger out[x]} :: 0 <= x < out.Length && x != k ==> out[x] == old(out[x])
  {
    if src[i] <= src[j] {
      out[k] := src[i];
      i', j' := i + 1, j;
    } else {
      out[k] := src[j];
      i', j' := i, j + 1;
    }
  }

  /** done followed by the merge of the rests s[i..lHi) and s[j..rHi) is
      the whole merge. */
  ghost predicate MergedSoFar(s: seq<int>, i: int, lHi: int, j: int, rHi: int, done: seq<int>, whole: seq<int>)
    requires 0 <= i <= lHi <= |s| && 0 <= j <= rHi <= |s|
  {
    done + Merge(s[i..lHi], s[j..rHi]) == whole
  }

  /** One step of the first merge loop: the head NextHead takes is the next
      element of the merge. */
  lemma HeadsStep(s: seq<int>, i: int, lHi: int, j: int, rHi: int, done: seq<int>, whole: seq<int>)
    requires 0 <= i < lHi <= |s| && 0 <= j < rHi <= |s|
    requires MergedSoFar(s, i, lHi, j, rHi, done, whole)
    ensures var (i', j', v) := NextHead(s, i, j);
      i' <= lHi && j' <= rHi && MergedSoFar(s, i', lHi, j', rHi, done + [v], whole)
  {
    var ra, rb := s[i..lHi], s[j..rHi];
    assert ra[0] == s[i] && ra[1..] == s[i + 1..lHi];
    assert rb[0] == s[j] && rb[1..] == s[j + 1..rHi];
    if s[i] <= s[j] {
      MergeStepLeft(done, ra, rb, whole);
    } else {
      MergeStepRight(done, ra, rb, whole);
    }
  }

  /** Storing one more cell at k extends the written part [oLo, k) by that
      cell and keeps everything else. */
  lemma StoreStep(pre: seq<int>, post: seq<int>, orig: seq<int>, oLo: int, k: int)
    requires 0 <= oLo <= k < |pre| == |post| == |orig|
    requires forall x {:trigger post[x]} :: 0 <= x < |post| && x != k ==> post[x] == pre[x]
    requires UnchangedOutside(pre, orig, oLo, k)
    ensures post[oLo..k + 1] == pre[oLo..k] + [post[k]]
    ensures UnchangedOutside(post, orig, oLo, k + 1)
  {
    assert post[oLo..k + 1] == post[oLo..k] + [post[k]];
    assert post[oLo..k] == pre[oLo..k];
  }

  /** The loops after the first: store the rest src[s..e) of one run at
      out[k..), after what out[oLo..k) already holds, advancing k. */
  method AppendRun(src: array<int>, s: int, e: int, out: array<int>, oLo: int, k: int) returns (k': int)
    requires src != out
    requires 0 <= s <= e <= src.Length && 0 <= oLo <= k && k + (e - s) <= out.Length
    modifies out
    ensures k' == k + (e - s)
    ensures out[oLo..k'] == old(out[oLo..k]) + src[s..e]
    ensures UnchangedOutside(out[..], old(out[..]), k, k')
  {
    var i := s;
    k' := k;
    while i < e
      invariant s <= i <= e && k' == k + (i - s)
      invariant forall x :: 0 <= x < out.Length ==> out[x] == if k <= x < k' then src[s + (x - k)] else old(out[x])
    {
      out[k'] := src[i];
      i := i + 1;
      k' := k' + 1;
    }
  }

  /** Once one of the rests is empty, the merge is done followed by both rests. */
  lemma MergeRest(done: seq<int>, ra: seq<int>, rb: seq<int>, whole: seq<int>)
    requires ra == [] || rb == []
    requires done + Merge(ra, rb) == whole
    ensures done + ra + rb == whole
  {
    if ra == [] {
      assert ra + rb == rb;
    } else {
      assert ra + rb == ra;
    }
  }

  /** Merge the sorted runs src[lLo..lHi) and src[rLo..rHi) into
      out[oLo..oLo + n), n the total length: the first loop, then the rest of
      whichever run is left. src is only read and out is written only there.
      The runs must fit in out, as the index checks of the loops demand. */
  method MergeInto(src: array<int>, lLo: int, lHi: int, rLo: int, rHi: int, out: array<int>, oLo: int)
    requires src != out
    requires 0 <= lLo <= lHi <= src.Length && 0 <= rLo <= rHi <= src.Length
    requires 0 <= oLo && oLo + (lHi - lLo) + (rHi - rLo) <= out.Length
    modifies out
    ensures out[oLo..oLo + (lHi - lLo) + (rHi - rLo)] == Merge(src[lLo..lHi], src[rLo..rHi])
    ensures UnchangedOutside(out[..], old(out[..]), oLo, oLo + (lHi - lLo) + (rHi - rLo))
  {
    ghost var a0 := out[..];
    var i, j, k0 := MergeHeads(src, lLo, lHi, rLo, rHi, out, oLo);
    MergeRest(out[oLo..k0], src[i..lHi], src[j..rHi], Merge(src[lLo..lHi], src[rLo..rHi]));
    ghost var a1 := out[..];
    var k1 := AppendRun(src, i, lHi, out, oLo, k0);
    ghost var a2 := out[..];
    var k2 := AppendRun(src, j, rHi, out, oLo, k1);
    FrameChain(a0, a1, a2, out[..], oLo, k0, k2);
  }

  /** Copy src[lo..hi) over dst[lo..hi); dst changes nowhere else. */
  method CopyRange(src: array<int>, dst: array<int>, lo: int, hi: int)
    requires src != dst && src.Length == dst.Length
    requires 0 <= lo <= hi <= dst.Length
    modifies dst
    ensures dst[lo..hi] == src[lo..hi]
    ensures UnchangedOutside(dst[..], old(dst[..]), lo, hi)
  {
    var i := lo;
    while i < hi
      invariant lo <= i <= hi
      invariant dst[lo..i] == src[lo..i]
      invariant UnchangedOutside(dst[..], old(dst[..]), lo, i)
    {
      dst[i] := src[i];
      i := i + 1;
    }
  }

  /** Stores the values of s into a[lo..lo + |s|), one cell at a time. */
  method StoreRange(a: array<int>, lo: int, s: seq<int>)
    requires 0 <= lo && lo + |s| <= a.Length
    modifies a
    ensures a[lo..lo + |s|] == s
    ensures UnchangedOutside(a[..], old(a[..]), lo, lo + |s|)
  {
    var i := 0;
    while i < |s|
      invariant 0 <= i <= |s|
      invariant forall x :: 0 <= x < a.Length ==> a[x] == if lo <= x < lo + i then s[x - lo] else old(a[x])
    {
      a[lo + i] := s[i];
      i := i + 1;
    }
  }

  /** A library sort of a[lo..hi) (Arrays.sort, sort_unstable), given by its
      contract: the range becomes its sorted permutation. */
  method LibrarySort(a: array<int>, lo: int, hi: int)
    requires 0 <= lo <= hi <= a.Length
    modifies a
    ensures a[lo..hi] == SortSeq(old(a[lo..hi]))
    ensures UnchangedOutside(a[..], old(a[..]), lo, hi)
  {
    ghost var before := a[lo..hi];
    var sorted := SortSeq(a[lo..hi]);
    assert sorted == SortSeq(before) && lo + |sorted| == hi;
    StoreRange(a, lo, sorted);
  }

  /** The proof step of a recursive merge sort over snapshots of the array:
      a0 before, a1 after sorting [lo, mid), a2 after sorting [mid, hi), a3
      after merging. */
  lemma MergeSortStep(a0: seq<int>, a1: seq<int>, a2: seq<int>, a3: seq<int>, lo: int, mid: int, hi: int)
    requires 0 <= lo <= mid <= hi <= |a0| && |a1| == |a0| && |a2| == |a0| && |a3| == |a0|
    requires SortedPermutationOn(a1, a0, lo, mid) && UnchangedOutside(a1, a0, lo, mid)
    requires SortedPermutationOn(a2, a1, mid, hi) && UnchangedOutside(a2, a1, mid, hi)
    requires a3[lo..hi] == Merge(a2[lo..mid], a2[mid..hi])
    ensures SortedPermutationOn(a3, a0, lo, hi)
  {
    assert a1[mid..hi] == a0[mid..hi];
    assert a2[lo..mid] == a1[lo..mid];
    assert a0[lo..hi] == a0[lo..mid] + a0[mid..hi];
    MergeSorted(a2[lo..mid], a2[mid..hi]);
    MergePermutation(a2[lo..mid], a2[mid..hi]);
  }

  /** Three writes confined to [lo, mid), [mid, hi) and [lo, hi) leave every
      cell outside [lo, hi) as it was. */
  lemma FrameChain(a0: seq<int>, a1: seq<int>, a2: seq<int>, a3: seq<int>, lo: int, mid: int, hi: int)
    requires |a1| == |a0| && |a2| == |a0| && |a3| == |a0| && lo <= mid <= hi
    requires UnchangedOutside(a1, a0, lo, mid) && UnchangedOutside(a2, a1, mid, hi)
    requires UnchangedOutside(a3, a2, lo, hi)
    ensures UnchangedOutside(a3, a0, lo, hi)
  {
  }

  /** [lo, mid) and [mid, hi) of `after` are each sorted, together they are a
      permutation of [lo, hi) of `before`, and nothing outside [lo, hi) has
      changed: the state of a recursive merge sort just before its merge. */
  ghost predicate HalvesSorted(after: seq<int>, before: seq<int>, lo: int, mid: int, hi: int)
    requires 0 <= lo <= mid <= hi <= |after| == |before|
  {
    Sorted(after[lo..mid]) && Sorted(after[mid..hi]) &&
    multiset(after[lo..hi]) == multiset(before[lo..hi]) &&
    UnchangedOutside(after, before, lo, hi)
  }

  /** Sorting [lo, mid) and then [mid, hi) in place leaves both halves sorted. */
  lemma HalvesStep(a0: seq<int>, a1: seq<int>, a2: seq<int>, lo: int, mid: int, hi: int)
    requires 0 <= lo <= mid <= hi <= |a0| && |a1| == |a0| && |a2| == |a0|
    requires SortedPermutationOn(a1, a0, lo, mid) && UnchangedOutside(a1, a0, lo, mid)
    requires SortedPermutationOn(a2, a1, mid, hi) && UnchangedOutside(a2, a1, mid, hi)
    ensures HalvesSorted(a2, a0, lo, mid, hi)
  {
    assert a1[mid..hi] == a0[mid..hi];
    assert a2[lo..mid] == a1[lo..mid];
    assert a0[lo..hi] == a0[lo..mid] + a0[mid..hi];
    assert a2[lo..hi] == a2[lo..mid] + a2[mid..hi];
  }

  /** Merging the two sorted halves finishes the sort of [lo, hi). */
  lemma MergeHalvesStep(a0: seq<int>, a2: seq<int>, a3: seq<int>, lo: int, mid: int, hi: int)
    requires 0 <= lo <= mid <= hi <= |a0| && |a2| == |a0| && |a3| == |a0|
    requires HalvesSorted(a2, a0, lo, mid, hi)
    requires a3[lo..hi] == Merge(a2[lo..mid], a2[mid..hi]) && UnchangedOutside(a3, a2, lo, hi)
    ensures SortedPermutationOn(a3, a0, lo, hi) && UnchangedOutside(a3, a0, lo, hi)
  {
    assert a2[lo..hi] == a2[lo..mid] + a2[mid..hi];
    MergeSorted(a2[lo..mid], a2[mid..hi]);
    MergePermutation(a2[lo..mid], a2[mid..hi]);
  }

  /** Two writes confined to [lo1, hi1) and [lo2, hi2), both inside [lo, hi),
      leave every cell outside [lo, hi) as it was. */
  lemma FrameTwo(a0: seq<int>, a1: seq<int>, a2: seq<int>, lo1: int, hi1: int, lo2: int, hi2: int, lo: int, hi: int)
    requires |a1| == |a0| && |a2| == |a0| && lo <= lo1 && hi1 <= hi && lo <= lo2 && hi2 <= hi
    requires UnchangedOutside(a1, a0, lo1, hi1) && UnchangedOutside(a2, a1, lo2, hi2)
    ensures UnchangedOutside(a2, a0, lo, hi)
  {
  }

  /** Everything a recursive step of a merge sort establishes, from the
      snapshots of a and tmp before, after the left half, after the right
      half and after the merge. */
  lemma RecursiveStep(a0: seq<int>, a1: seq<int>, a2: seq<int>, a3: seq<int>,
                      t0: seq<int>, t1: seq<int>, t2: seq<int>, t3: seq<int>, lo: int, mid: int, hi: int)
    requires 0 <= lo <= mid <= hi <= |a0| && |a1| == |a0| && |a2| == |a0| && |a3| == |a0|
    requires |t1| == |t0| && |t2| == |t0| && |t3| == |t0|
    requires SortedPermutationOn(a1, a0, lo, mid) && UnchangedOutside(a1, a0, lo, mid)
    requires SortedPermutationOn(a2, a1, mid, hi) && UnchangedOutside(a2, a1, mid, hi)
    requires a3[lo..hi] == Merge(a2[lo..mid], a2[mid..hi]) && UnchangedOutside(a3, a2, lo, hi)
    requires UnchangedOutside(t1, t0, lo, mid) && UnchangedOutside(t2, t1, mid, hi)
    requires UnchangedOutside(t3, t2, lo, hi)
    ensures SortedPermutationOn(a3, a0, lo, hi) && UnchangedOutside(a3, a0, lo, hi)
    ensures UnchangedOutside(t3, t0, lo, hi)
  {
    MergeSortStep(a0, a1, a2, a3, lo, mid, hi);
    FrameChain(a0, a1, a2, a3, lo, mid, hi);
    FrameChain(t0, t1, t2, t3, lo, mid, hi);
  }

  /** The merge at the end of a recursive step: merge a[lo..mid) and
      a[mid..hi) into tmp[lo..hi), then copy tmp[lo..hi) back into a. */
  method MergeAndCopyBack(a: array<int>, tmp: array<int>, lo: int, mid: int, hi: int)
    requires a != tmp && tmp.Length == a.Length
    requires 0 <= lo <= mid <= hi <= a.Length
    modifies a, tmp
    ensures a[lo..hi] == Merge(old(a[lo..mid]), old(a[mid..hi]))
    ensures UnchangedOutside(a[..], old(a[..]), lo, hi)
    ensures UnchangedOutside(tmp[..], old(tmp[..]), lo, hi)
  {
    MergeInto(a, lo, mid, mid, hi, tmp, lo);
    CopyRange(tmp, a, lo, hi);
  }

  /** The recursive sort of a[lo..hi) with a cutoff: ranges of length <= 1
      are left alone, ranges of length <= threshold go to the library sort,
      longer ones are split at lo + len / 2, both halves sorted (in parallel
      in the source; one after the other here, as they are disjoint), then
      merged through tmp[lo..hi) and copied back. Afterwards a[lo..hi) is a
      sorted permutation of its old contents and no cell of a or tmp outside
      [lo, hi) has changed. */
  method ThresholdMergeSort(a: array<int>, tmp: array<int>, lo: int, hi: int, threshold: int)
    requires a != tmp && tmp.Length == a.Length
    requires 0 <= lo <= hi <= a.Length
    modifies a, tmp
    ensures SortedPermutationOn(a[..], old(a[..]), lo, hi)
    ensures UnchangedOutside(a[..], old(a[..]), lo, hi)
    ensures UnchangedOutside(tmp[..], old(tmp[..]), lo, hi)
    decreases hi - lo
  {
    var len := hi - lo;
    if len <= 1 {
      assert len == 1 ==> a[lo..hi] == [a[lo]];
      return;
    }
    if len <= threshold {
      LibrarySort(a, lo, hi);
      return;
    }
    var mid := lo + len / 2;
    ghost var a0, t0 := a[..], tmp[..];
    ThresholdMergeSort(a, tmp, lo, mid, threshold);
    ghost var a1, t1 := a[..], tmp[..];
    ThresholdMergeSort(a, tmp, mid, hi, threshold);
    ghost var a2, t2 := a[..], tmp[..];
    MergeAndCopyBack(a, tmp, lo, mid, hi);
    RecursiveStep(a0, a1, a2, a[..], t0, t1, t2, tmp[..], lo, mid, hi);
  }
}
