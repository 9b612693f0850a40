/**
 * The merge sorter: split the range at its midpoint, sort both halves, then
 * merge them through two temporary copies.  The C program runs the two
 * recursive calls, and the two copies into the temporaries, as parallel
 * sections over disjoint index ranges; here they run one after the other.
 */
module MergeSort {
  import opened Records
  import opened SortSpec
  import opened MergeSpec

  // The three loops of `parallel_merge`, in the order it runs them.  Each
  // takes the read pointers `i`, `j` where the previous one left them; the
  // write index `k` is always `left + i + j`.

  /** The first loop: while both temporaries have records left, write the one that comes first, the left one on a tie. */
  method MergeHeads(a: array<NumberInfo>, xs: seq<NumberInfo>, ys: seq<NumberInfo>, left: int, p: Policy,
                    ghost out: seq<NumberInfo>, ghost s0: seq<NumberInfo>) returns (i: int, j: int)
    requires MergeProgress(p, xs, ys, out, s0, left, a[..], 0, 0)
    modifies a
    ensures MergeProgress(p, xs, ys, out, s0, left, a[..], i, j)
    ensures i == |xs| || j == |ys|
  {
    i, j := 0, 0;
    var k := left;
    while i < |xs| && j < |ys|
      invariant k == left + i + j
      invariant MergeProgress(p, xs, ys, out, s0, left, a[..], i, j)
    {
      if Compare(p, xs[i], ys[j]) <= 0 {
        a[k] := xs[i];
        i := i + 1;
      } else {
        a[k] := ys[j];
        j := j + 1;
      }
      k := k + 1;
    }
  }

  /** The second loop: copy what is left of the left temporary. */
  method CopyLeftRest(a: array<NumberInfo>, xs: seq<NumberInfo>, ys: seq<NumberInfo>, left: int, p: Policy,
                      ghost out: seq<NumberInfo>, ghost s0: seq<NumberInfo>, i0: int, j: int) returns (i: int)
    requires MergeProgress(p, xs, ys, out, s0, left, a[..], i0, j) && (i0 == |xs| || j == |ys|)
    modifies a
    ensures MergeProgress(p, xs, ys, out, s0, left, a[..], i, j) && i == |xs|
  {
    i := i0;
    var k := left + i + j;
    while i < |xs|
      invariant k == left + i + j && (i == |xs| || j == |ys|)
      invariant MergeProgress(p, xs, ys, out, s0, left, a[..], i, j)
    {
      a[k] := xs[i];
      i := i + 1;
      k := k + 1;
    }
  }

  /** The third loop: copy what is left of the right temporary. */
  method CopyRightRest(a: array<NumberInfo>, xs: seq<NumberInfo>, ys: seq<NumberInfo>, left: int, p: Policy,
                       ghost out: seq<NumberInfo>, ghost s0: seq<NumberInfo>, i: int, j0: int) returns (j: int)
    requires MergeProgress(p, xs, ys, out, s0, left, a[..], i, j0) && i == |xs|
    modifies a
    ensures MergeProgress(p, xs, ys, out, s0, left, a[..], i, j) && j == |ys|
  {
    j := j0;
    var k := left + i + j;
    while j < |ys|
      invariant k == left + i + j
      invariant MergeProgress(p, xs, ys, out, s0, left, a[..], i, j)
    {
      a[k] := ys[j];
      j := j + 1;
      k := k + 1;
    }
  }

  /**
   * `parallel_merge(arr, left, mid, right, compare_func)`: copies
   * `a[left..mid]` and `a[mid+1..right]` (inclusive) aside, then writes their
   * merge back over `a[left..right]`.
   */
  method Merge(a: array<NumberInfo>, left: int, mid: int, right: int, p: Policy)
    requires 0 <= left <= mid + 1 <= right + 1 <= a.Length
    modifies a
    ensures a[left..right + 1] == Merged(p, old(a[left..mid + 1]), old(a[mid + 1..right + 1]), 0, 0)
    ensures a[..left] == old(a[..left]) && a[right + 1..] == old(a[right + 1..])
  {
    ghost var s0 := a[..];
    var leftArr := a[left..mid + 1];
    var rightArr := a[mid + 1..right + 1];
    ghost var merged := Merged(p, leftArr, rightArr, 0, 0);
    ProgressStart(p, leftArr, rightArr, s0, left);
    var i, j := MergeHeads(a, leftArr, rightArr, left, p, merged, s0);
    i := CopyLeftRest(a, leftArr, rightArr, left, p, merged, s0, i, j);
    j := CopyRightRest(a, leftArr, rightArr, left, p, merged, s0, i, j);
    ProgressDone(p, leftArr, rightArr, merged, s0, left, a[..]);
  }

  /**
   * After sorting both halves of `s0` (giving `s1`, then `s2`) and merging
   * them (giving `s3`), the whole range is sorted and rearranged.
   */
  lemma SortedAfterMerge(p: Policy, s0: seq<NumberInfo>, s1: seq<NumberInfo>, s2: seq<NumberInfo>, s3: seq<NumberInfo>,
                         left: int, mid: int, right: int)
    requires left <= mid < right
    requires Permuted(s0, s1, left, mid + 1) && Sorted(p, s1[left..mid + 1])
    requires Permuted(s1, s2, mid + 1, right + 1) && Sorted(p, s2[mid + 1..right + 1])
    requires |s3| == |s2|
    requires s3[..left] == s2[..left] && s3[right + 1..] == s2[right + 1..]
    requires s3[left..right + 1] == Merged(p, s2[left..mid + 1], s2[mid + 1..right + 1], 0, 0)
    ensures Sorted(p, s3[left..right + 1])
    ensures Permuted(s0, s3, left, right + 1)
  {
    assert s2[left..mid + 1] == s1[left..mid + 1];
    MergedSorted(p, s2[left..mid + 1], s2[mid + 1..right + 1], 0, 0);
    MergedPermutes(p, s2[left..mid + 1], s2[mid + 1..right + 1], 0, 0);
    assert s2[left..mid + 1][0..] == s2[left..mid + 1];
    assert s2[mid + 1..right + 1][0..] == s2[mid + 1..right + 1];
    assert s2[left..right + 1] == s2[left..mid + 1] + s2[mid + 1..right + 1];
    RangeToPermuted(s2, s3, left, right + 1);
    PermutedWiden(s0, s1, left, mid + 1, left, right + 1);
    PermutedWiden(s1, s2, mid + 1, right + 1, left, right + 1);
    PermutedTrans(s0, s1, s2, left, right + 1);
    PermutedTrans(s0, s2, s3, left, right + 1);
  }

  /**
   * `parallel_merge_sort(arr, left, right, compare_func)`: sorts
   * `a[left..right]` (inclusive) in place, splitting at
   * `left + (right - left) / 2`.
   */
  method MSort(a: array<NumberInfo>, left: int, right: int, p: Policy)
    requires 0 <= left <= right + 1 <= a.Length
    modifies a
    ensures Sorted(p, a[left..right + 1])
    ensures Permuted(old(a[..]), a[..], left, right + 1)
    decreases right - left
  {
    if left < right {
      var mid := left + (right - left) / 2;
      MSort(a, left, mid, p);
      ghost var s1 := a[..];
      MSort(a, mid + 1, right, p);
      ghost var s2 := a[..];
      Merge(a, left, mid, right, p);
      SortedAfterMerge(p, old(a[..]), s1, s2, a[..], left, mid, right);
    }
  }
}
