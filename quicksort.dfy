/**
 * The partition-exchange sorter: Lomuto partition around the last record of
 * the range, then the two sides sorted independently.  The C program runs the
 * two recursive calls as parallel sections; they work on disjoint index
 * ranges, so here they run one after the other.
 */
module QuickSort {
  import opened Records
  import opened SortSpec

  /**
   * The state of `partition`'s loop before index `j`: the pivot is still at
   * `high`, the records at `low..i` (inclusive) may come before it, those
   * after `i` and before `j` compare `> 0` to it, and the range is a
   * rearrangement of what it held at the start.
   */
  ghost predicate Partitioning(p: Policy, s0: seq<NumberInfo>, s: seq<NumberInfo>, low: int, high: int, i: int, j: int) {
    && 0 <= low <= high < |s0| && low - 1 <= i < j <= high
    && Permuted(s0, s, low, high + 1)
    && s[high] == s0[high]
    && (forall k :: low <= k <= i ==> Leq(p, s[k], s[high]))
    && (forall k :: i < k < j ==> Compare(p, s[k], s[high]) > 0)
  }

  /** When `a[j]` may come before the pivot, exchanging it with the first record after `i` extends the lower group by one. */
  lemma SmallerMoved(p: Policy, s0: seq<NumberInfo>, s: seq<NumberInfo>, t: seq<NumberInfo>, low: int, high: int, i: int, j: int)
    requires Partitioning(p, s0, s, low, high, i, j) && j < high && Leq(p, s[j], s[high])
    requires Exchanged(s, t, i + 1, j)
    ensures Partitioning(p, s0, t, low, high, i + 1, j + 1)
  {
    assert Permuted(s, t, low, high + 1);
  }

  /**
   * Once every record before `high` has been placed, exchanging the pivot with
   * the first record of the upper group puts it between the two groups.
   */
  lemma PivotPlaced(p: Policy, s0: seq<NumberInfo>, s: seq<NumberInfo>, t: seq<NumberInfo>, low: int, high: int, i: int)
    requires Partitioning(p, s0, s, low, high, i, high)
    requires Exchanged(s, t, i + 1, high)
    ensures t[i + 1] == s0[high]
    ensures forall k :: low <= k < i + 1 ==> Leq(p, t[k], t[i + 1])
    ensures forall k :: i + 1 < k <= high ==> Compare(p, t[k], t[i + 1]) > 0
    ensures Permuted(s0, t, low, high + 1)
  {
    assert Permuted(s, t, low, high + 1);
  }

  /**
   * `partition(arr, low, high, compare_func)`: moves every record that
   * compares `<= 0` to the pivot `a[high]` in front of the others, puts the
   * pivot between the two groups, and returns its new index.
   */
  method Partition(a: array<NumberInfo>, low: int, high: int, p: Policy) returns (pi: int)
    requires 0 <= low <= high < a.Length
    modifies a
    ensures low <= pi <= high
    ensures a[pi] == old(a[high])
    ensures forall k :: low <= k < pi ==> Leq(p, a[k], a[pi])
    ensures forall k :: pi < k <= high ==> Compare(p, a[k], a[pi]) > 0
    ensures Permuted(old(a[..]), a[..], low, high + 1)
  {
    ghost var s0 := a[..];
    var pivot := a[high];
    var i := low - 1;
    for j := low to high
      invariant Partitioning(p, s0, a[..], low, high, i, j)
    {
      if Compare(p, a[j], pivot) <= 0 {
        ghost var s := a[..];
        i := i + 1;
        Swap(a, i, j);
        SmallerMoved(p, s0, s, a[..], low, high, i - 1, j);
      }
    }
    ghost var s := a[..];
    Swap(a, i + 1, high);
    PivotPlaced(p, s0, s, a[..], low, high, i);
    pi := i + 1;
  }

  /** A sorted run of records `<=` a pivot, the pivot, then a sorted run of records `>` it, is sorted. */
  lemma {:induction false} SortedAroundPivot(p: Policy, left: seq<NumberInfo>, pivot: NumberInfo, right: seq<NumberInfo>)
    requires Sorted(p, left) && Sorted(p, right)
    requires forall k :: 0 <= k < |left| ==> Leq(p, left[k], pivot)
    requires forall k :: 0 <= k < |right| ==> Compare(p, right[k], pivot) > 0
    ensures Sorted(p, left + [pivot] + right)
  {
    var s := left + [pivot] + right;
    forall i, j | 0 <= i < j < |s| ensures Leq(p, s[i], s[j]) {
      if j > |left| {
        CompareAntisymmetric(p, right[j - |left| - 1], pivot);
        if i < |left| {
          LeqTransitive(p, s[i], pivot, s[j]);
        }
      }
    }
  }

  /**
   * After partitioning `s0` into `s1` around the pivot at `pi`, sorting the
   * left side (giving `s2`) and then the right side (giving `s3`) leaves the
   * whole range sorted and rearranged.
   */
  lemma SortedAfterSides(p: Policy, s0: seq<NumberInfo>, s1: seq<NumberInfo>, s2: seq<NumberInfo>, s3: seq<NumberInfo>,
                         low: int, pi: int, high: int)
    requires Permuted(s0, s1, low, high + 1) && low <= pi <= high
    requires forall k :: low <= k < pi ==> Leq(p, s1[k], s1[pi])
    requires forall k :: pi < k <= high ==> Compare(p, s1[k], s1[pi]) > 0
    requires Permuted(s1, s2, low, pi) && Sorted(p, s2[low..pi])
    requires Permuted(s2, s3, pi + 1, high + 1) && Sorted(p, s3[pi + 1..high + 1])
    ensures Sorted(p, s3[low..high + 1])
    ensures Permuted(s0, s3, low, high + 1)
  {
    var pivot := s1[pi];
    // The left side keeps its records, so all of them are still <= the pivot,
    // and sorting the right side does not touch it.
    AllPermuted(s1, s2, low, pi, x => Leq(p, x, pivot));
    assert s3[low..pi] == s2[low..pi];
    // The right side is untouched by the left sort, and keeps its records in its own.
    assert All(s2, pi + 1, high + 1, x => Compare(p, x, pivot) > 0);
    AllPermuted(s2, s3, pi + 1, high + 1, x => Compare(p, x, pivot) > 0);
    assert s3[pi] == pivot;

    assert s3[low..high + 1] == s3[low..pi] + [pivot] + s3[pi + 1..high + 1];
    SortedAroundPivot(p, s3[low..pi], pivot, s3[pi + 1..high + 1]);

    PermutedWiden(s1, s2, low, pi, low, high + 1);
    PermutedWiden(s2, s3, pi + 1, high + 1, low, high + 1);
    PermutedTrans(s0, s1, s2, low, high + 1);
    PermutedTrans(s0, s2, s3, low, high + 1);
  }

  /**
   * `parallel_qsort(arr, low, high, compare_func)`: sorts `a[low..high]`
   * (inclusive) in place; a range of fewer than two records is left as it is.
   */
  method QSort(a: array<NumberInfo>, low: int, high: int, p: Policy)
    requires 0 <= low <= high + 1 <= a.Length
    modifies a
    ensures Sorted(p, a[low..high + 1])
    ensures Permuted(old(a[..]), a[..], low, high + 1)
    decreases high - low
  {
    if low < high {
      var pi := Partition(a, low, high, p);
      ghost var s1 := a[..];
      QSort(a, low, pi - 1, p);
      ghost var s2 := a[..];
      QSort(a, pi + 1, high, p);
      SortedAfterSides(p, old(a[..]), s1, s2, a[..], low, pi, high);
    }
  }
}
