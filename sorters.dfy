/**
 * The choice of sorter in the driver: whichever of the three sorters runs on
 * the annotated records, the result is the same.
 */
module Sorters {
  import opened Records
  import opened SortSpec
  import opened QuickSort
  import opened MergeSort
  import opened HeapSorter

  /**
   * Three sorted rearrangements of the same whole sequence `s` are equal: in
   * the driver's calls each sorter covers the whole array.
   */
  lemma WholeSortsAgree(p: Policy, s: seq<NumberInfo>, q: seq<NumberInfo>, m: seq<NumberInfo>, h: seq<NumberInfo>)
    requires Permuted(s, q, 0, |s|) && Sorted(p, q[0..|s|])
    requires Permuted(s, m, 0, |s|) && Sorted(p, m[0..|s|])
    requires Permuted(s, h, 0, |s|) && Sorted(p, h[..|s|])
    ensures q == m && m == h
    ensures Sorted(p, q) && multiset(q) == multiset(s)
  {
    assert q[0..|s|] == q && m[0..|s|] == m && h[..|s|] == h;
    SortedUnique(p, q, m);
    SortedUnique(p, m, h);
  }

  /** A new array holding the records of `s`, like the driver's `malloc`ed record buffer. */
  method CopyOf(s: seq<NumberInfo>) returns (a: array<NumberInfo>)
    ensures fresh(a) && a[..] == s
  {
    a := new NumberInfo[|s|](i requires 0 <= i < |s| => s[i]);
  }

  /**
   * Sorts three copies of `s` by the comparator `p`, one with each sorter, as
   * the driver would for "qsort", "merge" and "heap" on the same input.  All
   * three results are equal, sorted and a rearrangement of `s`.
   */
  method SortersAgree(s: seq<NumberInfo>, p: Policy) returns (byQuick: seq<NumberInfo>, byMerge: seq<NumberInfo>, byHeap: seq<NumberInfo>)
    ensures byQuick == byMerge && byMerge == byHeap
    ensures Sorted(p, byQuick) && multiset(byQuick) == multiset(s)
  {
    var count := |s|;
    var a1 := CopyOf(s);
    var a2 := CopyOf(s);
    var a3 := CopyOf(s);
    QSort(a1, 0, count - 1, p);
    byQuick := a1[..];
    MSort(a2, 0, count - 1, p);
    byMerge := a2[..];
    HeapSort(a3, count, p);
    byHeap := a3[..];
    WholeSortsAgree(p, s, byQuick, byMerge, byHeap);
  }
}
