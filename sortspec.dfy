/**
 * What the three sorters promise: the sorted range is ordered by the chosen
 * comparator and holds the same records as before, with the rest of the array
 * untouched.  Because the comparator is a total order, such a result is
 * unique, so all three sorters agree.
 */
module SortSpec {
  import opened Records

  /** Every record of `s` may come before every later one. */
  ghost predicate Sorted(p: Policy, s: seq<NumberInfo>) {
    forall i, j :: 0 <= i < j < |s| ==> Leq(p, s[i], s[j])
  }

  /**
   * `after` is `before` with the records at indices `lo..hi` (half-open)
   * rearranged among themselves: it holds the same records, and every index
   * outside the range holds what it held before.  `PermutedRange` shows that
   * the range itself then holds the same records as before.
   */
  ghost predicate Permuted(before: seq<NumberInfo>, after: seq<NumberInfo>, lo: int, hi: int) {
    && |after| == |before|
    && 0 <= lo <= hi <= |before|
    && (forall k :: 0 <= k < lo ==> after[k] == before[k])
    && (forall k :: hi <= k < |before| ==> after[k] == before[k])
    && multiset(after) == multiset(before)
  }

  /** Every record in `s[lo..hi]` satisfies `P`. */
  ghost predicate All(s: seq<NumberInfo>, lo: int, hi: int, P: NumberInfo -> bool)
    requires 0 <= lo <= hi <= |s|
  {
    forall k :: lo <= k < hi ==> P(s[k])
  }

  /** The records of `s`, counted with multiplicity, are those before `lo`, those in `lo..hi` and those from `hi` on. */
  lemma MultisetSplit(s: seq<NumberInfo>, lo: int, hi: int)
    requires 0 <= lo <= hi <= |s|
    ensures multiset(s) == multiset(s[..lo]) + multiset(s[lo..hi]) + multiset(s[hi..])
  {
    assert s == s[..lo] + s[lo..hi] + s[hi..];
  }

  /** A rearranged range holds the same records as before, counted with multiplicity. */
  lemma PermutedRange(s: seq<NumberInfo>, t: seq<NumberInfo>, lo: int, hi: int)
    requires Permuted(s, t, lo, hi)
    ensures multiset(t[lo..hi]) == multiset(s[lo..hi])
  {
    MultisetSplit(s, lo, hi);
    MultisetSplit(t, lo, hi);
    assert s[..lo] == t[..lo] && s[hi..] == t[hi..];
    // Cancel the common outer parts, one multiplicity at a time.
    forall x ensures multiset(t[lo..hi])[x] == multiset(s[lo..hi])[x] {
      assert multiset(t)[x] == multiset(s)[x];
    }
  }

  /** Sequences that agree outside a range and hold the same records in it are rearrangements of each other. */
  lemma RangeToPermuted(s: seq<NumberInfo>, t: seq<NumberInfo>, lo: int, hi: int)
    requires |s| == |t| && 0 <= lo <= hi <= |s|
    requires forall k :: 0 <= k < lo ==> t[k] == s[k]
    requires forall k :: hi <= k < |s| ==> t[k] == s[k]
    requires multiset(t[lo..hi]) == multiset(s[lo..hi])
    ensures Permuted(s, t, lo, hi)
  {
    assert s == s[..lo] + s[lo..hi] + s[hi..];
    assert t == t[..lo] + t[lo..hi] + t[hi..];
    assert s[..lo] == t[..lo] && s[hi..] == t[hi..];
  }

  lemma PermutedTrans(s: seq<NumberInfo>, t: seq<NumberInfo>, u: seq<NumberInfo>, lo: int, hi: int)
    requires Permuted(s, t, lo, hi) && Permuted(t, u, lo, hi)
    ensures Permuted(s, u, lo, hi)
  {
  }

  /** A rearrangement of a sub-range is a rearrangement of any range around it. */
  lemma PermutedWiden(s: seq<NumberInfo>, t: seq<NumberInfo>, lo: int, hi: int, lo': int, hi': int)
    requires Permuted(s, t, lo, hi)
    requires 0 <= lo' <= lo && hi <= hi' <= |s|
    ensures Permuted(s, t, lo', hi')
  {
  }

  /** A property held by every record of a range survives its rearrangement. */
  lemma AllPermuted(s: seq<NumberInfo>, t: seq<NumberInfo>, lo: int, hi: int, P: NumberInfo -> bool)
    requires Permuted(s, t, lo, hi) && All(s, lo, hi, P)
    ensures All(t, lo, hi, P)
  {
    PermutedRange(s, t, lo, hi);
    forall k | lo <= k < hi ensures P(t[k]) {
      assert t[k] == t[lo..hi][k - lo];
      assert t[k] in multiset(s[lo..hi]);
      var m :| 0 <= m < hi - lo && s[lo..hi][m] == t[k];
      assert s[lo + m] == t[k];
    }
  }

  /** `t` is `s` with the records at indices `x` and `y` exchanged. */
  ghost predicate Exchanged(s: seq<NumberInfo>, t: seq<NumberInfo>, x: int, y: int)
    requires 0 <= x < |s| && 0 <= y < |s|
  {
    && |t| == |s| && t[x] == s[y] && t[y] == s[x]
    && (forall k :: 0 <= k < |s| && k != x && k != y ==> t[k] == s[k])
    && multiset(t) == multiset(s)
  }

  /** Exchanges `a[i]` and `a[j]` through a temporary, as the partition-exchange and heap sorters do inline. */
  method Swap(a: array<NumberInfo>, i: int, j: int)
    requires 0 <= i < a.Length && 0 <= j < a.Length
    modifies a
    ensures Exchanged(old(a[..]), a[..], i, j)
  {
    var temp := a[i];
    a[i] := a[j];
    a[j] := temp;
  }

  // ---------------------------------------------------------------------
  // Uniqueness of the sorted order.

  /** The first record of a sorted sequence may come before every record of it. */
  lemma SortedFirstIsLeast(p: Policy, s: seq<NumberInfo>, x: NumberInfo)
    requires Sorted(p, s) && x in multiset(s)
    ensures Leq(p, s[0], x)
  {
    var j :| 0 <= j < |s| && s[j] == x;
    if j != 0 {
      assert Leq(p, s[0], s[j]);
    }
  }

  /** Removing the first record from two sequences with equal contents and equal first records keeps the contents equal. */
  lemma TailsSameRecords(s: seq<NumberInfo>, t: seq<NumberInfo>)
    requires s != [] && t != [] && s[0] == t[0] && multiset(s) == multiset(t)
    ensures multiset(s[1..]) == multiset(t[1..])
  {
    assert s == [s[0]] + s[1..] && t == [t[0]] + t[1..];
    assert multiset(s[1..]) == multiset(s) - multiset{s[0]};
    assert multiset(t[1..]) == multiset(t) - multiset{t[0]};
  }

  /**
   * Two sequences sorted by the same policy and holding the same records are
   * equal.  This is why the partition-exchange, merge and heap sorters give
   * identical output for any input and policy, and why sorting a sorted range
   * leaves it as it is.
   */
  lemma {:induction false} SortedUnique(p: Policy, s: seq<NumberInfo>, t: seq<NumberInfo>)
    requires Sorted(p, s) && Sorted(p, t) && multiset(s) == multiset(t)
    ensures s == t
  {
    assert |s| == |multiset(s)| == |multiset(t)| == |t|;
    if s != [] {
      assert s[0] in multiset(s) && t[0] in multiset(t);
      SortedFirstIsLeast(p, t, s[0]);
      SortedFirstIsLeast(p, s, t[0]);
      LeqAntisymmetric(p, s[0], t[0]);
      TailsSameRecords(s, t);
      SortedUnique(p, s[1..], t[1..]);
      assert s == [s[0]] + s[1..] && t == [t[0]] + t[1..];
    }
  }
}
