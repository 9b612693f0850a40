/**
 * The heap sorter: build a max-heap (by the comparator) over the first `n`
 * records, then repeatedly move the root, the greatest remaining record, to
 * the end of the shrinking heap and restore the heap below it.  Node `k`'s
 * children are `2k+1` and `2k+2`; its parent is `(k-1)/2`.
 */
module HeapSorter {
  import opened Records
  import opened SortSpec

  /**
   * The records at indices `< n` form a heap at every node numbered `i` or
   * later (an index suffix, not only the subtree of `i`): every record whose
   * parent is at index `i` or later may come before that parent.
   */
  ghost predicate HeapFrom(p: Policy, s: seq<NumberInfo>, n: int, i: int)
    requires n <= |s|
  {
    forall k :: 0 < k < n && i <= Parent(k) ==> BelowParent(p, s, k)
  }

  /** The index of node `k`'s parent. */
  function Parent(k: int): int {
    (k - 1) / 2
  }

  /** Node `k` may come before its parent. */
  ghost predicate BelowParent(p: Policy, s: seq<NumberInfo>, k: int)
    requires 0 < k < |s|
  {
    Leq(p, s[k], s[Parent(k)])
  }

  /** In a heap over the first `n` records, the root may come after every one of them. */
  lemma {:induction false} RootIsGreatest(p: Policy, s: seq<NumberInfo>, n: int, k: int)
    requires 0 <= k < n <= |s| && HeapFrom(p, s, n, 0)
    ensures Leq(p, s[k], s[0])
    decreases k
  {
    if k > 0 {
      assert BelowParent(p, s, k);
      RootIsGreatest(p, s, n, Parent(k));
      LeqTransitive(p, s[k], s[Parent(k)], s[0]);
    }
  }

  /** Only nodes below `n / 2` have children below `n`, so the records from `n / 2` on already form a heap. */
  lemma LeavesAreHeaps(p: Policy, s: seq<NumberInfo>, n: int)
    requires 0 <= n <= |s|
    ensures HeapFrom(p, s, n, n / 2)
  {
  }

  /**
   * The node `heapify` exchanges node `i` with: the greatest of `i` and its
   * children below `n`, where a child replaces the current choice only when
   * it compares `> 0` to it, so the earlier node wins a tie.
   */
  function Largest(p: Policy, s: seq<NumberInfo>, n: int, i: int): (c: int)
    requires 0 <= i < n <= |s|
    ensures c == i || (c == 2 * i + 1 && c < n) || (c == 2 * i + 2 && c < n)
    ensures Leq(p, s[i], s[c])
    ensures 2 * i + 1 < n ==> Leq(p, s[2 * i + 1], s[c])
    ensures 2 * i + 2 < n ==> Leq(p, s[2 * i + 2], s[c])
  {
    var left, right := 2 * i + 1, 2 * i + 2;
    var l := if left < n && Compare(p, s[left], s[i]) > 0 then left else i;
    if right < n && Compare(p, s[right], s[l]) > 0 then right else l
  }

  /**
   * The proof step of `Heapify` after it has exchanged node `i` with its
   * greater child `c` (giving `s1`) and restored the heap below `c` (giving
   * `s2`): the heap now holds from `i` down, and `i` holds the old `s0[c]`.
   */
  lemma SiftedDown(p: Policy, s0: seq<NumberInfo>, s1: seq<NumberInfo>, s2: seq<NumberInfo>, n: int, i: int, c: int)
    requires 0 <= i < n <= |s0| && c == Largest(p, s0, n, i) && c != i
    requires HeapFrom(p, s0, n, i + 1)
    requires Exchanged(s0, s1, i, c)
    requires Permuted(s1, s2, c, n) && HeapFrom(p, s2, n, c)
    requires forall k :: c < k < 2 * c + 1 && k < |s1| ==> s2[k] == s1[k]
    requires s2[c] == s1[c] || (2 * c + 1 < n && s2[c] == s1[2 * c + 1]) || (2 * c + 2 < n && s2[c] == s1[2 * c + 2])
    ensures HeapFrom(p, s2, n, i)
    ensures Permuted(s0, s2, i, n)
    ensures forall k :: i < k < 2 * i + 1 && k < |s0| ==> s2[k] == s0[k]
    ensures s2[i] == s0[c]
  {
    // What ends up at `c` may come before the old `s0[c]`, now at `i`.
    assert Leq(p, s2[c], s0[c]) by {
      if 2 * c + 1 < n && s2[c] == s1[2 * c + 1] {
        assert Parent(2 * c + 1) == c && BelowParent(p, s0, 2 * c + 1);
      } else if 2 * c + 2 < n && s2[c] == s1[2 * c + 2] {
        assert Parent(2 * c + 2) == c && BelowParent(p, s0, 2 * c + 2);
      }
    }
    forall k | 0 < k < n && i <= Parent(k) ensures BelowParent(p, s2, k) {
      var q := Parent(k);
      if q == i {
        if k != c {
          // The other child of `i` is untouched by both steps.
          assert s2[k] == s0[k];
        }
      } else if q < c {
        // Neither `q` nor its child `k` is touched.
        assert q < k < 2 * c + 1;
        assert s2[q] == s0[q] && s2[k] == s0[k];
        assert BelowParent(p, s0, k);
      }
    }
    assert Permuted(s0, s1, i, n);
    PermutedWiden(s1, s2, c, n, i, n);
    PermutedTrans(s0, s1, s2, i, n);
  }

  /**
   * Exchanging node `i` with its child `c` leaves the heap below `c` intact:
   * no node after `c` or its parent is moved.
   */
  lemma SwappedKeepsHeapBelow(p: Policy, s0: seq<NumberInfo>, s1: seq<NumberInfo>, n: int, i: int, c: int)
    requires 0 <= i < c < n <= |s0|
    requires HeapFrom(p, s0, n, i + 1) && Exchanged(s0, s1, i, c)
    ensures HeapFrom(p, s1, n, c + 1)
  {
    forall k | 0 < k < n && c + 1 <= Parent(k) ensures BelowParent(p, s1, k) {
      assert BelowParent(p, s0, k);
    }
  }

  /**
   * `heapify(arr, n, i, compare_func)`: if a child of node `i` below `n`
   * compares `> 0` to it, exchange `i` with the greater child (the left one
   * on a tie) and continue from there.  Given a heap at every node after `i`,
   * it leaves a heap at every node from `i` on.
   */
  method Heapify(a: array<NumberInfo>, n: int, i: int, p: Policy)
    requires 0 <= i < n <= a.Length
    requires HeapFrom(p, a[..], n, i + 1)
    modifies a
    ensures HeapFrom(p, a[..], n, i)
    ensures Permuted(old(a[..]), a[..], i, n)
    ensures forall k :: i < k < 2 * i + 1 && k < a.Length ==> a[k] == old(a[k])
    ensures a[i] == old(a[i]) || (2 * i + 1 < n && a[i] == old(a[2 * i + 1])) || (2 * i + 2 < n && a[i] == old(a[2 * i + 2]))
    decreases n - i
  {
    var current := i;
    var left := 2 * i + 1;
    var right := 2 * i + 2;
    if left < n && Compare(p, a[left], a[current]) > 0 {
      current := left;
    }
    if right < n && Compare(p, a[right], a[current]) > 0 {
      current := right;
    }
    assert current == Largest(p, a[..], n, i);
    if current != i {
      ghost var s0 := a[..];
      Swap(a, i, current);
      ghost var s1 := a[..];
      SwappedKeepsHeapBelow(p, s0, s1, n, i, current);
      Heapify(a, n, current, p);
      SiftedDown(p, s0, s1, a[..], n, i, current);
    }
  }

  /**
   * The state of the extraction loop of `heap_sort` before the round for
   * index `i`: the first `i + 1` records form a heap, the records after them
   * are sorted, every record of the heap may come before every sorted one, and
   * the whole is a rearrangement of the input `s0`.
   */
  ghost predicate Extracting(p: Policy, s0: seq<NumberInfo>, s: seq<NumberInfo>, i: int, n: int) {
    && -1 <= i < n <= |s|
    && HeapFrom(p, s, i + 1, 0)
    && Sorted(p, s[i + 1..n])
    && (forall k, m :: 0 <= k <= i < m < n ==> Leq(p, s[k], s[m]))
    && Permuted(s0, s, 0, n)
  }

  /** Exchanging the root with the last heap record `i` leaves the heap intact below the root. */
  lemma RootSwapped(p: Policy, s0: seq<NumberInfo>, s1: seq<NumberInfo>, s2: seq<NumberInfo>, i: int, n: int)
    requires Extracting(p, s0, s1, i, n) && 0 < i && Exchanged(s1, s2, 0, i)
    ensures HeapFrom(p, s2, i, 1)
  {
    forall k | 0 < k < i && 1 <= Parent(k) ensures BelowParent(p, s2, k) {
      assert BelowParent(p, s1, k);
    }
  }

  /**
   * One round of the extraction loop: exchanging the root of `s1` with record
   * `i` (giving `s2`) and restoring the heap over the first `i` records
   * (giving `s3`) extends the sorted tail by one.
   */
  lemma ExtractedRoot(p: Policy, s0: seq<NumberInfo>, s1: seq<NumberInfo>, s2: seq<NumberInfo>, s3: seq<NumberInfo>,
                      i: int, n: int)
    requires Extracting(p, s0, s1, i, n) && 0 <= i && Exchanged(s1, s2, 0, i)
    requires i == 0 ==> s3 == s2
    requires i > 0 ==> Permuted(s2, s3, 0, i) && HeapFrom(p, s3, i, 0)
    ensures Extracting(p, s0, s3, i - 1, n)
  {
    var root := s1[0];
    assert Permuted(s1, s2, 0, n);
    if i > 0 {
      PermutedWiden(s2, s3, 0, i, 0, n);
      PermutedTrans(s1, s2, s3, 0, n);
    }
    PermutedTrans(s0, s1, s3, 0, n);
    assert s3[i] == root;
    assert forall m :: i < m < n ==> s3[m] == s1[m];

    // Every record before `i` may come before the old root.
    RootIsGreatest(p, s1, i + 1, i);
    assert All(s2, 0, i, x => Leq(p, x, root)) by {
      forall k | 0 < k < i ensures Leq(p, s2[k], root) {
        RootIsGreatest(p, s1, i + 1, k);
      }
    }
    if i > 0 {
      AllPermuted(s2, s3, 0, i, x => Leq(p, x, root));
    }
    forall k, m | 0 <= k <= i - 1 < m < n ensures Leq(p, s3[k], s3[m]) {
      assert Leq(p, s3[k], root);
      if m > i {
        assert Leq(p, s1[0], s1[m]);
        LeqTransitive(p, s3[k], root, s3[m]);
      }
    }
    forall a, b | 0 <= a < b < n - i ensures Leq(p, s3[i..n][a], s3[i..n][b]) {
      if a == 0 {
        assert Leq(p, s1[0], s1[i + b]);
      } else {
        assert s3[i..n][a] == s1[i + 1..n][a - 1] && s3[i..n][b] == s1[i + 1..n][b - 1];
      }
    }
  }

  // The two loops of `heap_sort`, in the order it runs them.

  /** The first loop: heapify every node that has a child, last one first, which makes the first `n` records a heap. */
  method BuildHeap(a: array<NumberInfo>, n: int, p: Policy)
    requires 0 <= n <= a.Length
    modifies a
    ensures HeapFrom(p, a[..], n, 0)
    ensures Permuted(old(a[..]), a[..], 0, n)
  {
    ghost var s0 := a[..];
    LeavesAreHeaps(p, a[..], n);
    var i := n / 2 - 1;
    while i >= 0
      invariant -1 <= i < n
      invariant HeapFrom(p, a[..], n, i + 1)
      invariant Permuted(s0, a[..], 0, n)
    {
      ghost var s1 := a[..];
      Heapify(a, n, i, p);
      PermutedWiden(s1, a[..], i, n, 0, n);
      PermutedTrans(s0, s1, a[..], 0, n);
      i := i - 1;
    }
  }

  /**
   * The second loop: exchange the root with the last record of the heap,
   * shrink the heap by one and restore it, until the heap is empty.
   */
  method ExtractAll(a: array<NumberInfo>, n: int, p: Policy, ghost s0: seq<NumberInfo>)
    requires Extracting(p, s0, a[..], n - 1, n)
    modifies a
    ensures Extracting(p, s0, a[..], -1, n)
  {
    var i := n - 1;
    while i >= 0
      invariant Extracting(p, s0, a[..], i, n)
    {
      ghost var s1 := a[..];
      Swap(a, 0, i);
      ghost var s2 := a[..];
      if i > 0 {
        RootSwapped(p, s0, s1, s2, i, n);
        Heapify(a, i, 0, p);
      }
      ExtractedRoot(p, s0, s1, s2, a[..], i, n);
      i := i - 1;
    }
  }

  /**
   * `heap_sort(arr, n, compare_func)`: sorts `a[0..n)` in place.
   */
  method HeapSort(a: array<NumberInfo>, n: int, p: Policy)
    requires 0 <= n <= a.Length
    modifies a
    ensures Sorted(p, a[..n])
    ensures Permuted(old(a[..]), a[..], 0, n)
  {
    BuildHeap(a, n, p);
    assert a[n..n] == [];
    ExtractAll(a, n, p, old(a[..]));
    assert a[..n] == a[0..n];
  }
}
