/**
 * What the merge step computes: the two-pointer merge of two runs, its
 * properties, and the record-by-record state the merge loops keep.
 */
module MergeSpec {
  import opened Records
  import opened SortSpec

  /**
   * The two-pointer merge of what is left of `xs` from index `i` and of `ys`
   * from index `j`: take `xs[i]` when it compares `<= 0` to `ys[j]`, else
   * `ys[j]`; once one side is used up, the rest of the other follows.
   * `Merged(p, xs, ys, 0, 0)` is the merge of the two whole sequences.
   */
  function Merged(p: Policy, xs: seq<NumberInfo>, ys: seq<NumberInfo>, i: int, j: int): (r: seq<NumberInfo>)
    requires 0 <= i <= |xs| && 0 <= j <= |ys|
    ensures |r| == |xs| - i + |ys| - j
    decreases |xs| - i + |ys| - j
  {
    if i == |xs| then ys[j..]
    else if j == |ys| then xs[i..]
    else if Compare(p, xs[i], ys[j]) <= 0 then [xs[i]] + Merged(p, xs, ys, i + 1, j)
    else [ys[j]] + Merged(p, xs, ys, i, j + 1)
  }

  /** The merge holds exactly the records it has left to take from both inputs. */
  lemma {:induction false} MergedPermutes(p: Policy, xs: seq<NumberInfo>, ys: seq<NumberInfo>, i: int, j: int)
    requires 0 <= i <= |xs| && 0 <= j <= |ys|
    ensures multiset(Merged(p, xs, ys, i, j)) == multiset(xs[i..]) + multiset(ys[j..])
    decreases |xs| - i + |ys| - j
  {
    if i < |xs| && j < |ys| {
      if Compare(p, xs[i], ys[j]) <= 0 {
        MergedPermutes(p, xs, ys, i + 1, j);
        MultisetFrom(xs, i);
      } else {
        MergedPermutes(p, xs, ys, i, j + 1);
        MultisetFrom(ys, j);
      }
    }
  }

  /** The records of `s` from index `i` on are `s[i]` and those after it. */
  lemma MultisetFrom(s: seq<NumberInfo>, i: int)
    requires 0 <= i < |s|
    ensures multiset(s[i..]) == multiset{s[i]} + multiset(s[i + 1..])
  {
    assert s[i..] == [s[i]] + s[i + 1..];
  }

  /** Putting a record that may come before all of a sorted sequence in front of it keeps it sorted. */
  lemma SortedCons(p: Policy, x: NumberInfo, s: seq<NumberInfo>)
    requires Sorted(p, s)
    requires forall k :: 0 <= k < |s| ==> Leq(p, x, s[k])
    ensures Sorted(p, [x] + s)
  {
    var t := [x] + s;
    forall a, b | 0 <= a < b < |t| ensures Leq(p, t[a], t[b]) {
      if a > 0 {
        assert t[a] == s[a - 1] && t[b] == s[b - 1];
      }
    }
  }

  /** A record of a sorted sequence from index `i` on may come after `s[i]`. */
  lemma SortedFrom(p: Policy, s: seq<NumberInfo>, i: int, x: NumberInfo)
    requires Sorted(p, s) && 0 <= i < |s| && x in multiset(s[i..])
    ensures Leq(p, s[i], x)
  {
    var m :| 0 <= m < |s| - i && s[i..][m] == x;
    if m > 0 {
      assert Leq(p, s[i], s[i + m]);
    }
  }

  /** A record that may come before the next record of both sorted inputs may come before all the rest of the merge. */
  lemma BelowMerged(p: Policy, x: NumberInfo, xs: seq<NumberInfo>, ys: seq<NumberInfo>, i: int, j: int)
    requires Sorted(p, xs) && Sorted(p, ys)
    requires 0 <= i <= |xs| && 0 <= j <= |ys|
    requires i < |xs| ==> Leq(p, x, xs[i])
    requires j < |ys| ==> Leq(p, x, ys[j])
    ensures forall k :: 0 <= k < |Merged(p, xs, ys, i, j)| ==> Leq(p, x, Merged(p, xs, ys, i, j)[k])
  {
    var r := Merged(p, xs, ys, i, j);
    MergedPermutes(p, xs, ys, i, j);
    forall k | 0 <= k < |r| ensures Leq(p, x, r[k]) {
      assert r[k] in multiset(r);
      if r[k] in multiset(xs[i..]) {
        SortedFrom(p, xs, i, r[k]);
        LeqTransitive(p, x, xs[i], r[k]);
      } else {
        SortedFrom(p, ys, j, r[k]);
        LeqTransitive(p, x, ys[j], r[k]);
      }
    }
  }

  /** Merging two sorted sequences gives a sorted sequence. */
  lemma {:induction false} MergedSorted(p: Policy, xs: seq<NumberInfo>, ys: seq<NumberInfo>, i: int, j: int)
    requires Sorted(p, xs) && Sorted(p, ys)
    requires 0 <= i <= |xs| && 0 <= j <= |ys|
    ensures Sorted(p, Merged(p, xs, ys, i, j))
    decreases |xs| - i + |ys| - j
  {
    if i < |xs| && j < |ys| {
      if Compare(p, xs[i], ys[j]) <= 0 {
        MergedSorted(p, xs, ys, i + 1, j);
        BelowMerged(p, xs[i], xs, ys, i + 1, j);
        SortedCons(p, xs[i], Merged(p, xs, ys, i + 1, j));
      } else {
        CompareAntisymmetric(p, xs[i], ys[j]);
        MergedSorted(p, xs, ys, i, j + 1);
        BelowMerged(p, ys[j], xs, ys, i, j + 1);
        SortedCons(p, ys[j], Merged(p, xs, ys, i, j + 1));
      }
    } else if i < |xs| {
      assert forall a, b :: 0 <= a < b < |xs| - i ==> xs[i..][a] == xs[i + a] && xs[i..][b] == xs[i + b];
    } else {
      assert forall a, b :: 0 <= a < b < |ys| - j ==> ys[j..][a] == ys[j + a] && ys[j..][b] == ys[j + b];
    }
  }

  /**
   * When every record of the left input may come before every record of the
   * right one, the merge is the left input followed by the right one: ties go
   * to the left, so merging an already ordered range changes nothing.
   */
  lemma {:induction false} MergedOrderedHalves(p: Policy, xs: seq<NumberInfo>, ys: seq<NumberInfo>, i: int)
    requires 0 <= i <= |xs|
    requires forall a, b :: 0 <= a < |xs| && 0 <= b < |ys| ==> Leq(p, xs[a], ys[b])
    ensures Merged(p, xs, ys, i, 0) == xs[i..] + ys
    decreases |xs| - i
  {
    if i < |xs| && ys != [] {
      assert Leq(p, xs[i], ys[0]);
      MergedOrderedHalves(p, xs, ys, i + 1);
      assert xs[i..] == [xs[i]] + xs[i + 1..];
    }
  }

  // ---------------------------------------------------------------------
  // The merge loops, one record at a time.

  /**
   * Whether the next record of the merge is taken from `xs`: it is when `xs`
   * is not used up and either `ys` is or the head of `xs` compares `<= 0` to
   * the head of `ys`.
   */
  predicate TakesLeft(p: Policy, xs: seq<NumberInfo>, ys: seq<NumberInfo>, i: int, j: int)
    requires 0 <= i <= |xs| && 0 <= j <= |ys|
  {
    i < |xs| && (j == |ys| || Compare(p, xs[i], ys[j]) <= 0)
  }

  /**
   * `out[n..]` is what the merge loops write once their read pointers stand
   * at `i` and `j`, stated record by record.
   */
  ghost predicate WritesFrom(p: Policy, xs: seq<NumberInfo>, ys: seq<NumberInfo>, i: int, j: int, out: seq<NumberInfo>, n: int)
    requires 0 <= i <= |xs| && 0 <= j <= |ys| && 0 <= n
    decreases |xs| - i + |ys| - j
  {
    if i == |xs| && j == |ys| then n == |out|
    else if TakesLeft(p, xs, ys, i, j) then n < |out| && out[n] == xs[i] && WritesFrom(p, xs, ys, i + 1, j, out, n + 1)
    else n < |out| && out[n] == ys[j] && WritesFrom(p, xs, ys, i, j + 1, out, n + 1)
  }

  /** `Merged` is what the merge loops write. */
  lemma {:induction false} MergedWrites(p: Policy, xs: seq<NumberInfo>, ys: seq<NumberInfo>, i: int, j: int, out: seq<NumberInfo>, n: int)
    requires 0 <= i <= |xs| && 0 <= j <= |ys| && 0 <= n <= |out|
    requires out[n..] == Merged(p, xs, ys, i, j)
    ensures WritesFrom(p, xs, ys, i, j, out, n)
    decreases |xs| - i + |ys| - j
  {
    if i == |xs| && j == |ys| {
    } else if TakesLeft(p, xs, ys, i, j) {
      if j == |ys| {
        assert xs[i..] == [xs[i]] + xs[i + 1..];
      }
      assert out[n..] == [xs[i]] + Merged(p, xs, ys, i + 1, j);
      assert out[n + 1..] == out[n..][1..];
      MergedWrites(p, xs, ys, i + 1, j, out, n + 1);
    } else {
      if i == |xs| {
        assert ys[j..] == [ys[j]] + ys[j + 1..];
      }
      assert out[n..] == [ys[j]] + Merged(p, xs, ys, i, j + 1);
      assert out[n + 1..] == out[n..][1..];
      MergedWrites(p, xs, ys, i, j + 1, out, n + 1);
    }
  }

  /**
   * The state of the merge loops over array contents `s`, which were `s0`
   * before the merge started: the read pointers stand at `i` and `j`, the
   * first `i + j` records of `out` have been written from index `left` on,
   * the loops will write the rest of `out` after them, and nothing else has
   * changed.
   */
  ghost predicate MergeProgress(p: Policy, xs: seq<NumberInfo>, ys: seq<NumberInfo>, out: seq<NumberInfo>,
                                s0: seq<NumberInfo>, left: int, s: seq<NumberInfo>, i: int, j: int) {
    && 0 <= i <= |xs| && 0 <= j <= |ys|
    && |s| == |s0| && 0 <= left && left + |xs| + |ys| <= |s|
    && WritesFrom(p, xs, ys, i, j, out, i + j)
    && (forall m :: left <= m < left + i + j ==> s[m] == out[m - left])
    && (forall m :: 0 <= m < left ==> s[m] == s0[m])
    && (forall m :: left + i + j <= m < |s| ==> s[m] == s0[m])
  }

  lemma ProgressStart(p: Policy, xs: seq<NumberInfo>, ys: seq<NumberInfo>, s0: seq<NumberInfo>, left: int)
    requires 0 <= left && left + |xs| + |ys| <= |s0|
    ensures MergeProgress(p, xs, ys, Merged(p, xs, ys, 0, 0), s0, left, s0, 0, 0)
  {
    var out := Merged(p, xs, ys, 0, 0);
    assert out[0..] == out;
    MergedWrites(p, xs, ys, 0, 0, out, 0);
  }

  /** Once both inputs are used up, all of `out` has been written from `left` on. */
  lemma ProgressDone(p: Policy, xs: seq<NumberInfo>, ys: seq<NumberInfo>, out: seq<NumberInfo>,
                     s0: seq<NumberInfo>, left: int, s: seq<NumberInfo>)
    requires MergeProgress(p, xs, ys, out, s0, left, s, |xs|, |ys|)
    ensures s[left..left + |xs| + |ys|] == out
    ensures s[..left] == s0[..left] && s[left + |xs| + |ys|..] == s0[left + |xs| + |ys|..]
  {
  }

}
