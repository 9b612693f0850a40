/**
 * The frequency annotator: one record per input element, holding the element,
 * how often its value occurs in the whole input, and its index.
 */
module Frequencies {
  import opened Records

  /** The number of elements of `s` equal to `x`. */
  function Count(s: seq<int>, x: int): (c: nat)
    ensures c <= |s|
  {
    if s == [] then 0
    else Count(s[..|s| - 1], x) + (if s[|s| - 1] == x then 1 else 0)
  }

  /** `Count` is the multiplicity of `x` in the input taken as a multiset. */
  lemma {:induction false} CountIsMultiplicity(s: seq<int>, x: int)
    ensures Count(s, x) == multiset(s)[x]
  {
    if s != [] {
      CountIsMultiplicity(s[..|s| - 1], x);
      assert s == s[..|s| - 1] + [s[|s| - 1]];
    }
  }

  /** Counting over one more element of a prefix adds one exactly when that element is `x`. */
  lemma CountPrefix(s: seq<int>, j: int, x: int)
    requires 0 <= j < |s|
    ensures Count(s[..j + 1], x) == Count(s[..j], x) + (if s[j] == x then 1 else 0)
  {
    assert s[..j + 1][..j] == s[..j];
  }

  /** The annotated input: what `calculate_frequencies` leaves in `result`. */
  function Annotate(s: seq<int>): (r: seq<NumberInfo>)
    ensures |r| == |s|
    ensures forall i :: 0 <= i < |s| ==>
      r[i].number == s[i] && r[i].originalPosition == i && r[i].frequency == multiset(s)[s[i]]
  {
    assert forall i :: 0 <= i < |s| ==> Count(s, s[i]) == multiset(s)[s[i]] by {
      forall i | 0 <= i < |s| { CountIsMultiplicity(s, s[i]); }
    }
    seq(|s|, i requires 0 <= i < |s| => NumberInfo(s[i], Count(s, s[i]), i))
  }

  /** Every record's frequency counts its own element, so it is at least one. */
  lemma FrequencyPositive(s: seq<int>, i: int)
    requires 0 <= i < |s|
    ensures Annotate(s)[i].frequency >= 1
  {
    assert s[i] in multiset(s);
  }

  /** Equal values are annotated with equal frequencies. */
  lemma EqualValuesEqualFrequencies(s: seq<int>, i: int, j: int)
    requires 0 <= i < |s| && 0 <= j < |s| && s[i] == s[j]
    ensures Annotate(s)[i].frequency == Annotate(s)[j].frequency
  {
  }

  /** No two records of the annotated input are equal, so the comparators never return 0 between them. */
  lemma AnnotatedRecordsDistinct(s: seq<int>, i: int, j: int)
    requires 0 <= i < |s| && 0 <= j < |s| && i != j
    ensures Annotate(s)[i] != Annotate(s)[j]
  {
  }

  /**
   * `calculate_frequencies(arr, size, result)`: for each index, store the
   * value, a frequency that starts at 1 and is bumped for every other index
   * holding the same value, and the index itself.
   */
  method CalculateFrequencies(arr: array<int>, size: nat, result: array<NumberInfo>)
    requires size <= arr.Length && size <= result.Length
    modifies result
    ensures result[..size] == Annotate(arr[..size])
    ensures result[size..] == old(result[size..])
  {
    ghost var s := arr[..size];
    for i := 0 to size
      invariant forall k :: 0 <= k < i ==> result[k] == NumberInfo(s[k], Count(s, s[k]), k)
      invariant result[size..] == old(result[size..])
    {
      result[i] := NumberInfo(arr[i], 1, i);
      for j := 0 to size
        invariant result[i].number == s[i] && result[i].originalPosition == i
        invariant result[i].frequency == 1 + Count(s[..j], s[i]) - (if i < j then 1 else 0)
        invariant forall k :: 0 <= k < i ==> result[k] == NumberInfo(s[k], Count(s, s[k]), k)
        invariant result[size..] == old(result[size..])
      {
        CountPrefix(s, j, s[i]);
        if j != i && arr[j] == arr[i] {
          result[i] := result[i].(frequency := result[i].frequency + 1);
        }
      }
      assert s[..size] == s;
    }
    assert forall k :: 0 <= k < size ==> Count(s, s[k]) == multiset(s)[s[k]] by {
      forall k | 0 <= k < size { CountIsMultiplicity(s, s[k]); }
    }
  }
}
