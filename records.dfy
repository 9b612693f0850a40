/**
 * The annotated record and the two comparison orders of the frequency sorter.
 *
 * A record pairs an input value with the number of times that value occurs in
 * the whole input and with its position in the input.  Two policies order
 * records: "value-freq" (value ascending, then frequency descending, then
 * position ascending) and "freq-value" (frequency descending, then value
 * ascending, then position ascending).
 */
module Records {

  /** One annotated input element (`NumberInfo` in the C program). */
  datatype NumberInfo = NumberInfo(number: int, frequency: int, originalPosition: int)

  /** The two comparators the program can sort with. */
  datatype Policy = ValueFreq | FreqValue

  /**
   * The comparator, as `compare_value_freq` and `compare_freq_value` compute
   * it: the difference of the first key on which the records differ, with the
   * frequency difference taken the other way round so that higher frequencies
   * come first.  Integers are mathematical here; see `Compare32` for the
   * 32-bit version.
   */
  function Compare(p: Policy, a: NumberInfo, b: NumberInfo): (r: int)
    ensures r == 0 <==> a == b
  {
    match p
    case ValueFreq =>
      if a.number != b.number then a.number - b.number
      else if a.frequency != b.frequency then b.frequency - a.frequency
      else a.originalPosition - b.originalPosition
    case FreqValue =>
      if a.frequency != b.frequency then b.frequency - a.frequency
      else if a.number != b.number then a.number - b.number
      else a.originalPosition - b.originalPosition
  }

  /** "a may come before b": the comparator's `<= 0`, which every sorter tests. */
  ghost predicate Leq(p: Policy, a: NumberInfo, b: NumberInfo) {
    Compare(p, a, b) <= 0
  }

  // ---------------------------------------------------------------------
  // An independent description of the two orders: a sort key per policy,
  // compared lexicographically.

  datatype Triple = Triple(k1: int, k2: int, k3: int)

  /** The sort key of a record under a policy; frequency is negated since it sorts descending. */
  function Key(p: Policy, a: NumberInfo): Triple {
    match p
    case ValueFreq => Triple(a.number, -a.frequency, a.originalPosition)
    case FreqValue => Triple(-a.frequency, a.number, a.originalPosition)
  }

  /** Strict lexicographic order on keys. */
  predicate LexLess(x: Triple, y: Triple) {
    x.k1 < y.k1 || (x.k1 == y.k1 && (x.k2 < y.k2 || (x.k2 == y.k2 && x.k3 < y.k3)))
  }

  /** The comparator says "less" exactly when the first record's key is lexicographically smaller. */
  lemma CompareIsKeyOrder(p: Policy, a: NumberInfo, b: NumberInfo)
    ensures Compare(p, a, b) < 0 <==> LexLess(Key(p, a), Key(p, b))
    ensures Compare(p, a, b) > 0 <==> LexLess(Key(p, b), Key(p, a))
  {
  }

  // ---------------------------------------------------------------------
  // The comparator is a total order, which every sorter relies on.

  /** Swapping the arguments negates the comparison. */
  lemma CompareAntisymmetric(p: Policy, a: NumberInfo, b: NumberInfo)
    ensures Compare(p, a, b) == -Compare(p, b, a)
  {
  }

  /** Two records that may each come before the other are the same record. */
  lemma LeqAntisymmetric(p: Policy, a: NumberInfo, b: NumberInfo)
    requires Leq(p, a, b) && Leq(p, b, a)
    ensures a == b
  {
    CompareAntisymmetric(p, a, b);
  }

  /** Any two records are ordered one way or the other. */
  lemma LeqTotal(p: Policy, a: NumberInfo, b: NumberInfo)
    ensures Leq(p, a, b) || Leq(p, b, a)
  {
    CompareAntisymmetric(p, a, b);
  }

  /** The comparator's `<= 0` is transitive. */
  lemma LeqTransitive(p: Policy, a: NumberInfo, b: NumberInfo, c: NumberInfo)
    requires Leq(p, a, b) && Leq(p, b, c)
    ensures Leq(p, a, c)
  {
  }

  // ---------------------------------------------------------------------
  // The comparators as written, on 32-bit `int`.

  const TwoTo31: int := 0x8000_0000
  const TwoTo32: int := 0x1_0000_0000

  /** A C `int` value. */
  predicate IsInt32(x: int) {
    -TwoTo31 <= x < TwoTo31
  }

  /** The 32-bit two's-complement wrap-around a C subtraction undergoes on the usual targets. */
  function Wrap32(x: int): (r: int)
    ensures IsInt32(r)
    ensures (r - x) % TwoTo32 == 0
    ensures IsInt32(x) ==> r == x
  {
    (x + TwoTo31) % TwoTo32 - TwoTo31
  }

  /** The comparators with each subtraction wrapped to 32 bits, as the C code computes them. */
  function Compare32(p: Policy, a: NumberInfo, b: NumberInfo): (r: int)
    ensures IsInt32(r)
    ensures r == Wrap32(Compare(p, a, b))
  {
    match p
    case ValueFreq =>
      if a.number != b.number then Wrap32(a.number - b.number)
      else if a.frequency != b.frequency then Wrap32(b.frequency - a.frequency)
      else Wrap32(a.originalPosition - b.originalPosition)
    case FreqValue =>
      if a.frequency != b.frequency then Wrap32(b.frequency - a.frequency)
      else if a.number != b.number then Wrap32(a.number - b.number)
      else Wrap32(a.originalPosition - b.originalPosition)
  }

  /**
   * With the values INT_MIN, 0 and 1 the 32-bit comparator is not transitive:
   * it puts INT_MIN before 0 and 0 before 1, but 1 before INT_MIN.
   */
  lemma Compare32NotTransitive()
    ensures var a, b, c := NumberInfo(-TwoTo31, 1, 0), NumberInfo(0, 1, 1), NumberInfo(1, 1, 2);
      && IsInt32(a.number) && IsInt32(c.number)
      && Compare32(ValueFreq, a, b) < 0
      && Compare32(ValueFreq, b, c) < 0
      && Compare32(ValueFreq, a, c) > 0
      && Compare(ValueFreq, a, c) < 0
  {
  }

  /** Whenever the keys' differences fit in an `int`, the 32-bit comparator agrees with `Compare`. */
  lemma Compare32AgreesWhenNoOverflow(p: Policy, a: NumberInfo, b: NumberInfo)
    requires IsInt32(a.number - b.number)
    requires IsInt32(b.frequency - a.frequency)
    requires IsInt32(a.originalPosition - b.originalPosition)
    ensures Compare32(p, a, b) == Compare(p, a, b)
  {
  }
}
