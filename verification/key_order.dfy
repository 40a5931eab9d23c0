/** Primary-key tuples and the lexicographic comparison the scan ranks rows by. */
module KeyOrder {

  /** The values of a row's primary-key columns, in the declared key order. */
  type Key = seq<int>

  /** Lexicographic comparison, column by column: -1 when `a` sorts first, 0 when
      the tuples are equal, +1 when `b` sorts first. A proper prefix sorts first. */
  function Compare(a: Key, b: Key): (c: int)
    ensures c == -1 || c == 0 || c == 1
  {
    if a == [] && b == [] then 0
    else if a == [] then -1
    else if b == [] then 1
    else if a[0] < b[0] then -1
    else if a[0] > b[0] then 1
    else Compare(a[1..], b[1..])
  }

  /** `a` sorts strictly before `b`. */
  predicate Less(a: Key, b: Key) {
    Compare(a, b) == -1
  }

  /** `a` sorts before `b` or equals it. */
  predicate LessEq(a: Key, b: Key) {
    Compare(a, b) != 1
  }

  /** Comparison reports 0 exactly for equal tuples. */
  lemma {:induction false} CompareZeroIffEqual(a: Key, b: Key)
    ensures Compare(a, b) == 0 <==> a == b
  {
    if a != [] && b != [] && a[0] == b[0] {
      CompareZeroIffEqual(a[1..], b[1..]);
      assert a == [a[0]] + a[1..];
      assert b == [b[0]] + b[1..];
      if a[1..] == b[1..] {
        assert a == b;
      }
    }
  }

  /** Swapping the arguments negates the comparison. */
  lemma {:induction false} CompareAntisymmetric(a: Key, b: Key)
    ensures Compare(b, a) == -Compare(a, b)
  {
    if a != [] && b != [] && a[0] == b[0] {
      CompareAntisymmetric(a[1..], b[1..]);
    }
  }

  /** `LessEq` is transitive. */
  lemma {:induction false} LessEqTransitive(a: Key, b: Key, c: Key)
    requires LessEq(a, b) && LessEq(b, c)
    ensures LessEq(a, c)
  {
    if a != [] && b != [] && c != [] && a[0] == b[0] && b[0] == c[0] {
      LessEqTransitive(a[1..], b[1..], c[1..]);
    }
  }

  /** A strict step followed by a weak one is strict. */
  lemma LessThenLessEq(a: Key, b: Key, c: Key)
    requires Less(a, b) && LessEq(b, c)
    ensures Less(a, c)
  {
    LessEqTransitive(a, b, c);
    CompareZeroIffEqual(a, c);
    if a == c {
      CompareAntisymmetric(a, b);
    }
  }

  /** Two tuples in strict order are different tuples. */
  lemma LessImpliesNotEqual(a: Key, b: Key)
    requires Less(a, b)
    ensures a != b
  {
    CompareZeroIffEqual(a, b);
  }

  /** Comparison agrees with the first column at which two tuples differ. */
  lemma {:induction false} CompareAtFirstDifference(a: Key, b: Key, i: nat)
    requires i < |a| && i < |b|
    requires a[..i] == b[..i] && a[i] != b[i]
    ensures Compare(a, b) == (if a[i] < b[i] then -1 else 1)
  {
    if i > 0 {
      assert a[0] == a[..i][0] == b[..i][0] == b[0];
      assert a[1..][..i - 1] == a[..i][1..] == b[..i][1..] == b[1..][..i - 1];
      CompareAtFirstDifference(a[1..], b[1..], i - 1);
    }
  }

  /** A proper prefix sorts before the tuple it is a prefix of. */
  lemma {:induction false} ComparePrefix(a: Key, b: Key)
    requires |a| < |b| && a == b[..|a|]
    ensures Compare(a, b) == -1
  {
    if a != [] {
      assert a[1..] == b[1..][..|a| - 1];
      ComparePrefix(a[1..], b[1..]);
    }
  }
}
