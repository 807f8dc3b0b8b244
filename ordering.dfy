/**
 * types.go: `compareOrdered` over Go's `ordered` types, and the meaning of
 * Go's `<` on the three families of ordered types: integers, floats and
 * strings.
 */
module Ordering {
  import opened GoTypes

  /**
   * compareOrdered: -1 when a < b, 1 when a > b, 0 otherwise. Go's `a > b`
   * on an ordered type is `b < a`, so the one relation `less` is enough.
   */
  function CompareOrdered<T>(less: (T, T) -> bool, a: T, b: T): (r: int)
    ensures r in {-1, 0, 1}
    ensures r == -1 <==> less(a, b)
    ensures r == 1 <==> !less(a, b) && less(b, a)
    ensures r == 0 <==> !less(a, b) && !less(b, a)
  {
    if less(a, b) then -1
    else if less(b, a) then 1
    else 0
  }

  // ----- integers -----

  function IntLess(a: int, b: int): bool { a < b }

  lemma IntCompareTotal(a: int, b: int)
    ensures CompareOrdered(IntLess, a, b) == -CompareOrdered(IntLess, b, a)
    ensures CompareOrdered(IntLess, a, b) == 0 <==> a == b
  {
  }

  // ----- floats -----

  /** A float64 value, abstracted to the kinds `NewCapacity` and `<` tell apart. */
  datatype Float = Finite(r: real) | NaN | PosInf | NegInf

  /** Go's `<` on floats: IEEE 754 ordering, every comparison with NaN false. */
  function FloatLess(a: Float, b: Float): bool {
    match (a, b)
    case (NaN, _) => false
    case (_, NaN) => false
    case (Finite(x), Finite(y)) => x < y
    case (NegInf, _) => !b.NegInf?
    case (_, PosInf) => !a.PosInf?
    case (_, _) => false
  }

  lemma FloatCompareTotal(a: Float, b: Float)
    requires !a.NaN? && !b.NaN?
    ensures CompareOrdered(FloatLess, a, b) == -CompareOrdered(FloatLess, b, a)
    ensures CompareOrdered(FloatLess, a, b) == 0 <==> a == b
  {
  }

  /** NaN is unordered: compareOrdered reports it equal to every value. */
  lemma FloatCompareNaN(b: Float)
    ensures CompareOrdered(FloatLess, NaN, b) == 0
    ensures CompareOrdered(FloatLess, b, NaN) == 0
  {
  }

  // ----- strings -----

  /** Go's `<` on strings: lexicographic on the bytes; a proper prefix is smaller. */
  function BytesLess(a: seq<byte>, b: seq<byte>): bool
    decreases |a|
  {
    if |a| == 0 then |b| > 0
    else if |b| == 0 then false
    else if a[0] != b[0] then a[0] < b[0]
    else BytesLess(a[1..], b[1..])
  }

  function CompareBytes(a: seq<byte>, b: seq<byte>): (r: int)
    ensures r in {-1, 0, 1}
  {
    CompareOrdered(BytesLess, a, b)
  }

  lemma {:induction false} BytesLessIrreflexive(a: seq<byte>)
    ensures !BytesLess(a, a)
    decreases |a|
  {
    if |a| > 0 {
      BytesLessIrreflexive(a[1..]);
    }
  }

  lemma {:induction false} BytesLessAsymmetric(a: seq<byte>, b: seq<byte>)
    requires BytesLess(a, b)
    ensures !BytesLess(b, a)
    decreases |a|
  {
    if |a| > 0 && |b| > 0 && a[0] == b[0] {
      BytesLessAsymmetric(a[1..], b[1..]);
    }
  }

  lemma {:induction false} BytesLessTransitive(a: seq<byte>, b: seq<byte>, c: seq<byte>)
    requires BytesLess(a, b) && BytesLess(b, c)
    ensures BytesLess(a, c)
    decreases |a|
  {
    if |a| > 0 && a[0] == b[0] && b[0] == c[0] {
      BytesLessTransitive(a[1..], b[1..], c[1..]);
    }
  }

  lemma {:induction false} BytesLessTrichotomy(a: seq<byte>, b: seq<byte>)
    requires a != b
    ensures BytesLess(a, b) || BytesLess(b, a)
    decreases |a|
  {
    if |a| > 0 && |b| > 0 && a[0] == b[0] {
      assert a == [a[0]] + a[1..] && b == [b[0]] + b[1..];
      BytesLessTrichotomy(a[1..], b[1..]);
    }
  }

  /** On strings compareOrdered is antisymmetric and is zero exactly on equal strings. */
  lemma CompareBytesTotal(a: seq<byte>, b: seq<byte>)
    ensures CompareBytes(a, b) == -CompareBytes(b, a)
    ensures CompareBytes(a, b) == 0 <==> a == b
  {
    if a == b {
      BytesLessIrreflexive(a);
    } else {
      BytesLessTrichotomy(a, b);
      if BytesLess(a, b) { BytesLessAsymmetric(a, b); } else { BytesLessAsymmetric(b, a); }
    }
  }

  lemma CompareBytesTransitive(a: seq<byte>, b: seq<byte>, c: seq<byte>)
    requires CompareBytes(a, b) > 0 && CompareBytes(b, c) > 0
    ensures CompareBytes(a, c) > 0
  {
    BytesLessTransitive(c, b, a);
    BytesLessAsymmetric(c, a);
  }

  lemma CompareBytesNonPositiveTransitive(a: seq<byte>, b: seq<byte>, c: seq<byte>)
    requires CompareBytes(a, b) <= 0 && CompareBytes(b, c) <= 0
    ensures CompareBytes(a, c) <= 0
  {
    if BytesLess(a, b) { BytesLessAsymmetric(a, b); }
    if BytesLess(b, c) { BytesLessAsymmetric(b, c); }
    if BytesLess(c, a) && a != b {
      BytesLessTrichotomy(a, b);
      BytesLessTransitive(c, a, b);
    }
  }
}
