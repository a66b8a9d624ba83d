/** The quorum fraction and the weight it requires. */
module Threshold {
  import opened Ints

  datatype Fraction = Fraction(numerator: u64, denominator: u64)

  /** A stored threshold has passed `Check`: it is above 0 and at most 1. */
  type Threshold = f: Fraction | 0 < f.numerator <= f.denominator witness Fraction(1, 1)

  datatype SecurityError = ZeroDenominator | NumeratorExceedsDenominator | ZeroNumerator | ZeroWeight

  /** The checks made by the constructor and by `set_threshold`, in their order. */
  function Check(numerator: u64, denominator: u64): Option<SecurityError> {
    if denominator == 0 then Some(ZeroDenominator)
    else if numerator == 0 then Some(ZeroNumerator)
    else if numerator > denominator then Some(NumeratorExceedsDenominator)
    else None
  }

  /** Exactly the fractions above 0 and at most 1 pass; each error has its own condition. */
  lemma CheckExactly(numerator: u64, denominator: u64)
    ensures var e := Check(numerator, denominator);
      && (e.None? <==> 0 < numerator <= denominator)
      && (e == Some(ZeroDenominator) <==> denominator == 0)
      && (e == Some(ZeroNumerator) <==> denominator > 0 == numerator)
      && (e == Some(NumeratorExceedsDenominator) <==> 0 < denominator < numerator)
  {
  }

  function Div(a: nat, d: nat): nat
    requires d > 0
  {
    a / d
  }

  function Times(a: nat, b: nat): nat {
    a * b
  }

  /** The floor of total * numerator / denominator. */
  function Floor(total: nat, th: Threshold): nat
  {
    Div(Times(total, th.numerator), th.denominator)
  }

  lemma ProductFits(a: u64, b: u64)
    ensures Times(a, b) <= U128_MAX
  {
    assert a * b <= U64_MAX * U64_MAX by {
      assert a * b <= a * U64_MAX <= U64_MAX * U64_MAX;
    }
  }

  /** The code's arithmetic: multiply in 128 bits, divide, cast back to 64 bits. */
  function RequiredWeight(total: u64, th: Threshold): u64
  {
    ProductFits(total, th.numerator);
    var product: u128 := Times(total, th.numerator);
    Div(product, th.denominator) % (U64_MAX + 1)
  }

  // ---------------------------------------------------------------- division

  lemma LessFromTimes(a: nat, b: nat, d: nat)
    requires a * d < b * d
    ensures a < b
  {
    assert b <= a ==> b * d <= a * d;
  }

  lemma DivBounds(a: nat, d: nat)
    requires d > 0
    ensures Div(a, d) * d <= a < (Div(a, d) + 1) * d
  {
    assert a == a / d * d + a % d;
    assert (a / d + 1) * d == a / d * d + d;
  }

  lemma DivUnique(a: nat, d: nat, q: nat)
    requires d > 0 && q * d <= a < (q + 1) * d
    ensures Div(a, d) == q
  {
    DivBounds(a, d);
    LessFromTimes(q, Div(a, d) + 1, d);
    LessFromTimes(Div(a, d), q + 1, d);
  }

  lemma DivMonotone(a: nat, b: nat, d: nat)
    requires d > 0 && a <= b
    ensures Div(a, d) <= Div(b, d)
  {
    DivBounds(a, d);
    DivBounds(b, d);
    LessFromTimes(Div(a, d), Div(b, d) + 1, d);
  }

  // ---------------------------------------------------------------- what it means

  lemma FloorIsMonotone(a: nat, b: nat, th: Threshold)
    requires a <= b
    ensures Floor(a, th) <= Floor(b, th)
  {
    assert Times(a, th.numerator) <= Times(b, th.numerator);
    DivMonotone(Times(a, th.numerator), Times(b, th.numerator), th.denominator);
  }

  lemma NothingRequiresNothing(th: Threshold)
    ensures RequiredWeight(0, th) == 0
  {
    DivUnique(0, th.denominator, 0);
  }

  lemma FloorAtMostTotal(total: nat, th: Threshold)
    ensures Floor(total, th) <= total
  {
    assert Times(total, th.numerator) <= total * th.denominator;
    DivMonotone(Times(total, th.numerator), total * th.denominator, th.denominator);
    assert total * th.denominator < (total + 1) * th.denominator;
    DivUnique(total * th.denominator, th.denominator, total);
  }

  /** The cast loses nothing: the result is the exact floor,
      pinned between its two neighbours, and never exceeds the total. */
  lemma RequiredWeightIsFloor(total: u64, th: Threshold)
    ensures var q := RequiredWeight(total, th);
      && q == Floor(total, th)
      && q * th.denominator <= total * th.numerator < (q + 1) * th.denominator
      && q <= total
      && (q == 0 <==> total * th.numerator < th.denominator)
  {
    var product := Times(total, th.numerator);
    FloorAtMostTotal(total, th);
    DivBounds(product, th.denominator);
    if product < th.denominator {
      DivUnique(product, th.denominator, 0);
    }
  }
}
