/** The Q31 Clarke and Park transforms and their inverses. */
module Motor {
  import opened Words
  import opened FixedPoint

  datatype Pair = Pair(first: Q31, second: Q31)

  /** The Q31 product, truncated by an arithmetic shift and then cast to 32 bits. */
  function MulShift(x: Q31, y: Q31, unit: int): Q31
    requires unit > 0
  {
    ToQ31(x * y / unit)
  }

  // ---------------------------------------------------------------- Clarke

  const INV_SQRT3: Q31 := 0x24F3_4E8B      // 1 / sqrt(3) in 2.30 format
  const TWO_INV_SQRT3: Q31 := 0x49E6_9D16  // 2 / sqrt(3) in 2.30 format
  const HALF: Q31 := 0x4000_0000           // 1 / 2 in 1.31 format
  const HALF_SQRT3: Q31 := 0x6ED9_EBA1     // sqrt(3) / 2 in 1.31 format

  /** Ialpha and Ibeta of the phases ia and ib. */
  function Clarke(ia: Q31, ib: Q31): Pair
  {
    var product1 := MulShift(ia, INV_SQRT3, 0x4000_0000);
    var product2 := MulShift(ib, TWO_INV_SQRT3, 0x4000_0000);
    Pair(ia, Qadd(product1, product2))
  }

  function InvClarke(alpha: Q31, beta: Q31): Pair
  {
    var product1 := MulShift(alpha, HALF, 0x8000_0000);
    var product2 := MulShift(beta, HALF_SQRT3, 0x8000_0000);
    Pair(alpha, Qsub(product2, product1))
  }

  function ClarkeThenInverse(ia: Q31, ib: Q31): Pair
  {
    var p := Clarke(ia, ib);
    InvClarke(p.first, p.second)
  }

  /** The largest magnitudes of the second phase whose product with 2 / sqrt(3) fits. */
  predicate BetaProductFits(ib: Q31)
  {
    -0x6ED9_EBA1 <= ib <= 0x6ED9_EBA1
  }

  lemma BetaProductFitsExactly(ib: Q31)
    ensures BetaProductFits(ib) <==> -0x8000_0000 <= ib * TWO_INV_SQRT3 / 0x4000_0000 < 0x8000_0000
  {
  }

  /** The second component before saturation, in exact arithmetic. */
  function BetaSum(ia: Q31, ib: Q31): int
  {
    ia * INV_SQRT3 / 0x4000_0000 + ib * TWO_INV_SQRT3 / 0x4000_0000
  }

  /** The second phase of the inverse before saturation. */
  function PhaseDifference(alpha: Q31, beta: Q31): int
  {
    beta * HALF_SQRT3 / 0x8000_0000 - alpha * HALF / 0x8000_0000
  }

  function Saturated(x: int): Q31
  {
    Clamp(x, -0x8000_0000, 0x7FFF_FFFF)
  }

  /** How much the saturating addition of the forward transform cuts off. */
  function Excess(ia: Q31, ib: Q31): int
  {
    BetaSum(ia, ib) - Saturated(BetaSum(ia, ib))
  }

  /** The transform for every input, down to the last bit: both products are rounded down, the
      second one is cut to its low 32 bits, and only the addition saturates. */
  lemma ClarkeExactly(ia: Q31, ib: Q31)
    ensures var p2 := ib * 0x49E6_9D16 / 0x4000_0000;
            var wrapped := if p2 >= 0x8000_0000 then p2 - 0x1_0000_0000
                           else if p2 < -0x8000_0000 then p2 + 0x1_0000_0000 else p2;
            Clarke(ia, ib) == Pair(ia, Clamp(ia * 0x24F3_4E8B / 0x4000_0000 + wrapped, -0x8000_0000, 0x7FFF_FFFF))
  {
    if BetaProductFits(ib) {
      ClarkeSaturatesOnce(ia, ib);
    } else {
      WrappedForward(ia, ib);
    }
  }

  lemma InvClarkeExactly(alpha: Q31, beta: Q31)
    ensures var sum := beta * 0x6ED9_EBA1 / 0x8000_0000 - alpha / 2;
            InvClarke(alpha, beta) == Pair(alpha, Clamp(sum, -0x8000_0000, 0x7FFF_FFFF))
  {
    InvClarkeSaturatesOnce(alpha, beta);
    DivUnique(alpha * 0x4000_0000, 0x8000_0000, alpha / 2, (alpha % 2) * 0x4000_0000);
  }

  /** The first product and both products of the inverse always fit in 32 bits. */
  lemma ClarkeSaturatesOnce(ia: Q31, ib: Q31)
    requires BetaProductFits(ib)
    ensures Clarke(ia, ib) == Pair(ia, Saturated(BetaSum(ia, ib)))
  {
  }

  lemma InvClarkeSaturatesOnce(alpha: Q31, beta: Q31)
    ensures InvClarke(alpha, beta) == Pair(alpha, Saturated(PhaseDifference(alpha, beta)))
  {
  }

  /** The error of the inverse before its own saturation, for any second component beta. */
  lemma UnsaturatedError(ia: Q31, ib: Q31, beta: Q31)
    ensures var error := PhaseDifference(ia, beta) - ib;
            && -5 * 0x8000_0000 < error * 0x8000_0000 + (BetaSum(ia, ib) - beta) * 0x6ED9_EBA1 < 3 * 0x8000_0000
            && (BetaSum(ia, ib) == beta ==> -3 <= error <= 1)
  {
  }

  /** Wherever the second product fits and the addition does not saturate, the inverse
      returns ia exactly, and ib with an error between -3 and 1. */
  lemma ClarkeRoundTrip(ia: Q31, ib: Q31)
    requires BetaProductFits(ib) && Excess(ia, ib) == 0
    ensures ClarkeThenInverse(ia, ib).first == ia
    ensures -3 <= ClarkeThenInverse(ia, ib).second - ib <= 1
  {
    var beta := Saturated(BetaSum(ia, ib));
    ClarkeSaturatesOnce(ia, ib);
    InvClarkeSaturatesOnce(ia, beta);
    UnsaturatedError(ia, ib, beta);
    ClampIsNearer(PhaseDifference(ia, beta), ib, -0x8000_0000, 0x7FFF_FFFF);
  }

  /** When the forward addition saturates, the inverse is short of ib by sqrt(3) / 2 times
      what was cut off. */
  lemma ClarkeSaturationLoss(ia: Q31, ib: Q31)
    requires BetaProductFits(ib)
    ensures var error := ClarkeThenInverse(ia, ib).second - ib;
            -5 * 0x8000_0000 < error * 0x8000_0000 + Excess(ia, ib) * 0x6ED9_EBA1 < 3 * 0x8000_0000
  {
    if Excess(ia, ib) == 0 {
      ClarkeRoundTrip(ia, ib);
    } else {
      var beta := Saturated(BetaSum(ia, ib));
      ClarkeSaturatesOnce(ia, ib);
      InvClarkeSaturatesOnce(ia, beta);
      UnsaturatedError(ia, ib, beta);
      RailInverseFits(ia, ib);
    }
  }

  /** The forward addition saturates only when both phases have the sign of the rail, and
      then the inverse does not saturate. */
  lemma RailInverseFits(ia: Q31, ib: Q31)
    requires BetaProductFits(ib) && Excess(ia, ib) != 0
    ensures var beta := Saturated(BetaSum(ia, ib));
            Saturated(PhaseDifference(ia, beta)) == PhaseDifference(ia, beta)
  {
  }

  lemma WrappedForward(ia: Q31, ib: Q31)
    requires !BetaProductFits(ib)
    ensures var wrap := if ib > 0 then -0x1_0000_0000 else 0x1_0000_0000;
            Clarke(ia, ib) == Pair(ia, Saturated(BetaSum(ia, ib) + wrap))
  {
    var p2 := ib * TWO_INV_SQRT3 / 0x4000_0000;
    assert if ib > 0 then 0x8000_0000 <= p2 < 0x1_0000_0000 else -0x1_0000_0000 < p2 < -0x8000_0000;
    CastWraps(p2);
    assert Clarke(ia, ib).second == Qadd(ia * INV_SQRT3 / 0x4000_0000, ToQ31(p2));
  }

  lemma CastWraps(x: int)
    ensures 0x8000_0000 <= x < 0x1_0000_0000 ==> ToQ31(x) == x - 0x1_0000_0000
    ensures -0x1_0000_0000 <= x < -0x8000_0000 ==> ToQ31(x) == x + 0x1_0000_0000
  {
  }

  /** A wrapped product leaves the inverse on the other side of zero. */
  lemma WrappedInverse(ia: Q31, p1: int, p2: int, beta: Q31)
    requires p1 == ia * INV_SQRT3 / 0x4000_0000 && beta == Saturated(p1 + p2)
    ensures p2 < -0x6000_0000 ==> PhaseDifference(ia, beta) < 0
    ensures p2 > 0x6000_0000 ==> PhaseDifference(ia, beta) > 0x1000_0000
  {
  }

  /** When the second product does not fit it wraps, and the result is off by full scale. */
  lemma ClarkeWrapLoss(ia: Q31, ib: Q31)
    requires !BetaProductFits(ib)
    ensures Abs(ClarkeThenInverse(ia, ib).second - ib) > 0x6ED9_EBA1
    ensures ClarkeThenInverse(ia, ib).second < 0 <==> ib > 0
  {
    var p1 := ia * INV_SQRT3 / 0x4000_0000;
    var wrap := if ib > 0 then -0x1_0000_0000 else 0x1_0000_0000;
    var beta := Saturated(BetaSum(ia, ib) + wrap);
    WrappedForward(ia, ib);
    WrappedInverse(ia, p1, ib * TWO_INV_SQRT3 / 0x4000_0000 + wrap, beta);
    InvClarkeSaturatesOnce(ia, beta);
  }

  /** The inverse of the two rails. */
  lemma RailPhases(ia: Q31)
    ensures PhaseDifference(ia, 0x7FFF_FFFF) == 0x6ED9_EBA0 - ia / 2
    ensures PhaseDifference(ia, -0x8000_0000) == -0x6ED9_EBA1 - ia / 2
  {
    assert 0x7FFF_FFFF * HALF_SQRT3 / 0x8000_0000 == 0x6ED9_EBA0;
    assert -0x8000_0000 * HALF_SQRT3 / 0x8000_0000 == -0x6ED9_EBA1;
    DivUnique(ia * 0x4000_0000, 0x8000_0000, ia / 2, (ia % 2) * 0x4000_0000);
  }

  /** Where the forward addition saturates, the error is known exactly. */
  lemma RailError(ia: Q31, ib: Q31)
    requires BetaProductFits(ib) && Excess(ia, ib) != 0
    ensures ClarkeThenInverse(ia, ib).second - ib ==
            (if Excess(ia, ib) > 0 then 0x6ED9_EBA0 else -0x6ED9_EBA1) - (ib + ia / 2)
  {
    var beta := Saturated(BetaSum(ia, ib));
    ClarkeSaturatesOnce(ia, ib);
    InvClarkeSaturatesOnce(ia, beta);
    RailInverseFits(ia, ib);
    RailPhases(ia);
    assert beta == if Excess(ia, ib) > 0 then 0x7FFF_FFFF else -0x8000_0000;
  }

  /** The sums ib + ia / 2 for which the round trip works, when they saturate or not. */
  lemma RailSums(ia: Q31, ib: Q31)
    requires BetaProductFits(ib)
    ensures Excess(ia, ib) == 0 ==> -0x6ED9_EBA4 <= ib + ia / 2 <= 0x6ED9_EBA3
    ensures Excess(ia, ib) > 0 ==> ib + ia / 2 >= 0x6ED9_EB9D
    ensures Excess(ia, ib) < 0 ==> ib + ia / 2 <= -0x6ED9_EB9E
  {
    UnsaturatedError(ia, ib, Saturated(BetaSum(ia, ib)));
  }

  /** The exact condition of the round trip, linear in the inputs: ib comes back within 3 if
      and only if the product fits and ib + ia / 2 is in the range of the inverse. */
  lemma ClarkeRoundTripExactly(ia: Q31, ib: Q31)
    ensures Abs(ClarkeThenInverse(ia, ib).second - ib) <= 3 <==>
            BetaProductFits(ib) && -0x6ED9_EBA4 <= ib + ia / 2 <= 0x6ED9_EBA3
  {
    if BetaProductFits(ib) {
      RailSums(ia, ib);
      if Excess(ia, ib) == 0 {
        ClarkeRoundTrip(ia, ib);
      } else {
        RailError(ia, ib);
      }
    } else {
      ClarkeWrapLoss(ia, ib);
    }
  }

  /** The only positive square root of three, to eleven digits. */
  lemma RootOfThree(r: real)
    requires r > 0.0 && r * r == 3.0
    ensures 1.73205080756 < r < 1.73205080757
  {
  }

  /** The documented transform Ibeta = Ia / sqrt(3) + 2 * Ib / sqrt(3): times the square root
      of three, the result is less than 6 below and less than 3 above Ia + 2 * Ib. */
  lemma ClarkeIsDocumented(ia: Q31, ib: Q31, alpha: Q31, beta: Q31, r: real)
    requires r > 0.0 && r * r == 3.0
    requires BetaProductFits(ib) && Excess(ia, ib) == 0
    requires Clarke(ia, ib) == Pair(alpha, beta)
    ensures alpha == ia
    ensures -6.0 < beta as real * r - (ia as real + 2.0 * ib as real) < 3.0
  {
    RootOfThree(r);
    ClarkeUnsaturated(ia, ib);
    SumIsDocumented(ia, ib, beta, r);
  }

  lemma ClarkeUnsaturated(ia: Q31, ib: Q31)
    requires BetaProductFits(ib) && Excess(ia, ib) == 0
    ensures Clarke(ia, ib) == Pair(ia, BetaSum(ia, ib))
  {
    ClarkeSaturatesOnce(ia, ib);
  }

  lemma SumIsDocumented(ia: Q31, ib: Q31, beta: Q31, r: real)
    requires 1.73205080756 < r < 1.73205080757 && beta == BetaSum(ia, ib)
    ensures -6.0 < beta as real * r - (ia as real + 2.0 * ib as real) < 3.0
  {
    var p1, p2 := ia * INV_SQRT3 / 0x4000_0000, ib * TWO_INV_SQRT3 / 0x4000_0000;
    assert beta as real == p1 as real + p2 as real;
    DocumentedParts(ia as real, ib as real, p1 as real, p2 as real, beta as real, r);
  }

  lemma DocumentedParts(ia: real, ib: real, p1: real, p2: real, beta: real, r: real)
    requires 1.73205080756 < r < 1.73205080757 && beta == p1 + p2
    requires -2147483648.0 <= beta <= 2147483648.0
    requires p1 * 1073741824.0 <= ia * 619925131.0 <= p1 * 1073741824.0 + 1073741824.0
    requires p2 * 1073741824.0 <= ib * 1239850262.0 <= p2 * 1073741824.0 + 1073741824.0
    ensures -6.0 < beta * r - (ia + 2.0 * ib) < 3.0
  {
    var d := r - 1.73205080756;
    SmallProduct(beta, d);
    assert beta * r == beta * 1.73205080756 + beta * d;
  }

  lemma SmallProduct(x: real, d: real)
    requires -2147483648.0 <= x <= 2147483648.0 && 0.0 <= d <= 0.00000000001
    ensures -0.03 <= x * d <= 0.03
  {
    var scaled := 2147483648.0 * d;
    NonNegativeProduct(x + 2147483648.0, d);
    NonNegativeProduct(2147483648.0 - x, d);
    assert (x + 2147483648.0) * d == x * d + scaled;
    assert (2147483648.0 - x) * d == scaled - x * d;
    assert scaled <= 0.03;
  }

  lemma NonNegativeProduct(x: real, y: real)
    requires x >= 0.0 && y >= 0.0
    ensures x * y >= 0.0
  {
  }

  // ---------------------------------------------------------------- Park

  /** Id and Iq of the two-phase vector (alpha, beta) for a rotor angle. */
  function Park(alpha: Q31, beta: Q31, sinVal: Q31, cosVal: Q31): Pair
  {
    var product1 := MulShift(alpha, cosVal, 0x8000_0000);
    var product2 := MulShift(beta, sinVal, 0x8000_0000);
    var product3 := MulShift(alpha, sinVal, 0x8000_0000);
    var product4 := MulShift(beta, cosVal, 0x8000_0000);
    Pair(Qadd(product1, product2), Qsub(product4, product3))
  }

  function InvPark(d: Q31, q: Q31, sinVal: Q31, cosVal: Q31): Pair
  {
    var product1 := MulShift(d, cosVal, 0x8000_0000);
    var product2 := MulShift(q, sinVal, 0x8000_0000);
    var product3 := MulShift(d, sinVal, 0x8000_0000);
    var product4 := MulShift(q, cosVal, 0x8000_0000);
    Pair(Qsub(product1, product2), Qadd(product4, product3))
  }

  /** The only Q31 product that does not fit is that of -1 with itself. */
  predicate ProductFits(x: Q31, y: Q31)
  {
    x != -0x8000_0000 || y != -0x8000_0000
  }

  lemma ProductFitsExactly(x: Q31, y: Q31)
    ensures ProductFits(x, y) <==> MulShift(x, y, 0x8000_0000) == x * y / 0x8000_0000
    ensures -0x8000_0000 <= x * y / 0x8000_0000 <= 0x8000_0000
    ensures !ProductFits(x, y) ==> MulShift(x, y, 0x8000_0000) == -0x8000_0000
  {
    ProductRange(x, y);
  }

  /** The Q31 product with its one wrap. */
  function WrappingProduct(x: Q31, y: Q31): (r: Q31)
    ensures r == if x == y == -0x8000_0000 then -0x8000_0000 else x * y / 0x8000_0000
  {
    ProductFitsExactly(x, y);
    MulShift(x, y, 0x8000_0000)
  }

  lemma ProductRange(x: Q31, y: Q31)
    ensures -0x4000_0000_0000_0000 <= x * y <= 0x4000_0000_0000_0000
    ensures x * y == 0x4000_0000_0000_0000 <==> !ProductFits(x, y)
  {
    var m: int := y;
    if m >= 0 {
      MulAtLeast(x, -0x8000_0000, m);
      MulAtLeast(0x7FFF_FFFF, x, m);
    } else {
      MulAtLeast(x, -0x8000_0000, -m);
      MulAtLeast(0x7FFF_FFFF, x, -m);
      assert x * -m == -(x * m);
      if x > -0x8000_0000 {
        MulAtLeast(x, -0x7FFF_FFFF, -m);
      }
    }
  }

  /** None of the four products of a transform wraps. */
  predicate RotationFits(x: Q31, y: Q31, sinVal: Q31, cosVal: Q31)
  {
    ProductFits(x, sinVal) && ProductFits(x, cosVal) && ProductFits(y, sinVal) && ProductFits(y, cosVal)
  }

  /** Neither component of the forward transform saturates. */
  predicate ParkUnsaturated(alpha: Q31, beta: Q31, sinVal: Q31, cosVal: Q31)
  {
    var one := 0x8000_0000;
    && -one <= alpha * cosVal / one + beta * sinVal / one < one
    && -one <= beta * cosVal / one - alpha * sinVal / one < one
  }

  /** For every input, after the four products, only the addition and the subtraction of the
      forward transform saturate. */
  lemma ParkExactly(alpha: Q31, beta: Q31, sinVal: Q31, cosVal: Q31)
    ensures var p := Park(alpha, beta, sinVal, cosVal);
            && p.first == Clamp(WrappingProduct(alpha, cosVal) + WrappingProduct(beta, sinVal),
                                -0x8000_0000, 0x7FFF_FFFF)
            && p.second == Clamp(WrappingProduct(beta, cosVal) - WrappingProduct(alpha, sinVal),
                                 -0x8000_0000, 0x7FFF_FFFF)
  {
  }

  lemma InvParkExactly(d: Q31, q: Q31, sinVal: Q31, cosVal: Q31)
    ensures var p := InvPark(d, q, sinVal, cosVal);
            && p.first == Clamp(WrappingProduct(d, cosVal) - WrappingProduct(q, sinVal), -0x8000_0000, 0x7FFF_FFFF)
            && p.second == Clamp(WrappingProduct(q, cosVal) + WrappingProduct(d, sinVal), -0x8000_0000, 0x7FFF_FFFF)
  {
  }

  /** Without a wrapped product the components are the sums of the rounded products, saturated. */
  lemma ParkSaturatesOnce(alpha: Q31, beta: Q31, sinVal: Q31, cosVal: Q31)
    requires RotationFits(alpha, beta, sinVal, cosVal)
    ensures var one, p := 0x8000_0000, Park(alpha, beta, sinVal, cosVal);
            && p.first == Clamp(alpha * cosVal / one + beta * sinVal / one, -one, one - 1)
            && p.second == Clamp(beta * cosVal / one - alpha * sinVal / one, -one, one - 1)
  {
    ProductFitsExactly(alpha, cosVal);
    ProductFitsExactly(beta, sinVal);
    ProductFitsExactly(alpha, sinVal);
    ProductFitsExactly(beta, cosVal);
  }

  lemma ParkWithoutLoss(alpha: Q31, beta: Q31, sinVal: Q31, cosVal: Q31)
    requires RotationFits(alpha, beta, sinVal, cosVal) && ParkUnsaturated(alpha, beta, sinVal, cosVal)
    ensures var one, p := 0x8000_0000, Park(alpha, beta, sinVal, cosVal);
            && p.first == alpha * cosVal / one + beta * sinVal / one
            && p.second == beta * cosVal / one - alpha * sinVal / one
  {
    ParkSaturatesOnce(alpha, beta, sinVal, cosVal);
  }

  /** These are the inputs for which the addition and the subtraction cut nothing off. */
  lemma ParkUnsaturatedExactly(alpha: Q31, beta: Q31, sinVal: Q31, cosVal: Q31)
    requires RotationFits(alpha, beta, sinVal, cosVal)
    ensures var one, p := 0x8000_0000, Park(alpha, beta, sinVal, cosVal);
            ParkUnsaturated(alpha, beta, sinVal, cosVal) <==>
            && p.first == alpha * cosVal / one + beta * sinVal / one
            && p.second == beta * cosVal / one - alpha * sinVal / one
  {
    ParkSaturatesOnce(alpha, beta, sinVal, cosVal);
  }

  /** The documented rotation: Id = alpha * cos + beta * sin and Iq = beta * cos - alpha * sin,
      with Id at most 2 below and Iq off by less than 1. */
  lemma ParkIsRotation(alpha: Q31, beta: Q31, sinVal: Q31, cosVal: Q31)
    requires RotationFits(alpha, beta, sinVal, cosVal) && ParkUnsaturated(alpha, beta, sinVal, cosVal)
    ensures var one, p := 0x8000_0000, Park(alpha, beta, sinVal, cosVal);
            && -2 * one < p.first * one - (alpha * cosVal + beta * sinVal) <= 0
            && -one < p.second * one - (beta * cosVal - alpha * sinVal) < one
  {
    ParkWithoutLoss(alpha, beta, sinVal, cosVal);
    DivBounds(alpha * cosVal, 0x8000_0000);
    DivBounds(beta * sinVal, 0x8000_0000);
    DivBounds(alpha * sinVal, 0x8000_0000);
    DivBounds(beta * cosVal, 0x8000_0000);
  }

  lemma InvParkSaturatesOnce(d: Q31, q: Q31, sinVal: Q31, cosVal: Q31)
    requires RotationFits(d, q, sinVal, cosVal)
    ensures var one, p := 0x8000_0000, InvPark(d, q, sinVal, cosVal);
            && p.first == Saturated(d * cosVal / one - q * sinVal / one)
            && p.second == Saturated(q * cosVal / one + d * sinVal / one)
  {
    ProductFitsExactly(d, cosVal);
    ProductFitsExactly(q, sinVal);
    ProductFitsExactly(d, sinVal);
    ProductFitsExactly(q, cosVal);
  }

  /** A product with a sine or cosine is no larger than the product with one. */
  lemma ScaledError(x: int, bound: int, w: int)
    requires -bound <= x <= bound && -0x8000_0000 <= w <= 0x8000_0000
    ensures -bound * 0x8000_0000 <= x * w <= bound * 0x8000_0000
  {
    AbsMul(x, w);
    MulLe(Abs(x), Abs(w), 0x8000_0000);
    MulAtLeast(bound, Abs(x), 0x8000_0000);
  }

  lemma AbsMul(x: int, y: int)
    ensures Abs(x * y) == Abs(x) * Abs(y)
  {
  }

  lemma Expand(x: int, y: int, s: int, c: int, d: int, q: int, one: int)
    ensures var dd, qq := d * one - (x * c + y * s), q * one - (y * c - x * s);
            (d * c - q * s) * one == x * (s * s + c * c) + dd * c - qq * s
  {
  }

  /** Turning (d, q) back recovers the component x, scaled by s^2 + c^2, with the errors of
      both rotated components added up. */
  lemma TurnBack(x: int, y: int, s: int, c: int, d: int, q: int, e: int, f: int)
    requires -0x8000_0000 <= s <= 0x8000_0000 && -0x8000_0000 <= c <= 0x8000_0000
    requires -e * 0x8000_0000 <= d * 0x8000_0000 - (x * c + y * s) <= e * 0x8000_0000
    requires -f * 0x8000_0000 <= q * 0x8000_0000 - (y * c - x * s) <= f * 0x8000_0000
    ensures Abs((d * c - q * s) * 0x8000_0000 - x * (s * s + c * c)) <= (e + f) * 0x4000_0000_0000_0000
  {
    var one := 0x8000_0000;
    ScaledError(d * one - (x * c + y * s), e * one, c);
    ScaledError(q * one - (y * c - x * s), f * one, s);
    Expand(x, y, s, c, d, q, one);
  }

  /** From the scaled error of a component before saturation to the error of the result. */
  lemma NearUnit(raw: int, scaled: int, x: Q31, norm: int, k: nat)
    requires Abs(scaled * 0x8000_0000 - x * norm) <= 3 * 0x4000_0000_0000_0000
    requires Abs(raw * 0x8000_0000 - scaled) <= k * 0x8000_0000
    ensures Abs(Saturated(raw) - x) * 0x4000_0000_0000_0000
            <= (3 + k) * 0x4000_0000_0000_0000 + Abs(norm - 0x4000_0000_0000_0000) * Abs(x)
  {
    ClampIsNearer(raw, x, -0x8000_0000, 0x7FFF_FFFF);
    var u := norm - 0x4000_0000_0000_0000;
    assert x * norm == x * u + x * 0x4000_0000_0000_0000;
    AbsMul(u, x);
  }

  /** For every vector and every sine and cosine: unless a product wraps or the forward
      transform saturates, turning there and back moves alpha by at most 4 and beta by at
      most 5, plus their magnitude times the relative error of sin^2 + cos^2. */
  lemma ParkRoundTrip(alpha: Q31, beta: Q31, sinVal: Q31, cosVal: Q31)
    requires RotationFits(alpha, beta, sinVal, cosVal) && ParkUnsaturated(alpha, beta, sinVal, cosVal)
    ensures var one, p := 0x4000_0000_0000_0000, Park(alpha, beta, sinVal, cosVal);
            var r := InvPark(p.first, p.second, sinVal, cosVal);
            var unitError := Abs(sinVal * sinVal + cosVal * cosVal - one);
            RotationFits(p.first, p.second, sinVal, cosVal) ==>
              && Abs(r.first - alpha) * one <= 4 * one + unitError * Abs(alpha)
              && Abs(r.second - beta) * one <= 5 * one + unitError * Abs(beta)
  {
    var p := Park(alpha, beta, sinVal, cosVal);
    ParkWithoutLoss(alpha, beta, sinVal, cosVal);
    if RotationFits(p.first, p.second, sinVal, cosVal) {
      RotateBack(alpha, beta, sinVal, cosVal, p.first, p.second);
    }
  }

  lemma RotateBack(alpha: Q31, beta: Q31, sinVal: Q31, cosVal: Q31, d: Q31, q: Q31)
    requires RotationFits(d, q, sinVal, cosVal)
    requires d == alpha * cosVal / 0x8000_0000 + beta * sinVal / 0x8000_0000
    requires q == beta * cosVal / 0x8000_0000 - alpha * sinVal / 0x8000_0000
    ensures var one, r := 0x4000_0000_0000_0000, InvPark(d, q, sinVal, cosVal);
            var unitError := Abs(sinVal * sinVal + cosVal * cosVal - one);
            && Abs(r.first - alpha) * one <= 4 * one + unitError * Abs(alpha)
            && Abs(r.second - beta) * one <= 5 * one + unitError * Abs(beta)
  {
    var norm := sinVal * sinVal + cosVal * cosVal;
    InvParkSaturatesOnce(d, q, sinVal, cosVal);
    ParkErrors(alpha, beta, sinVal, cosVal, d, q);
    var raw1 := d * cosVal / 0x8000_0000 - q * sinVal / 0x8000_0000;
    var raw2 := q * cosVal / 0x8000_0000 + d * sinVal / 0x8000_0000;
    NearUnit(raw1, d * cosVal - q * sinVal, alpha, norm, 1);
    NearUnit(raw2, q * cosVal + d * sinVal, beta, norm, 2);
  }

  lemma ParkErrors(alpha: Q31, beta: Q31, s: Q31, c: Q31, d: Q31, q: Q31)
    requires d == alpha * c / 0x8000_0000 + beta * s / 0x8000_0000
    requires q == beta * c / 0x8000_0000 - alpha * s / 0x8000_0000
    ensures Abs((d * c - q * s) * 0x8000_0000 - alpha * (s * s + c * c)) <= 3 * 0x4000_0000_0000_0000
    ensures Abs((q * c + d * s) * 0x8000_0000 - beta * (s * s + c * c)) <= 3 * 0x4000_0000_0000_0000
  {
    TurnBack(alpha, beta, s, c, d, q, 2, 1);
    var s': int := s;
    Negations(alpha, beta, s', d);
    TurnBack(beta, alpha, -s', c, q, d, 1, 2);
  }

  lemma Negations(alpha: int, beta: int, s: int, d: int)
    ensures alpha * -s == -(alpha * s) && beta * -s == -(beta * s)
    ensures d * -s == -(d * s) && -s * -s == s * s
  {
  }
}
