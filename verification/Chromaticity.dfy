/** The conversions between chromaticities (cHRM) and CIE XYZ end points in
    png.c, with every 32-bit signed operation explicit. The comments there claim
    that overflow is impossible; here that is a theorem over all inputs. */
module Chromaticity {
  import opened Arithmetic
  import opened FixedPoint

  datatype Xy = Xy(
    redx: int32, redy: int32,
    greenx: int32, greeny: int32,
    bluex: int32, bluey: int32,
    whitex: int32, whitey: int32)

  datatype XYZ = XYZ(
    redX: int32, redY: int32, redZ: int32,
    greenX: int32, greenY: int32, greenZ: int32,
    blueX: int32, blueY: int32, blueZ: int32)

  /** Return code 0 with a value, return code 1, return code 2 ("internal
      error"), or a signed 32-bit overflow, which C leaves undefined. */
  datatype Outcome<+T> = Done(value: T) | Rejected | Internal | Undefined {
    predicate IsFailure() {
      !Done?
    }
    function PropagateFailure<U>(): Outcome<U>
      requires !Done?
    {
      match this
      case Rejected => Rejected
      case Internal => Internal
      case Undefined => Undefined
    }
    function Extract(): T
      requires Done?
    {
      value
    }
    /** Return code 0 or 1. */
    predicate Clean() {
      Done? || Rejected?
    }
  }

  function OrRejected(r: Option<int32>): Outcome<int32> {
    if r.Some? then Done(r.value) else Rejected
  }

  function OrInternal(r: Option<int32>): Outcome<int32> {
    if r.Some? then Done(r.value) else Internal
  }

  function Minus(a: int32, b: int32): Outcome<int32> {
    var d: int := a as int - b as int;
    if FitsInt32(d) then Done(d) else Undefined
  }

  function Plus(a: int32, b: int32): Outcome<int32> {
    var s: int := a as int + b as int;
    if FitsInt32(s) then Done(s) else Undefined
  }

  predicate InSimplex(x: int, y: int) {
    0 <= x <= FP_1 && 0 <= y <= FP_1 - x
  }

  /** The argument check of png_XYZ_from_xy. */
  predicate Acceptable(xy: Xy) {
    && InSimplex(xy.redx, xy.redy)
    && InSimplex(xy.greenx, xy.greeny)
    && InSimplex(xy.bluex, xy.bluey)
    && InSimplex(xy.whitex, xy.whitey)
    && xy.whitey >= 5
  }

  /** (a*b)/7 - (c*d)/7 as the source computes it. */
  function ScaledDeterminant(a: int32, b: int32, c: int32, d: int32): Outcome<int32> {
    var left :- OrInternal(MulDiv(a, b, 7));
    var right :- OrInternal(MulDiv(c, d, 7));
    Minus(left, right)
  }

  /** whitey * denominator / numerator, which must exceed whitey. */
  function InverseScale(whitey: int32, denominator: int32, numerator: int32): Outcome<int32> {
    var inverse :- OrRejected(MulDiv(whitey, denominator, numerator));
    if inverse <= whitey then Rejected else Done(inverse)
  }

  function RedInverse(xy: Xy, denominator: int32): Outcome<int32>
    requires Acceptable(xy)
  {
    var numerator :- ScaledDeterminant(xy.greenx - xy.bluex, xy.whitey - xy.bluey,
                                       xy.greeny - xy.bluey, xy.whitex - xy.bluex);
    InverseScale(xy.whitey, denominator, numerator)
  }

  function GreenInverse(xy: Xy, denominator: int32): Outcome<int32>
    requires Acceptable(xy)
  {
    var numerator :- ScaledDeterminant(xy.redy - xy.bluey, xy.whitex - xy.bluex,
                                       xy.redx - xy.bluex, xy.whitey - xy.bluey);
    InverseScale(xy.whitey, denominator, numerator)
  }

  function BlueScale(whitey: int32, redInverse: int32, greenInverse: int32): Outcome<int32> {
    var partial :- Minus(Reciprocal(whitey), Reciprocal(redInverse));
    var scale :- Minus(partial, Reciprocal(greenInverse));
    if scale <= 0 then Rejected else Done(scale)
  }

  /** One end point: its three chromaticities times times/divisor. */
  function EndPoint(x: int32, y: int32, times: int32, divisor: int32)
    : Outcome<(int32, int32, int32)>
    requires InSimplex(x, y)
  {
    var X :- OrRejected(MulDiv(x, times, divisor));
    var Y :- OrRejected(MulDiv(y, times, divisor));
    var Z :- OrRejected(MulDiv(FP_1 - x - y, times, divisor));
    Done((X, Y, Z))
  }

  /** The blue scale and the nine results, once the two inverses are known. */
  function Assemble(xy: Xy, redInverse: int32, greenInverse: int32): Outcome<XYZ>
    requires Acceptable(xy)
  {
    var blueScale :- BlueScale(xy.whitey, redInverse, greenInverse);
    var red :- EndPoint(xy.redx, xy.redy, FP_1, redInverse);
    var green :- EndPoint(xy.greenx, xy.greeny, FP_1, greenInverse);
    var blue :- EndPoint(xy.bluex, xy.bluey, blueScale, FP_1);
    Done(XYZ(red.0, red.1, red.2, green.0, green.1, green.2, blue.0, blue.1, blue.2))
  }

  /** png_XYZ_from_xy */
  function XyzFromXy(xy: Xy): Outcome<XYZ> {
    if !Acceptable(xy) then Rejected
    else
      var denominator :- ScaledDeterminant(xy.greenx - xy.bluex, xy.redy - xy.bluey,
                                           xy.greeny - xy.bluey, xy.redx - xy.bluex);
      var redInverse :- RedInverse(xy, denominator);
      var greenInverse :- GreenInverse(xy, denominator);
      Assemble(xy, redInverse, greenInverse)
  }

  function Sum3(a: int32, b: int32, c: int32): Outcome<int32> {
    var ab :- Plus(a, b);
    Plus(ab, c)
  }

  /** png_xy_from_XYZ */
  function XyFromXyz(z: XYZ): Outcome<Xy> {
    var dred :- Sum3(z.redX, z.redY, z.redZ);
    var redx :- OrRejected(MulDiv(z.redX, FP_1, dred));
    var redy :- OrRejected(MulDiv(z.redY, FP_1, dred));
    var dgreen :- Sum3(z.greenX, z.greenY, z.greenZ);
    var greenx :- OrRejected(MulDiv(z.greenX, FP_1, dgreen));
    var greeny :- OrRejected(MulDiv(z.greenY, FP_1, dgreen));
    var dwhite2 :- Plus(dred, dgreen);
    var whiteX2 :- Plus(z.redX, z.greenX);
    var whiteY2 :- Plus(z.redY, z.greenY);
    var dblue :- Sum3(z.blueX, z.blueY, z.blueZ);
    var bluex :- OrRejected(MulDiv(z.blueX, FP_1, dblue));
    var bluey :- OrRejected(MulDiv(z.blueY, FP_1, dblue));
    var dwhite :- Plus(dwhite2, dblue);
    var whiteX :- Plus(whiteX2, z.blueX);
    var whiteY :- Plus(whiteY2, z.blueY);
    var whitex :- OrRejected(MulDiv(whiteX, FP_1, dwhite));
    var whitey :- OrRejected(MulDiv(whiteY, FP_1, dwhite));
    Done(Xy(redx, redy, greenx, greeny, bluex, bluey, whitex, whitey))
  }

  /** !PNG_OUT_OF_RANGE */
  predicate Within(value: int32, ideal: int32, delta: nat) {
    ideal - delta <= value <= ideal + delta
  }

  /** png_colorspace_endpoints_match */
  predicate EndpointsMatch(a: Xy, b: Xy, delta: nat) {
    && Within(a.whitex, b.whitex, delta) && Within(a.whitey, b.whitey, delta)
    && Within(a.redx, b.redx, delta) && Within(a.redy, b.redy, delta)
    && Within(a.greenx, b.greenx, delta) && Within(a.greeny, b.greeny, delta)
    && Within(a.bluex, b.bluex, delta) && Within(a.bluey, b.bluey, delta)
  }

  /** png_colorspace_check_xy */
  function CheckXy(xy: Xy): Outcome<XYZ> {
    var z :- XyzFromXy(xy);
    var test :- XyFromXyz(z);
    if EndpointsMatch(xy, test, 5) then Done(z) else Rejected
  }

  // ---------------------------------------------------------------- overflow freedom

  /** Twice the signed area of a triangle inside the chromaticity simplex is at
      most the area of the square around it: the determinant is affine in one
      point, so it is bounded by its values at the three corners. */
  lemma DeterminantBound(px: int, py: int, qx: int, qy: int, rx: int, ry: int)
    requires InSimplex(px, py) && InSimplex(qx, qy) && InSimplex(rx, ry)
    ensures -10000000000 <= (qx - rx) * (py - ry) - (qy - ry) * (px - rx) <= 10000000000
  {
    var S := 100000;
    var d0 := qy * rx - qx * ry;
    var d1 := ry * (S - qx) - qy * (S - rx);
    var d2 := qx * (S - ry) - rx * (S - qy);
    MulMono(qy, S, rx, S); MulMono(qx, S, ry, S);
    MulMono(ry, S, S - qx, S); MulMono(qy, S, S - rx, S);
    MulMono(qx, S, S - ry, S); MulMono(rx, S, S - qy, S);
    var d := (qx - rx) * (py - ry) - (qy - ry) * (px - rx);
    DeterminantForm(px, py, qx, qy, rx, ry);
    assert d1 == S * (ry - qy) + d0 && d2 == S * (qx - rx) + d0;
    Barycentric(px, py, ry - qy, qx - rx, d0);
    WeightBound(px, d1, S * S); WeightBound(py, d2, S * S); WeightBound(S - px - py, d0, S * S);
    assert px * (S * S) + py * (S * S) + (S - px - py) * (S * S) == S * (S * S);
  }

  lemma WeightBound(w: nat, d: int, m: nat)
    requires -(m as int) <= d <= m
    ensures -(w * m) <= w * d <= w * m
  {
  }

  lemma DeterminantForm(px: int, py: int, qx: int, qy: int, rx: int, ry: int)
    ensures (qx - rx) * (py - ry) - (qy - ry) * (px - rx)
         == px * (ry - qy) + py * (qx - rx) + (qy * rx - qx * ry)
  {
  }

  lemma Barycentric(px: int, py: int, u: int, v: int, d: int)
    ensures 100000 * (px * u + py * v + d)
         == px * (100000 * u + d) + py * (100000 * v + d) + (100000 - px - py) * d
  {
  }

  /** Dividing a product of differences by 7 always fits, within 4/7 of exact. */
  lemma Seventh(a: int32, b: int32)
    requires -FP_1 <= a <= FP_1 && -FP_1 <= b <= FP_1
    ensures MulDiv(a, b, 7).Some?
    ensures -4 <= 7 * MulDiv(a, b, 7).value as int - a * b <= 4
  {
    MulMono(Magnitude(a), 100000, Magnitude(b), 100000);
    var p := Magnitude(a) * Magnitude(b);
    SeventhOfMagnitude(p);
    SignedProduct(a, b);
    MulDivSigned(a, b, 7, p);
  }

  lemma SeventhOfMagnitude(p: nat)
    requires p <= 10000000000
    ensures -4 <= 7 * Rounded(p, 7) - p <= 4
    ensures Rounded(p, 7) < TWO_31 && !IncrementWraps(p, 7)
  {
  }

  lemma SignedProduct(a: int32, b: int32)
    ensures a * b == WithSign((a < 0) != (b < 0), Magnitude(a) * Magnitude(b))
  {
    if a < 0 && b < 0 {
      assert (-(a as int)) * (-(b as int)) == a * b;
    } else if a < 0 {
      assert (-(a as int)) * b == -(a * b);
    } else if b < 0 {
      assert a * (-(b as int)) == -(a * b);
    }
  }

  lemma ScaledDeterminantFits(a: int32, b: int32, c: int32, d: int32)
    requires -FP_1 <= a <= FP_1 && -FP_1 <= b <= FP_1
    requires -FP_1 <= c <= FP_1 && -FP_1 <= d <= FP_1
    requires -10000000000 <= a * b - c * d <= 10000000000
    ensures ScaledDeterminant(a, b, c, d).Done?
  {
    Seventh(a, b);
    Seventh(c, d);
  }

  /** None of the three determinants overflows or reports an internal error. */
  lemma DeterminantsFit(xy: Xy)
    requires Acceptable(xy)
    ensures ScaledDeterminant(xy.greenx - xy.bluex, xy.redy - xy.bluey,
                              xy.greeny - xy.bluey, xy.redx - xy.bluex).Done?
    ensures ScaledDeterminant(xy.greenx - xy.bluex, xy.whitey - xy.bluey,
                              xy.greeny - xy.bluey, xy.whitex - xy.bluex).Done?
    ensures ScaledDeterminant(xy.redy - xy.bluey, xy.whitex - xy.bluex,
                              xy.redx - xy.bluex, xy.whitey - xy.bluey).Done?
  {
    DeterminantBound(xy.redx, xy.redy, xy.greenx, xy.greeny, xy.bluex, xy.bluey);
    ScaledDeterminantFits(xy.greenx - xy.bluex, xy.redy - xy.bluey,
                          xy.greeny - xy.bluey, xy.redx - xy.bluex);
    DeterminantBound(xy.whitex, xy.whitey, xy.greenx, xy.greeny, xy.bluex, xy.bluey);
    ScaledDeterminantFits(xy.greenx - xy.bluex, xy.whitey - xy.bluey,
                          xy.greeny - xy.bluey, xy.whitex - xy.bluex);
    DeterminantBound(xy.whitex, xy.whitey, xy.redx, xy.redy, xy.bluex, xy.bluey);
    ScaledDeterminantFits(xy.redy - xy.bluey, xy.whitex - xy.bluex,
                          xy.redx - xy.bluex, xy.whitey - xy.bluey);
  }

  /** A larger value has no larger a reciprocal, up to one unit of rounding. */
  lemma ReciprocalAntitone(w: int32, v: int32)
    requires 5 <= w < v
    ensures Reciprocal(v) as int <= Reciprocal(w) as int + 1
  {
    ReciprocalBound(w);
    ReciprocalBound(v);
    var r0: int, r1: int := Reciprocal(w), Reciprocal(v);
    if r1 >= r0 + 2 {
      MulMono(r0 + 2, r1, v, v);
      MulMono(r0, r0, w, v);
      AddTop(r0, 2, v);
    }
  }

  /** The blue scale never overflows: both subtractions stay in range. */
  lemma BlueScaleFits(whitey: int32, redInverse: int32, greenInverse: int32)
    requires 5 <= whitey < redInverse && whitey < greenInverse
    ensures BlueScale(whitey, redInverse, greenInverse).Clean()
    ensures BlueScale(whitey, redInverse, greenInverse).Done? ==>
              0 < BlueScale(whitey, redInverse, greenInverse).value as int
              == Reciprocal(whitey) as int - Reciprocal(redInverse) as int
                 - Reciprocal(greenInverse) as int
  {
    ReciprocalBound(whitey);
    ReciprocalBound(redInverse);
    ReciprocalBound(greenInverse);
    ReciprocalAntitone(whitey, redInverse);
  }

  /** An end point is non-negative and its three components add up to the
      requested scale, less than three units of rounding apart. */
  lemma EndPointFits(x: int32, y: int32, times: int32, divisor: int32)
    requires InSimplex(x, y) && times >= 0 && divisor >= 2
    requires FP_1 * times <= divisor * (TWO_31 - 1)
    ensures EndPoint(x, y, times, divisor).Done?
    ensures var e := EndPoint(x, y, times, divisor).value;
      && e.0 >= 0 && e.1 >= 0 && e.2 >= 0
      && (e.0 as int + e.1 as int + e.2 as int) * divisor < FP_1 * times + 3 * divisor
      && NearQuotient(e.0, x * times, divisor) && NearQuotient(e.1, y * times, divisor)
      && NearQuotient(e.2, (FP_1 - x - y) * times, divisor)
  {
    hide MulDiv;
    var z: int32 := FP_1 - x - y;
    MulMono(x, FP_1, times, times);
    MulMono(y, FP_1, times, times);
    MulMono(z, FP_1, times, times);
    MulDivNonNegative(x, times, divisor);
    MulDivNonNegative(y, times, divisor);
    MulDivNonNegative(z, times, divisor);
    var e := EndPoint(x, y, times, divisor).value;
    assert e == (MulDiv(x, times, divisor).value, MulDiv(y, times, divisor).value,
                 MulDiv(z, times, divisor).value);
    AddTop3(e.0, e.1, e.2, divisor);
    AddTop3(x, y, z, times);
  }

  lemma AddTop3(a: int, b: int, c: int, d: int)
    ensures (a + b + c) * d == a * d + b * d + c * d
  {
  }

  /** All nine values are non-negative and even their grand total fits. */
  predicate Tame(z: XYZ) {
    && z.redX >= 0 && z.redY >= 0 && z.redZ >= 0
    && z.greenX >= 0 && z.greenY >= 0 && z.greenZ >= 0
    && z.blueX >= 0 && z.blueY >= 0 && z.blueZ >= 0
    && z.redX as int + z.redY as int + z.redZ as int
     + z.greenX as int + z.greenY as int + z.greenZ as int
     + z.blueX as int + z.blueY as int + z.blueZ as int <= 2000000008
  }

  lemma ScaleSum(sum: int, inverse: int32)
    requires 6 <= inverse && sum * inverse < FP_1 * FP_1 + 3 * inverse
    ensures sum <= Reciprocal(inverse) as int + 3
  {
    ReciprocalBound(inverse);
    var r: int := Reciprocal(inverse);
    if sum >= r + 4 {
      MulMono(r + 4, sum, inverse, inverse);
      AddTop(r, 4, inverse);
    }
  }

  lemma AssembleTotal(xy: Xy, redInverse: int32, greenInverse: int32)
    requires Acceptable(xy)
    requires xy.whitey < redInverse && xy.whitey < greenInverse
    ensures Assemble(xy, redInverse, greenInverse).Clean()
    ensures Assemble(xy, redInverse, greenInverse).Done? ==>
              Tame(Assemble(xy, redInverse, greenInverse).value)
  {
    hide BlueScale, EndPoint, Reciprocal, NearQuotient;
    BlueScaleFits(xy.whitey, redInverse, greenInverse);
    if BlueScale(xy.whitey, redInverse, greenInverse).Done? {
      var blueScale := BlueScale(xy.whitey, redInverse, greenInverse).value;
      ReciprocalBound(xy.whitey);
      ReciprocalBound(redInverse);
      ReciprocalBound(greenInverse);
      EndPointFits(xy.redx, xy.redy, FP_1, redInverse);
      EndPointFits(xy.greenx, xy.greeny, FP_1, greenInverse);
      EndPointFits(xy.bluex, xy.bluey, blueScale, FP_1);
      var red := EndPoint(xy.redx, xy.redy, FP_1, redInverse).value;
      var green := EndPoint(xy.greenx, xy.greeny, FP_1, greenInverse).value;
      ScaleSum(red.0 as int + red.1 as int + red.2 as int, redInverse);
      ScaleSum(green.0 as int + green.1 as int + green.2 as int, greenInverse);
    }
  }

  lemma InverseScaleExceeds(whitey: int32, denominator: int32, numerator: int32)
    ensures InverseScale(whitey, denominator, numerator).Clean()
    ensures InverseScale(whitey, denominator, numerator).Done? ==>
              InverseScale(whitey, denominator, numerator).value > whitey
  {
  }

  lemma InversesExceedWhite(xy: Xy, denominator: int32)
    requires Acceptable(xy)
    ensures RedInverse(xy, denominator).Clean() && GreenInverse(xy, denominator).Clean()
    ensures RedInverse(xy, denominator).Done? ==> RedInverse(xy, denominator).value > xy.whitey
    ensures GreenInverse(xy, denominator).Done? ==> GreenInverse(xy, denominator).value > xy.whitey
  {
    hide ScaledDeterminant, InverseScale;
    DeterminantsFit(xy);
    var red := ScaledDeterminant(xy.greenx - xy.bluex, xy.whitey - xy.bluey,
                                 xy.greeny - xy.bluey, xy.whitex - xy.bluex);
    var green := ScaledDeterminant(xy.redy - xy.bluey, xy.whitex - xy.bluex,
                                   xy.redx - xy.bluex, xy.whitey - xy.bluey);
    InverseScaleExceeds(xy.whitey, denominator, red.value);
    InverseScaleExceeds(xy.whitey, denominator, green.value);
  }

  /** For every input: none of its own subtractions overflows, no "internal error", and on
      success nine non-negative values whose sums all fit. */
  lemma XyzFromXyTotal(xy: Xy)
    ensures XyzFromXy(xy).Clean()
    ensures XyzFromXy(xy).Done? ==> Acceptable(xy) && Tame(XyzFromXy(xy).value)
  {
    hide Assemble, RedInverse, GreenInverse, ScaledDeterminant, Tame;
    if Acceptable(xy) {
      DeterminantsFit(xy);
      var denominator := ScaledDeterminant(xy.greenx - xy.bluex, xy.redy - xy.bluey,
                                           xy.greeny - xy.bluey, xy.redx - xy.bluex);
      InversesExceedWhite(xy, denominator.value);
      var red, green := RedInverse(xy, denominator.value), GreenInverse(xy, denominator.value);
      if red.Done? && green.Done? {
        AssembleTotal(xy, red.value, green.value);
      }
    }
  }

  /** Inside png_muldiv the signed word does overflow for some accepted chromaticities: here in
      the division that gives the red inverse, which is then rejected. */
  lemma InverseWordOverflows()
    ensures var xy := Xy(30188, 53567, 19434, 16302, 34593, 40561, 32870, 37804);
      && Acceptable(xy)
      && ScaledDeterminant(xy.greenx - xy.bluex, xy.redy - xy.bluey,
                           xy.greeny - xy.bluey, xy.redx - xy.bluex) == Done(-43431264)
      && ScaledDeterminant(xy.greenx - xy.bluex, xy.whitey - xy.bluey,
                           xy.greeny - xy.bluey, xy.whitex - xy.bluex) == Done(-699)
      && MulDivUndefined(xy.whitey, -43431264, -699)
  {
    assert MulDiv(-15159, 13006, 7) == Some(-28165422) && MulDiv(-24259, -4405, 7) == Some(15265842);
    assert MulDiv(-15159, -2757, 7) == Some(5970481) && MulDiv(-24259, -1723, 7) == Some(5971180);
    assert Rounded(37804 * 43431264, 699) >= TWO_31;
  }

  /** Sums of tame values never overflow, so the way back is always defined: it succeeds
      exactly when no end point is black, and gives the quotients by the sums. */
  lemma XyFromTameXyz(z: XYZ)
    requires Tame(z)
    ensures XyFromXyz(z).Clean()
    ensures XyFromXyz(z).Done? <==> Total(z.redX, z.redY, z.redZ) > 0 && Total(z.greenX, z.greenY, z.greenZ) > 0
                                    && Total(z.blueX, z.blueY, z.blueZ) > 0
    ensures XyFromXyz(z).Done? ==> Projects(XyFromXyz(z).value, z)
  {
    hide MulDiv, NearQuotient, XyFromXyz, Tame, Total;
    TameSums(z);
    TameRatios(z);
  }

  predicate IsRatio(v: int32, total: int32) {
    && (MulDiv(v, FP_1, total).Some? <==> total > 0)
    && (total > 0 && v >= 0 ==> MulDiv(v, FP_1, total).value == Quotient(v, FP_1, total))
    && (total > 0 ==> NearQuotient(MulDiv(v, FP_1, total).value, v * FP_1, total))
  }

  lemma TameRatios(z: XYZ)
    requires Tame(z)
    ensures var r, g, b := Total(z.redX, z.redY, z.redZ), Total(z.greenX, z.greenY, z.greenZ),
                           Total(z.blueX, z.blueY, z.blueZ);
      && r >= 0 && g >= 0 && b >= 0
      && IsRatio(z.redX, r) && IsRatio(z.redY, r) && IsRatio(z.greenX, g) && IsRatio(z.greenY, g)
      && IsRatio(z.blueX, b) && IsRatio(z.blueY, b)
      && IsRatio(z.redX as int + z.greenX as int + z.blueX as int, r + g + b)
      && IsRatio(z.redY as int + z.greenY as int + z.blueY as int, r + g + b)
  {
    hide IsRatio;
    var r: int32, g: int32, b: int32 := Total(z.redX, z.redY, z.redZ), Total(z.greenX, z.greenY, z.greenZ),
                                        Total(z.blueX, z.blueY, z.blueZ);
    Ratio(z.redX, r); Ratio(z.redY, r);
    Ratio(z.greenX, g); Ratio(z.greenY, g);
    Ratio(z.blueX, b); Ratio(z.blueY, b);
    Ratio(z.redX as int + z.greenX as int + z.blueX as int, r + g + b);
    Ratio(z.redY as int + z.greenY as int + z.blueY as int, r + g + b);
  }

  /** The conversion with all its sums done. */
  function XyFromSums(z: XYZ, r: int32, g: int32, b: int32, white: int32, whiteX: int32, whiteY: int32): Outcome<Xy> {
    var redx :- OrRejected(MulDiv(z.redX, FP_1, r));
    var redy :- OrRejected(MulDiv(z.redY, FP_1, r));
    var greenx :- OrRejected(MulDiv(z.greenX, FP_1, g));
    var greeny :- OrRejected(MulDiv(z.greenY, FP_1, g));
    var bluex :- OrRejected(MulDiv(z.blueX, FP_1, b));
    var bluey :- OrRejected(MulDiv(z.blueY, FP_1, b));
    var whitex :- OrRejected(MulDiv(whiteX, FP_1, white));
    var whitey :- OrRejected(MulDiv(whiteY, FP_1, white));
    Done(Xy(redx, redy, greenx, greeny, bluex, bluey, whitex, whitey))
  }

  lemma TameSums(z: XYZ)
    requires Tame(z)
    ensures var r, g, b := Total(z.redX, z.redY, z.redZ), Total(z.greenX, z.greenY, z.greenZ),
                           Total(z.blueX, z.blueY, z.blueZ);
      XyFromXyz(z) == XyFromSums(z, r, g, b, r + g + b, z.redX as int + z.greenX as int + z.blueX as int,
                                 z.redY as int + z.greenY as int + z.blueY as int)
  {
    hide MulDiv, Sum3, Plus;
    var r: int32, g: int32, b: int32 := Total(z.redX, z.redY, z.redZ), Total(z.greenX, z.greenY, z.greenZ),
                                        Total(z.blueX, z.blueY, z.blueZ);
    SumFits(z.redX, z.redY, z.redZ); SumFits(z.greenX, z.greenY, z.greenZ); SumFits(z.blueX, z.blueY, z.blueZ);
    SumFits(r, g, b); SumFits(z.redX, z.greenX, z.blueX); SumFits(z.redY, z.greenY, z.blueY);
  }

  lemma SumFits(a: int32, b: int32, c: int32)
    requires a >= 0 && b >= 0 && c >= 0 && a as int + b as int + c as int <= 2000000008
    ensures Plus(a, b) == Done(a as int + b as int)
    ensures Plus(a as int + b as int, c) == Sum3(a, b, c) == Done(a as int + b as int + c as int)
  {
  }

  function Total(X: int, Y: int, Z: int): int {
    X + Y + Z
  }

  /** v is p / d to the precision of png_muldiv. */
  predicate NearQuotient(v: int, p: int, d: int) {
    -d < 2 * (v * d - p) <= d + 1
  }

  /** Every chromaticity is its tristimulus value over the sum of the three, and the white
      point is that of the sum of the end points. */
  predicate Projects(xy: Xy, z: XYZ) {
    var r, g, b := Total(z.redX, z.redY, z.redZ), Total(z.greenX, z.greenY, z.greenZ),
                   Total(z.blueX, z.blueY, z.blueZ);
    && NearQuotient(xy.redx, z.redX * FP_1, r) && NearQuotient(xy.redy, z.redY * FP_1, r)
    && NearQuotient(xy.greenx, z.greenX * FP_1, g) && NearQuotient(xy.greeny, z.greenY * FP_1, g)
    && NearQuotient(xy.bluex, z.blueX * FP_1, b) && NearQuotient(xy.bluey, z.blueY * FP_1, b)
    && NearQuotient(xy.whitex, (z.redX as int + z.greenX as int + z.blueX as int) * FP_1, r + g + b)
    && NearQuotient(xy.whitey, (z.redY as int + z.greenY as int + z.blueY as int) * FP_1, r + g + b)
  }

  lemma Ratio(v: int32, total: int32)
    requires 0 <= v <= total
    ensures IsRatio(v, total)
  {
    if total > 0 {
      ShareBound(v, total);
      RatioExact(v, total);
    }
  }

  lemma RatioExact(v: int32, total: int32)
    requires 0 <= v <= total && total > 0
    ensures MulDiv(v, FP_1, total) == Some(Quotient(v, FP_1, total))
  {
    MulMono(v, total, FP_1, FP_1);
    RoundedError(v * FP_1, total);
    if Rounded(v * FP_1, total) >= TWO_31 {
      MulMono(TWO_31, Rounded(v * FP_1, total), total, total);
    }
    QuotientIs(v, FP_1, total);
  }

  /** a * times / d, rounded as png_muldiv does for non-negative arguments. */
  function Quotient(a: nat, times: nat, d: nat): nat
    requires d > 0
  {
    if a == 0 || times == 0 then 0 else Rounded(a * times, d)
  }

  lemma QuotientIs(a: int32, times: int32, d: int32)
    requires a >= 0 && times >= 0 && d > 0
    ensures MulDiv(a, times, d).Some? && MulDiv(a, times, d).value > 0 ==>
              MulDiv(a, times, d).value == Quotient(a, times, d)
    ensures Quotient(a, times, d) < TWO_31 ==> MulDiv(a, times, d) == Some(Quotient(a, times, d))
  {
  }

  // ---------------------------------------------------------------- exactly what is accepted

  /** The largest of the eight differences of two sets of chromaticities. */
  function Slip(a: Xy, b: Xy): nat {
    Max(Max(Max(Abs(a.redx - b.redx), Abs(a.redy - b.redy)), Max(Abs(a.greenx - b.greenx), Abs(a.greeny - b.greeny))),
        Max(Max(Abs(a.bluex - b.bluex), Abs(a.bluey - b.bluey)), Max(Abs(a.whitex - b.whitex), Abs(a.whitey - b.whitey))))
  }

  function Max(a: nat, b: nat): nat {
    if a < b then b else a
  }

  /** png_colorspace_endpoints_match compares that. */
  lemma MatchIsSlip(a: Xy, b: Xy, delta: nat)
    ensures EndpointsMatch(a, b, delta) <==> Slip(a, b) <= delta
  {
  }

  /** No end point is black, and the eight quotients that z projects to are within 5 of xy. */
  predicate RoundTrips(xy: Xy, z: XYZ) {
    && NonNegative(z)
    && var r, g, b := Total(z.redX, z.redY, z.redZ), Total(z.greenX, z.greenY, z.greenZ),
                      Total(z.blueX, z.blueY, z.blueZ);
    && r > 0 && g > 0 && b > 0
    && -5 <= Quotient(z.redX, FP_1, r) - xy.redx <= 5 && -5 <= Quotient(z.redY, FP_1, r) - xy.redy <= 5
    && -5 <= Quotient(z.greenX, FP_1, g) - xy.greenx <= 5 && -5 <= Quotient(z.greenY, FP_1, g) - xy.greeny <= 5
    && -5 <= Quotient(z.blueX, FP_1, b) - xy.bluex <= 5 && -5 <= Quotient(z.blueY, FP_1, b) - xy.bluey <= 5
    && -5 <= Quotient(Total(z.redX, z.greenX, z.blueX), FP_1, r + g + b) - xy.whitex <= 5
    && -5 <= Quotient(Total(z.redY, z.greenY, z.blueY), FP_1, r + g + b) - xy.whitey <= 5
  }

  /** png_colorspace_check_xy accepts exactly the chromaticities that convert and come back. */
  lemma CheckXyIff(xy: Xy)
    ensures CheckXy(xy).Done? <==> XyzFromXy(xy).Done? && RoundTrips(xy, XyzFromXy(xy).value)
    ensures CheckXy(xy).Done? ==> CheckXy(xy) == XyzFromXy(xy)
  {
    hide XyzFromXy, XyFromXyz, RoundTrips;
    XyzFromXyTotal(xy);
    if XyzFromXy(xy).Done? {
      var z := XyzFromXy(xy).value;
      XyFromTameXyz(z);
      RoundTripsIff(xy, z);
    }
  }

  lemma RoundTripsIff(xy: Xy, z: XYZ)
    requires Tame(z)
    ensures RoundTrips(xy, z) <==> XyFromXyz(z).Done? && EndpointsMatch(xy, XyFromXyz(z).value, 5)
  {
    hide MulDiv, NearQuotient, XyFromXyz, Quotient;
    XyFromTameXyz(z);
    TameSums(z);
    TameRatios(z);
  }

  /** The product rounded to a seventh, with its sign. */
  function SignedSeventh(p: int): int {
    if p < 0 then 0 - Rounded(0 - p, 7) else Rounded(p, 7)
  }

  function SeventhDifference(a: int, b: int, c: int, d: int): int {
    SignedSeventh(a * b) - SignedSeventh(c * d)
  }

  /** The three determinants as they are computed. */
  function Denominator(xy: Xy): int {
    SeventhDifference(xy.greenx - xy.bluex, xy.redy - xy.bluey, xy.greeny - xy.bluey, xy.redx - xy.bluex)
  }

  function RedNumerator(xy: Xy): int {
    SeventhDifference(xy.greenx - xy.bluex, xy.whitey - xy.bluey, xy.greeny - xy.bluey, xy.whitex - xy.bluex)
  }

  function GreenNumerator(xy: Xy): int {
    SeventhDifference(xy.redy - xy.bluey, xy.whitex - xy.bluex, xy.redx - xy.bluex, xy.whitey - xy.bluey)
  }

  /** The inverse scale w * |d| / |n|. */
  function Inverse(w: nat, d: int, n: int): nat
    requires n != 0
  {
    Rounded(w * Abs(d), Abs(n))
  }

  /** ... is positive, fits, and exceeds w. */
  predicate Scalable(w: nat, d: int, n: int) {
    n != 0 && ((d > 0 && n > 0) || (d < 0 && n < 0)) && w < Inverse(w, d, n) < TWO_31
  }

  function BlueOf(w: nat, ri: nat, gi: nat): int
    requires w > 0 && ri > 0 && gi > 0
  {
    Rounded(10000000000, w) - Rounded(10000000000, ri) - Rounded(10000000000, gi)
  }

  /** The chromaticities are in the triangle, and white is not too dark. */
  predicate InTriangle(xy: Xy) {
    && xy.redx >= 0 && xy.redy >= 0 && xy.redx + xy.redy <= 100000
    && xy.greenx >= 0 && xy.greeny >= 0 && xy.greenx + xy.greeny <= 100000
    && xy.bluex >= 0 && xy.bluey >= 0 && xy.bluex + xy.bluey <= 100000
    && xy.whitex >= 0 && xy.whitey >= 5 && xy.whitex + xy.whitey <= 100000
  }

  /** The conversion in closed form: when it succeeds, ... */
  predicate Converts(xy: Xy) {
    && InTriangle(xy)
    && Scalable(xy.whitey, Denominator(xy), RedNumerator(xy))
    && Scalable(xy.whitey, Denominator(xy), GreenNumerator(xy))
    && BlueOf(xy.whitey, Inverse(xy.whitey, Denominator(xy), RedNumerator(xy)),
              Inverse(xy.whitey, Denominator(xy), GreenNumerator(xy))) > 0
  }

  /** ... and with which nine values. */
  predicate ConvertsTo(xy: Xy, z: XYZ)
    requires Converts(xy)
  {
    var ri := Inverse(xy.whitey, Denominator(xy), RedNumerator(xy));
    var gi := Inverse(xy.whitey, Denominator(xy), GreenNumerator(xy));
    var bs := BlueOf(xy.whitey, ri, gi);
    && z.redX == Quotient(xy.redx, 100000, ri) && z.redY == Quotient(xy.redy, 100000, ri)
    && z.redZ == Quotient(100000 - xy.redx - xy.redy, 100000, ri)
    && z.greenX == Quotient(xy.greenx, 100000, gi) && z.greenY == Quotient(xy.greeny, 100000, gi)
    && z.greenZ == Quotient(100000 - xy.greenx - xy.greeny, 100000, gi)
    && z.blueX == Quotient(xy.bluex, bs, 100000) && z.blueY == Quotient(xy.bluey, bs, 100000)
    && z.blueZ == Quotient(100000 - xy.bluex - xy.bluey, bs, 100000)
  }

  lemma AcceptableIs(xy: Xy)
    ensures Acceptable(xy) <==> InTriangle(xy)
  {
  }

  lemma SeventhIs(a: int32, b: int32)
    requires -FP_1 <= a <= FP_1 && -FP_1 <= b <= FP_1
    ensures MulDiv(a, b, 7) == Some(SignedSeventh(a * b))
  {
    MulMono(Magnitude(a), 100000, Magnitude(b), 100000);
    var p := Magnitude(a) * Magnitude(b);
    SeventhOfMagnitude(p);
    SignedProduct(a, b);
    MulDivSigned(a, b, 7, p);
    SeventhSign(a * b, p);
  }

  lemma SeventhSign(s: int, p: nat)
    requires s == p || s + p == 0
    ensures SignedSeventh(s) == (if s < 0 then 0 - Rounded(p, 7) else Rounded(p, 7)) && Rounded(0, 7) == 0
  {
  }

  lemma ScaledDeterminantIs(a: int32, b: int32, c: int32, d: int32)
    requires -FP_1 <= a <= FP_1 && -FP_1 <= b <= FP_1 && -FP_1 <= c <= FP_1 && -FP_1 <= d <= FP_1
    requires ScaledDeterminant(a, b, c, d).Done?
    ensures FitsInt32(SeventhDifference(a, b, c, d))
    ensures ScaledDeterminant(a, b, c, d) == Done(SeventhDifference(a, b, c, d))
  {
    hide MulDiv, SignedSeventh;
    SeventhIs(a, b);
    SeventhIs(c, d);
  }

  lemma InverseScaleIff(w: int32, d: int32, n: int32)
    requires w >= 5
    ensures InverseScale(w, d, n).Done? <==> Scalable(w, d, n)
    ensures InverseScale(w, d, n).Done? ==> InverseScale(w, d, n).value == Inverse(w, d, n)
  {
    hide Rounded, IncrementWraps;
    if d != 0 && n != 0 {
      MulDivIs(w, d, n);
      MagnitudeIs(d);
      MagnitudeIs(n);
      WrapsTooFar(Magnitude(w) * Magnitude(d), Magnitude(n));
    }
  }

  lemma MagnitudeIs(x: int32)
    ensures Magnitude(x) == Abs(x)
  {
  }

  lemma WrapsTooFar(p: nat, d: nat)
    requires d > 0
    ensures IncrementWraps(p, d) ==> Rounded(p, d) >= TWO_31
  {
  }

  lemma ReciprocalIs(v: int32)
    requires v >= 5
    ensures Reciprocal(v) == Rounded(10000000000, v)
  {
    MulDivNonNegative(FP_1, FP_1, v);
  }

  lemma EndPointIs(x: int32, y: int32, times: int32, divisor: int32)
    requires InSimplex(x, y) && times >= 0 && divisor >= 2
    requires FP_1 * times <= divisor * (TWO_31 - 1)
    ensures EndPoint(x, y, times, divisor) ==
            Done((Quotient(x, times, divisor), Quotient(y, times, divisor), Quotient(FP_1 - x - y, times, divisor)))
  {
    hide MulDiv, Quotient;
    EndPointFits(x, y, times, divisor);
    QuotientFits31(x, times, divisor);
    QuotientFits31(y, times, divisor);
    QuotientFits31(FP_1 - x - y, times, divisor);
  }

  lemma QuotientFits31(a: int32, times: int32, d: int32)
    requires 0 <= a <= FP_1 && times >= 0 && d >= 2 && FP_1 * times <= d * (TWO_31 - 1)
    ensures MulDiv(a, times, d) == Some(Quotient(a, times, d))
  {
    MulMono(a, FP_1, times, times);
    MulDivNonNegative(a, times, d);
    RoundedError(a * times, d);
    if Rounded(a * times, d) >= TWO_31 {
      MulMono(TWO_31, Rounded(a * times, d), d, d);
    }
    QuotientIs(a, times, d);
  }

  /** png_XYZ_from_xy succeeds exactly in the closed form, with its nine values. */
  lemma XyzFromXyIff(xy: Xy)
    ensures XyzFromXy(xy).Done? <==> Converts(xy)
    ensures XyzFromXy(xy).Done? ==> ConvertsTo(xy, XyzFromXy(xy).value)
  {
    hide Assemble, ScaledDeterminant, InverseScale, Scalable, SeventhDifference, Inverse, BlueOf, ConvertsTo;
    AcceptableIs(xy);
    if Acceptable(xy) {
      DeterminantsAre(xy);
      var d, rn, gn := Denominator(xy), RedNumerator(xy), GreenNumerator(xy);
      hide Denominator, RedNumerator, GreenNumerator;
      InverseScaleIff(xy.whitey, d, rn);
      InverseScaleIff(xy.whitey, d, gn);
      if Scalable(xy.whitey, d, rn) && Scalable(xy.whitey, d, gn) {
        ScalableBounds(xy.whitey, d, rn);
        ScalableBounds(xy.whitey, d, gn);
        var ri, gi := Inverse(xy.whitey, d, rn), Inverse(xy.whitey, d, gn);
        assert XyzFromXy(xy) == Assemble(xy, ri, gi);
        AssembleIff(xy, ri, gi);
        if BlueOf(xy.whitey, ri, gi) > 0 {
          ConvertsAs(xy, XyzFromXy(xy).value);
        }
      }
    }
  }

  lemma ConvertsAs(xy: Xy, z: XYZ)
    requires Converts(xy) && Acceptable(xy)
    requires var ri := Inverse(xy.whitey, Denominator(xy), RedNumerator(xy));
      var gi := Inverse(xy.whitey, Denominator(xy), GreenNumerator(xy));
      xy.whitey < ri < TWO_31 && xy.whitey < gi < TWO_31 && Assemble(xy, ri, gi) == Done(z)
    ensures ConvertsTo(xy, z)
  {
    hide Denominator, RedNumerator, GreenNumerator, Assemble, Scalable, Inverse, Quotient, BlueOf;
    ScalableBounds(xy.whitey, Denominator(xy), RedNumerator(xy));
    ScalableBounds(xy.whitey, Denominator(xy), GreenNumerator(xy));
    AssembleIff(xy, Inverse(xy.whitey, Denominator(xy), RedNumerator(xy)),
                Inverse(xy.whitey, Denominator(xy), GreenNumerator(xy)));
  }

  lemma ScalableBounds(w: nat, d: int, n: int)
    requires Scalable(w, d, n)
    ensures n != 0 && w < Inverse(w, d, n) < TWO_31
  {
  }

  lemma DeterminantsAre(xy: Xy)
    requires Acceptable(xy)
    ensures FitsInt32(Denominator(xy)) && FitsInt32(RedNumerator(xy)) && FitsInt32(GreenNumerator(xy))
    ensures ScaledDeterminant(xy.greenx - xy.bluex, xy.redy - xy.bluey,
                              xy.greeny - xy.bluey, xy.redx - xy.bluex) == Done(Denominator(xy))
    ensures ScaledDeterminant(xy.greenx - xy.bluex, xy.whitey - xy.bluey,
                              xy.greeny - xy.bluey, xy.whitex - xy.bluex) == Done(RedNumerator(xy))
    ensures ScaledDeterminant(xy.redy - xy.bluey, xy.whitex - xy.bluex,
                              xy.redx - xy.bluex, xy.whitey - xy.bluey) == Done(GreenNumerator(xy))
  {
    hide ScaledDeterminant, SeventhDifference;
    DeterminantsFit(xy);
    ScaledDeterminantIs(xy.greenx - xy.bluex, xy.redy - xy.bluey, xy.greeny - xy.bluey, xy.redx - xy.bluex);
    ScaledDeterminantIs(xy.greenx - xy.bluex, xy.whitey - xy.bluey, xy.greeny - xy.bluey, xy.whitex - xy.bluex);
    ScaledDeterminantIs(xy.redy - xy.bluey, xy.whitex - xy.bluex, xy.redx - xy.bluex, xy.whitey - xy.bluey);
  }

  lemma AssembleIff(xy: Xy, ri: int32, gi: int32)
    requires Acceptable(xy) && xy.whitey < ri && xy.whitey < gi
    ensures Assemble(xy, ri, gi).Done? <==> BlueOf(xy.whitey, ri, gi) > 0
    ensures Assemble(xy, ri, gi).Done? ==>
              var z, bs := Assemble(xy, ri, gi).value, BlueOf(xy.whitey, ri, gi);
              && z.redX == Quotient(xy.redx, 100000, ri) && z.redY == Quotient(xy.redy, 100000, ri)
              && z.redZ == Quotient(100000 - xy.redx - xy.redy, 100000, ri)
              && z.greenX == Quotient(xy.greenx, 100000, gi) && z.greenY == Quotient(xy.greeny, 100000, gi)
              && z.greenZ == Quotient(100000 - xy.greenx - xy.greeny, 100000, gi)
              && z.blueX == Quotient(xy.bluex, bs, 100000) && z.blueY == Quotient(xy.bluey, bs, 100000)
              && z.blueZ == Quotient(100000 - xy.bluex - xy.bluey, bs, 100000)
  {
    hide BlueScale, EndPoint, Reciprocal, Quotient, Rounded;
    BlueScaleFits(xy.whitey, ri, gi);
    BlueScaleIff(xy.whitey, ri, gi);
    ReciprocalIs(xy.whitey);
    ReciprocalIs(ri);
    ReciprocalIs(gi);
    ReciprocalBound(xy.whitey);
    ReciprocalBound(ri);
    ReciprocalBound(gi);
    if BlueScale(xy.whitey, ri, gi).Done? {
      EndPointIs(xy.redx, xy.redy, FP_1, ri);
      EndPointIs(xy.greenx, xy.greeny, FP_1, gi);
      EndPointIs(xy.bluex, xy.bluey, BlueScale(xy.whitey, ri, gi).value, FP_1);
    }
  }

  lemma BlueScaleIff(w: int32, ri: int32, gi: int32)
    requires 5 <= w < ri && w < gi
    ensures BlueScale(w, ri, gi).Done? <==> Reciprocal(w) as int - Reciprocal(ri) as int - Reciprocal(gi) as int > 0
  {
    hide Reciprocal;
    ReciprocalBound(w);
    ReciprocalBound(ri);
    ReciprocalBound(gi);
    ReciprocalAntitone(w, ri);
  }

  // ---------------------------------------------------------------- what it solves

  /** Twice the signed area of the triangle p q r. */
  function Determinant(px: int, py: int, qx: int, qy: int, rx: int, ry: int): int {
    (qx - rx) * (py - ry) - (qy - ry) * (px - rx)
  }

  function DetRGB(xy: Xy): int {
    Determinant(xy.redx, xy.redy, xy.greenx, xy.greeny, xy.bluex, xy.bluey)
  }

  /** The triangle with red replaced by white, and so on. */
  function DetWGB(xy: Xy): int {
    Determinant(xy.whitex, xy.whitey, xy.greenx, xy.greeny, xy.bluex, xy.bluey)
  }

  function DetRWB(xy: Xy): int {
    Determinant(xy.redx, xy.redy, xy.whitex, xy.whitey, xy.bluex, xy.bluey)
  }

  function DetRGW(xy: Xy): int {
    Determinant(xy.redx, xy.redy, xy.greenx, xy.greeny, xy.whitex, xy.whitey)
  }

  /** Cramer's rule: the three triangles are the weights with which the end points mix to
      the white point. */
  lemma WeightsMixToWhite(xy: Xy)
    ensures DetWGB(xy) + DetRWB(xy) + DetRGW(xy) == DetRGB(xy)
    ensures DetWGB(xy) * xy.redx + DetRWB(xy) * xy.greenx + DetRGW(xy) * xy.bluex == DetRGB(xy) * xy.whitex
    ensures DetWGB(xy) * xy.redy + DetRWB(xy) * xy.greeny + DetRGW(xy) * xy.bluey == DetRGB(xy) * xy.whitey
  {
  }

  /** |7 d - exact| is at most 8. */
  predicate NearSeventh(d: int, exact: int) {
    -8 <= 7 * d - exact <= 8
  }

  /** An inverse scale: whitey * denominator / numerator, rounded. */
  predicate InverseOf(inverse: int, whitey: int, denominator: int, numerator: int) {
    && numerator != 0
    && -1 - Abs(numerator) <= 2 * (inverse * numerator - whitey * denominator) <= Abs(numerator) + 1
  }

  /** The white-point equations in the precision of the source: the scales are the inverses
      of the ratios of Cramer's rule, they add up to 1/whitey, and each end point is its
      chromaticities times its scale. */
  predicate Solves(xy: Xy, z: XYZ, denominator: int32, redNumerator: int32, greenNumerator: int32,
                   redInverse: int32, greenInverse: int32)
  {
    && NearSeventh(denominator, DetRGB(xy))
    && NearSeventh(redNumerator, DetWGB(xy))
    && NearSeventh(greenNumerator, DetRWB(xy))
    && InverseOf(redInverse, xy.whitey, denominator, redNumerator)
    && InverseOf(greenInverse, xy.whitey, denominator, greenNumerator)
    && Scaled(xy, z, redInverse, greenInverse)
  }

  predicate Scaled(xy: Xy, z: XYZ, redInverse: int32, greenInverse: int32) {
    var blueScale: int := Reciprocal(xy.whitey) as int - Reciprocal(redInverse) as int - Reciprocal(greenInverse) as int;
    && redInverse > xy.whitey && greenInverse > xy.whitey && blueScale > 0
    && NearQuotient(z.redX, xy.redx * FP_1, redInverse)
    && NearQuotient(z.redY, xy.redy * FP_1, redInverse)
    && NearQuotient(z.redZ, (FP_1 - xy.redx - xy.redy) * FP_1, redInverse)
    && NearQuotient(z.greenX, xy.greenx * FP_1, greenInverse)
    && NearQuotient(z.greenY, xy.greeny * FP_1, greenInverse)
    && NearQuotient(z.greenZ, (FP_1 - xy.greenx - xy.greeny) * FP_1, greenInverse)
    && NearQuotient(z.blueX, xy.bluex * blueScale, FP_1)
    && NearQuotient(z.blueY, xy.bluey * blueScale, FP_1)
    && NearQuotient(z.blueZ, (FP_1 - xy.bluex - xy.bluey) * blueScale, FP_1)
  }

  lemma ScaledDeterminantNear(a: int32, b: int32, c: int32, d: int32)
    requires -FP_1 <= a <= FP_1 && -FP_1 <= b <= FP_1
    requires -FP_1 <= c <= FP_1 && -FP_1 <= d <= FP_1
    requires ScaledDeterminant(a, b, c, d).Done?
    ensures NearSeventh(ScaledDeterminant(a, b, c, d).value, a * b - c * d)
  {
    hide MulDiv;
    Seventh(a, b);
    Seventh(c, d);
  }

  lemma PositiveResult(a: int32, times: int32, divisor: int32)
    requires a >= 0 && MulDiv(a, times, divisor).Some? && MulDiv(a, times, divisor).value > 0
    ensures divisor != 0 && ((times < 0) == (divisor < 0))
    ensures MulDiv(a, times, divisor).value == Rounded(Magnitude(a) * Magnitude(times), Magnitude(divisor))
  {
  }

  lemma InverseScaleIs(whitey: int32, denominator: int32, numerator: int32)
    requires whitey >= 0 && InverseScale(whitey, denominator, numerator).Done?
    ensures InverseOf(InverseScale(whitey, denominator, numerator).value, whitey, denominator, numerator)
    ensures InverseScale(whitey, denominator, numerator).value > whitey
  {
    hide MulDiv, Rounded;
    var r: int := InverseScale(whitey, denominator, numerator).value;
    PositiveResult(whitey, denominator, numerator);
    var p, d := Magnitude(whitey) * Magnitude(denominator), Magnitude(numerator);
    RoundedError(p, d);
    SignedProduct(whitey, denominator);
    SignFlip(r, numerator);
  }

  /** On success the nine values solve the white-point equations. */
  lemma XyzFromXySolves(xy: Xy)
    ensures XyzFromXy(xy).Done? ==>
              exists denominator, redNumerator, greenNumerator, redInverse, greenInverse ::
                Solves(xy, XyzFromXy(xy).value, denominator, redNumerator, greenNumerator, redInverse, greenInverse)
  {
    if XyzFromXy(xy).Done? {
      var denominator, rn, gn, ri, gi := Solution(xy);
    }
  }

  lemma Solution(xy: Xy) returns (denominator: int32, rn: int32, gn: int32, ri: int32, gi: int32)
    requires XyzFromXy(xy).Done?
    ensures Solves(xy, XyzFromXy(xy).value, denominator, rn, gn, ri, gi)
    ensures Acceptable(xy) && Done(denominator) == ScaledDeterminant(xy.greenx - xy.bluex, xy.redy - xy.bluey,
                                                                    xy.greeny - xy.bluey, xy.redx - xy.bluex)
  {
    hide Assemble, ScaledDeterminant, InverseScale, NearSeventh, InverseOf, Scaled;
    DeterminantsFit(xy);
    denominator := ScaledDeterminant(xy.greenx - xy.bluex, xy.redy - xy.bluey,
                                         xy.greeny - xy.bluey, xy.redx - xy.bluex).value;
    rn := ScaledDeterminant(xy.greenx - xy.bluex, xy.whitey - xy.bluey,
                                xy.greeny - xy.bluey, xy.whitex - xy.bluex).value;
    gn := ScaledDeterminant(xy.redy - xy.bluey, xy.whitex - xy.bluex,
                                xy.redx - xy.bluex, xy.whitey - xy.bluey).value;
    NumeratorsNear(xy);
    ri, gi := RedInverse(xy, denominator).value, GreenInverse(xy, denominator).value;
    InverseScaleIs(xy.whitey, denominator, rn);
    InverseScaleIs(xy.whitey, denominator, gn);
    AssembleScales(xy, ri, gi);
  }

  lemma DeterminantForms(xy: Xy)
    ensures DetRGB(xy) == (xy.greenx - xy.bluex) * (xy.redy - xy.bluey) - (xy.greeny - xy.bluey) * (xy.redx - xy.bluex)
    ensures DetWGB(xy) == (xy.greenx - xy.bluex) * (xy.whitey - xy.bluey) - (xy.greeny - xy.bluey) * (xy.whitex - xy.bluex)
    ensures DetRWB(xy) == (xy.redy - xy.bluey) * (xy.whitex - xy.bluex) - (xy.redx - xy.bluex) * (xy.whitey - xy.bluey)
  {
  }

  lemma NumeratorsNear(xy: Xy)
    requires Acceptable(xy)
    ensures var d := ScaledDeterminant(xy.greenx - xy.bluex, xy.redy - xy.bluey,
                                       xy.greeny - xy.bluey, xy.redx - xy.bluex);
      d.Done? && NearSeventh(d.value, DetRGB(xy))
    ensures var d := ScaledDeterminant(xy.greenx - xy.bluex, xy.whitey - xy.bluey,
                                       xy.greeny - xy.bluey, xy.whitex - xy.bluex);
      d.Done? && NearSeventh(d.value, DetWGB(xy))
    ensures var d := ScaledDeterminant(xy.redy - xy.bluey, xy.whitex - xy.bluex,
                                       xy.redx - xy.bluex, xy.whitey - xy.bluey);
      d.Done? && NearSeventh(d.value, DetRWB(xy))
  {
    hide ScaledDeterminant, NearSeventh, DetRGB, DetWGB, DetRWB;
    DeterminantsFit(xy);
    DeterminantForms(xy);
    ScaledDeterminantNear(xy.greenx - xy.bluex, xy.redy - xy.bluey,
                          xy.greeny - xy.bluey, xy.redx - xy.bluex);
    ScaledDeterminantNear(xy.greenx - xy.bluex, xy.whitey - xy.bluey,
                          xy.greeny - xy.bluey, xy.whitex - xy.bluex);
    ScaledDeterminantNear(xy.redy - xy.bluey, xy.whitex - xy.bluex,
                          xy.redx - xy.bluex, xy.whitey - xy.bluey);
  }

  lemma AssembleScales(xy: Xy, redInverse: int32, greenInverse: int32)
    requires Acceptable(xy) && xy.whitey < redInverse && xy.whitey < greenInverse
    requires Assemble(xy, redInverse, greenInverse).Done?
    ensures Scaled(xy, Assemble(xy, redInverse, greenInverse).value, redInverse, greenInverse)
  {
    hide BlueScale, EndPoint, Reciprocal;
    BlueScaleFits(xy.whitey, redInverse, greenInverse);
    var blueScale := BlueScale(xy.whitey, redInverse, greenInverse).value;
    ReciprocalBound(xy.whitey);
    ReciprocalBound(redInverse);
    ReciprocalBound(greenInverse);
    EndPointFits(xy.redx, xy.redy, FP_1, redInverse);
    EndPointFits(xy.greenx, xy.greeny, FP_1, greenInverse);
    EndPointFits(xy.bluex, xy.bluey, blueScale, FP_1);
  }

  /** png_colorspace_check_xy returns only 0 or 1: the "internal error checking
      chromaticities" branch of its callers is unreachable for every input. */
  lemma CheckXyTotal(xy: Xy)
    ensures CheckXy(xy).Clean()
    ensures CheckXy(xy).Done? ==>
              && Tame(CheckXy(xy).value)
              && XyFromXyz(CheckXy(xy).value).Done?
              && EndpointsMatch(xy, XyFromXyz(CheckXy(xy).value).value, 5)
  {
    XyzFromXyTotal(xy);
    if XyzFromXy(xy).Done? {
      XyFromTameXyz(XyzFromXy(xy).value);
    }
  }

  // ---------------------------------------------------------------- the other direction

  const MAX_31: int32 := 0x7fff_ffff

  predicate NonNegative(z: XYZ) {
    && z.redX >= 0 && z.redY >= 0 && z.redZ >= 0
    && z.greenX >= 0 && z.greenY >= 0 && z.greenZ >= 0
    && z.blueX >= 0 && z.blueY >= 0 && z.blueZ >= 0
  }

  function Rescale(X: int32, Y: int32, Z: int32, total: int32): Outcome<(int32, int32, int32)> {
    var x :- OrRejected(MulDiv(X, FP_1, total));
    var y :- OrRejected(MulDiv(Y, FP_1, total));
    var z :- OrRejected(MulDiv(Z, FP_1, total));
    Done((x, y, z))
  }

  /** The sum of the Y values. The guards before each addition test the X value
      of the colour whose Y value is then added. */
  function TotalY(z: XYZ): Outcome<int32> {
    if !NonNegative(z) then Rejected
    else if MAX_31 - z.redY < z.greenX then Rejected
    else
      var Y :- Plus(z.redY, z.greenY);
      if MAX_31 - Y < z.blueX then Rejected
      else Plus(Y, z.blueY)
  }

  /** png_XYZ_normalize */
  function XyzNormalize(z: XYZ): Outcome<XYZ> {
    var Y :- TotalY(z);
    if Y == FP_1 then Done(z)
    else
      var red :- Rescale(z.redX, z.redY, z.redZ, Y);
      var green :- Rescale(z.greenX, z.greenY, z.greenZ, Y);
      var blue :- Rescale(z.blueX, z.blueY, z.blueZ, Y);
      Done(XYZ(red.0, red.1, red.2, green.0, green.1, green.2, blue.0, blue.1, blue.2))
  }

  /** png_colorspace_check_XYZ: the chromaticities and the normalised values. */
  function CheckXyz(z: XYZ): Outcome<(Xy, XYZ)> {
    var n :- XyzNormalize(z);
    var xy :- XyFromXyz(n);
    var _ :- CheckXy(xy);
    Done((xy, n))
  }

  /** The X values pass the guards while the Y values do not fit. */
  predicate NormalizeOverflows(z: XYZ) {
    && NonNegative(z)
    && z.redY as int + z.greenX as int <= MAX_31
    && (|| z.redY as int + z.greenY as int > MAX_31
        || (&& z.redY as int + z.greenY as int + z.blueX as int <= MAX_31
            && z.redY as int + z.greenY as int + z.blueY as int > MAX_31))
  }

  /** "ANSI requires signed overflow not to occur" fails exactly then. */
  lemma NormalizeOverflowIff(z: XYZ)
    ensures XyzNormalize(z).Undefined? <==> NormalizeOverflows(z)
  {
  }

  lemma NormalizeOverflowCounterexample()
    ensures XyzNormalize(XYZ(0, MAX_31, 0, 0, 1, 0, 0, 0, 0)).Undefined?
  {
  }

  /** Some sum of png_xy_from_XYZ is reached and does not fit: a black end point ends the
      conversion before the sums behind it. */
  predicate SumsOverflow(z: XYZ) {
    var r, g, b := Total(z.redX, z.redY, z.redZ), Total(z.greenX, z.greenY, z.greenZ),
                   Total(z.blueX, z.blueY, z.blueZ);
    || r > MAX_31
    || (r > 0 && (|| g > MAX_31
                  || (g > 0 && (r + g > MAX_31 || b > MAX_31 || (b > 0 && r + g + b > MAX_31)))))
  }

  lemma XyFromXyzOverflowIff(z: XYZ)
    requires NonNegative(z)
    ensures XyFromXyz(z).Undefined? <==> SumsOverflow(z)
  {
    hide MulDiv, NearQuotient;
    RatioOr(z.redX, z.redY, z.redZ);
    RatioOr(z.greenX, z.greenY, z.greenZ);
    RatioOr(z.blueX, z.blueY, z.blueZ);
  }

  lemma RatioOr(X: int32, Y: int32, Z: int32)
    requires X >= 0 && Y >= 0 && Z >= 0
    ensures var t := Total(X, Y, Z);
      t <= MAX_31 ==> (MulDiv(X, FP_1, t).Some? <==> t > 0) && (MulDiv(Y, FP_1, t).Some? <==> t > 0)
  {
    hide MulDiv, NearQuotient;
    var t := Total(X, Y, Z);
    if t <= MAX_31 {
      Ratio(X, t);
      Ratio(Y, t);
    }
  }

  /** When png_colorspace_check_XYZ overflows: while normalising, or when the normalised end
      points are added up. The check of the chromaticities that follows never does. */
  predicate EndpointsOverflow(z: XYZ) {
    || NormalizeOverflows(z)
    || (XyzNormalize(z).Done? && SumsOverflow(XyzNormalize(z).value))
  }

  lemma CheckXyzOverflowIff(z: XYZ)
    ensures CheckXyz(z).Undefined? <==> EndpointsOverflow(z)
    ensures !CheckXyz(z).Internal?
  {
    hide XyFromXyz, SumsOverflow, CheckXy, NormalizeOverflows, XyzNormalize;
    NormalizeOverflowIff(z);
    NormalizeClean(z);
    if XyzNormalize(z).Done? {
      var n := XyzNormalize(z).value;
      NormalizeTotal(z);
      XyFromXyzOverflowIff(n);
      XyFromXyzClean(n);
      if XyFromXyz(n).Done? {
        CheckXyTotal(XyFromXyz(n).value);
      }
    }
  }

  /** End points are accepted exactly when they can be normalised and projected, and the
      chromaticities pass the check; these and the normalised values are the result. */
  lemma CheckXyzIff(z: XYZ)
    ensures var n := XyzNormalize(z);
      && (CheckXyz(z).Done? <==> n.Done? && XyFromXyz(n.value).Done? && CheckXy(XyFromXyz(n.value).value).Done?)
      && (CheckXyz(z).Done? ==> CheckXyz(z).value == (XyFromXyz(n.value).value, n.value))
  {
    hide XyzNormalize, XyFromXyz, CheckXy;
  }

  lemma NormalizeClean(z: XYZ)
    ensures !XyzNormalize(z).Internal?
  {
    hide MulDiv;
  }

  lemma XyFromXyzClean(z: XYZ)
    ensures !XyFromXyz(z).Internal?
  {
    hide MulDiv;
  }

  /** A Y total of 1.0 passes the normalisation, and the first sum overflows. */
  lemma SumsOverflowCounterexample()
    ensures var z := XYZ(MAX_31, FP_1, 1, 0, 0, 0, 0, 0, 0);
      XyzNormalize(z) == Done(z) && CheckXyz(z).Undefined?
  {
    var z := XYZ(MAX_31, FP_1, 1, 0, 0, 0, 0, 0, 0);
    assert XyzNormalize(z) == Done(z);
    CheckXyzOverflowIff(z);
  }

  /** Normalisation makes the Y values add up to 1.0, within one unit, or two
      when the total was at most 3. */
  lemma NormalizeTotal(z: XYZ)
    requires XyzNormalize(z).Done?
    ensures NonNegative(XyzNormalize(z).value)
    ensures var n := XyzNormalize(z).value;
      -1 <= n.redY as int + n.greenY as int + n.blueY as int - FP_1
         <= if z.redY as int + z.greenY as int + z.blueY as int <= 3 then 2 else 1
  {
    var Y := TotalY(z).value;
    if Y != FP_1 {
      RescaleNonNegative(z.redX, z.redY, z.redZ, Y);
      RescaleNonNegative(z.greenX, z.greenY, z.greenZ, Y);
      RescaleNonNegative(z.blueX, z.blueY, z.blueZ, Y);
      SharesTotal(z.redY, z.greenY, z.blueY, Y);
    }
  }

  /** A scaled value, up to the one case in which the increment of png_muldiv wraps. */
  predicate Scales(v: int, x: int32, total: int32)
    requires x >= 0 && total > 0
  {
    if IncrementWraps(x * FP_1, total) then v == 0 else NearQuotient(v, x * FP_1, total)
  }

  /** Normalisation divides every value by the sum of the Y values, or changes nothing when
      that is 1.0 already. */
  lemma NormalizeScales(z: XYZ)
    ensures var r := XyzNormalize(z);
      r.Done? ==>
        var n, total := r.value, z.redY as int + z.greenY as int + z.blueY as int;
        && NonNegative(z) && 0 <= total <= MAX_31
        && (if total == FP_1 then n == z
            else
              && total > 0
              && Scales(n.redX, z.redX, total) && Scales(n.redY, z.redY, total) && Scales(n.redZ, z.redZ, total)
              && Scales(n.greenX, z.greenX, total) && Scales(n.greenY, z.greenY, total) && Scales(n.greenZ, z.greenZ, total)
              && Scales(n.blueX, z.blueX, total) && Scales(n.blueY, z.blueY, total) && Scales(n.blueZ, z.blueZ, total))
  {
    hide MulDiv, Scales, Rescale;
    if XyzNormalize(z).Done? {
      var total := TotalY(z).value;
      if total != FP_1 {
        RescaleScales(z.redX, z.redY, z.redZ, total);
        RescaleScales(z.greenX, z.greenY, z.greenZ, total);
        RescaleScales(z.blueX, z.blueY, z.blueZ, total);
      }
    }
  }

  /** The wrapped increment does happen: a large X value over a small total becomes 0. */
  lemma NormalizeLosesX()
    ensures XyzNormalize(XYZ(6828998, 159, 0, 0, 0, 0, 0, 0, 0)) == Done(XYZ(0, FP_1, 0, 0, 0, 0, 0, 0, 0))
  {
    assert IncrementWraps(6828998 * 100000, 159);
    assert MulDiv(6828998, FP_1, 159) == Some(0) && MulDiv(159, FP_1, 159) == Some(FP_1);
  }

  lemma RescaleScales(X: int32, Y: int32, Z: int32, total: int32)
    requires X >= 0 && Y >= 0 && Z >= 0 && total >= 0
    ensures Rescale(X, Y, Z, total).Done? ==>
              var e := Rescale(X, Y, Z, total).value;
              && total > 0
              && Scales(e.0, X, total) && Scales(e.1, Y, total) && Scales(e.2, Z, total)
  {
    hide MulDiv, Scales;
    MulDivScales(X, total);
    MulDivScales(Y, total);
    MulDivScales(Z, total);
  }

  lemma MulDivScales(x: int32, total: int32)
    requires x >= 0 && total >= 0
    ensures MulDiv(x, FP_1, total).Some? ==> total > 0 && Scales(MulDiv(x, FP_1, total).value, x, total)
  {
    if total > 0 {
      RoundedError(x * FP_1, total);
      if x == 0 {
        DivUnique(0, total, 0, 0);
      }
    }
  }

  lemma RescaleNonNegative(X: int32, Y: int32, Z: int32, total: int32)
    requires X >= 0 && Y >= 0 && Z >= 0 && total >= 0
    requires Rescale(X, Y, Z, total).Done?
    ensures var e := Rescale(X, Y, Z, total).value;
      && e.0 >= 0 && e.1 >= 0 && e.2 >= 0
      && MulDiv(Y, FP_1, total) == Some(e.1)
  {
    MulDivKeepsSign(X, FP_1, total);
    MulDivKeepsSign(Y, FP_1, total);
    MulDivKeepsSign(Z, FP_1, total);
  }

  lemma MulDivKeepsSign(a: int32, times: int32, divisor: int32)
    requires a >= 0 && times >= 0 && divisor >= 0
    requires MulDiv(a, times, divisor).Some?
    ensures MulDiv(a, times, divisor).value >= 0
  {
  }

  lemma SharesTotal(r: int32, g: int32, b: int32, total: int32)
    requires r >= 0 && g >= 0 && b >= 0
    requires r as int + g as int + b as int == total && total > 0
    ensures MulDiv(r, FP_1, total).Some? && MulDiv(g, FP_1, total).Some? && MulDiv(b, FP_1, total).Some?
    ensures -1 <= MulDiv(r, FP_1, total).value as int + MulDiv(g, FP_1, total).value as int
                  + MulDiv(b, FP_1, total).value as int - FP_1 <= if total <= 3 then 2 else 1
  {
    ShareBound(r, total);
    ShareBound(g, total);
    ShareBound(b, total);
    if total >= 2 {
      var sr: int, sg: int, sb: int := MulDiv(r, FP_1, total).value,
        MulDiv(g, FP_1, total).value, MulDiv(b, FP_1, total).value;
      AddTop3(sr, sg, sb, total);
      NearFp1(sr + sg + sb, total);
    }
  }

  lemma NearFp1(sum: nat, total: int32)
    requires total >= 2
    requires -3 * total < 2 * (sum * total - total * FP_1) <= 3 * total + 3
    ensures -1 <= sum - FP_1 <= if total <= 3 then 2 else 1
  {
    if sum + 2 <= FP_1 {
      MulMono(sum + 2, FP_1, total, total);
      AddTop(sum, 2, total);
    } else if sum >= FP_1 as int + 3 {
      MulMono(FP_1 as int + 3, sum, total, total);
      AddTop(FP_1, 3, total);
    } else if sum == FP_1 as int + 2 {
      AddTop(FP_1, 2, total);
    }
  }

  lemma ShareBound(y: int32, total: int32)
    requires 0 <= y <= total && total > 0
    ensures MulDiv(y, FP_1, total).Some?
    ensures var r: int := MulDiv(y, FP_1, total).value;
      && 0 <= r
      && (total >= 2 ==> -total < 2 * (r * total - y * FP_1) <= total + 1)
      && (total == 1 ==> r == if y == 0 then 0 else FP_1 + 1)
  {
    if total >= 2 {
      MulMono(y, total, FP_1, FP_1);
      MulMono(total, total, FP_1, 0x7fff_ffff);
      MulDivNonNegative(y, FP_1, total);
    }
  }
}
