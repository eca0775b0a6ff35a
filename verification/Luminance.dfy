/** The Y values of end points that passed png_colorspace_check_xy: their total is never 0
    or 1, so the RGB-to-gray coefficients can always be computed from them. */
module Luminance {
  import opened Arithmetic
  import opened FixedPoint
  import opened Chromaticity

  function YTotal(z: XYZ): int {
    z.redY as int + z.greenY as int + z.blueY as int
  }

  /** Fit for RGB-to-gray: non-negative Y values with a total of at least 2 that fits. */
  predicate Luminous(z: XYZ) {
    z.redY >= 0 && z.greenY >= 0 && z.blueY >= 0 && 2 <= YTotal(z) < TWO_31
  }

  /** The sum of all nine values. */
  function Grand(z: XYZ): int {
    Total(z.redX, z.redY, z.redZ) + Total(z.greenX, z.greenY, z.greenZ) + Total(z.blueX, z.blueY, z.blueZ)
  }

  // ---------------------------------------------------------------- the scales add up

  lemma ScaleSumLow(sum: int, inverse: int32)
    requires 6 <= inverse && -3 * inverse < 2 * (sum * inverse - 10000000000)
    ensures sum >= Reciprocal(inverse) as int - 2
  {
    ReciprocalBound(inverse);
    var r: int := Reciprocal(inverse);
    if sum <= r - 3 {
      Distribute(r, r - sum, inverse);
      MulMono(3, r - sum, inverse, inverse);
    }
  }

  lemma EndPointSum(x: int, y: int, X: int, Y: int, Z: int, inverse: int32)
    requires inverse >= 6 && NearQuotient(X, x * FP_1, inverse) && NearQuotient(Y, y * FP_1, inverse)
    requires NearQuotient(Z, (FP_1 - x - y) * FP_1, inverse)
    ensures Total(X, Y, Z) >= Reciprocal(inverse) as int - 2
  {
    hide Reciprocal;
    AddTop3(X, Y, Z, inverse);
    ScaleSumLow(Total(X, Y, Z), inverse);
  }

  lemma BlueSum(x: int, y: int, X: int, Y: int, Z: int, scale: int)
    requires NearQuotient(X, x * scale, FP_1) && NearQuotient(Y, y * scale, FP_1)
    requires NearQuotient(Z, (FP_1 - x - y) * scale, FP_1)
    ensures Total(X, Y, Z) >= scale - 1
  {
    AddTop3(x, y, FP_1 - x - y, scale);
  }

  /** The three sums are the three scales, and these add up to 1/whitey. */
  lemma GrandTotal(xy: Xy, z: XYZ, redInverse: int32, greenInverse: int32)
    requires Acceptable(xy) && Scaled(xy, z, redInverse, greenInverse)
    ensures Grand(z) >= Reciprocal(xy.whitey) as int - 5
  {
    hide Reciprocal, NearQuotient, Total;
    EndPointSum(xy.redx, xy.redy, z.redX, z.redY, z.redZ, redInverse);
    EndPointSum(xy.greenx, xy.greeny, z.greenX, z.greenY, z.greenZ, greenInverse);
    BlueSum(xy.bluex, xy.bluey, z.blueX, z.blueY, z.blueZ,
            Reciprocal(xy.whitey) as int - Reciprocal(redInverse) as int - Reciprocal(greenInverse) as int);
  }

  // ---------------------------------------------------------------- whitey above 5

  /** The round trip brings whitey back within 5, which a dark white point cannot do. */
  lemma BrightWhite(whitey: int32, back: int32, grand: int, y: int)
    requires whitey >= 6 && back >= whitey - 5
    requires grand >= Reciprocal(whitey) as int - 5 && whitey <= 100000
    requires NearQuotient(back, y * FP_1, grand)
    ensures y >= 2
  {
    hide Reciprocal;
    GrandTimesWhite(whitey, grand);
    if y <= 1 {
      assert (2 * back - 1) * grand <= 200001 by {
        AddTop(2 * back, -1, grand);
        Associate(2, back, grand);
      }
      DarkWhite(whitey, 2 * back - 1, grand);
    }
  }

  lemma GrandTimesWhite(whitey: int32, grand: int)
    requires 6 <= whitey <= 100000 && grand >= Reciprocal(whitey) as int - 5
    ensures grand > 0 && grand * whitey > 9000000000
  {
    hide Reciprocal;
    ReciprocalBound(whitey);
    var r: int := Reciprocal(whitey);
    Distribute(r, 5, whitey);
    if r <= 5 {
      MulMono(r, 5, whitey, whitey);
    }
    MulMono(r - 5, grand, whitey, whitey);
  }

  lemma DarkWhite(whitey: nat, twice: nat, grand: nat)
    requires whitey >= 6 && twice >= 2 * whitey - 11 && grand * whitey > 9000000000
    ensures twice * grand > 200001
  {
    if whitey <= 10 {
      MulMono(1, twice, grand, grand);
      MulMono(grand, grand, whitey, 10);
    } else {
      MulMono(whitey, twice, grand, grand);
    }
  }

  // ---------------------------------------------------------------- whitey 5, blue not on the axis

  lemma TimesPositive(x: int, v: nat)
    requires x > 0 && v > 0
    ensures x * v > 0
  {
  }

  lemma TimesNonPositive(x: int, v: nat)
    requires x <= 0
    ensures x * v <= 0
  {
  }

  /** (1/5 - 1/u - 1/v) u v, exactly and with rounded reciprocals p and q, in units of 10^-10. */
  lemma ScaleProduct(u: nat, v: nat, p: int, q: int)
    requires u >= 6 && v >= 6
    requires 0 < 2 * (p * u - 10000000000) + u <= 2 * u + 1
    requires 0 < 2 * (q * v - 10000000000) + v <= 2 * v + 1
    ensures var gap, uv, s := 4000000000 * ((u - 5) * (v - 5) - 25), u * v, 2000000000 - p - q;
      gap - 3 * uv <= 2 * (s * uv) < gap + 2 * uv
  {
    var uv := u * v;
    var A, B := p * u, q * v;
    TimesPositive(2 * A - 20000000000 + u, v);
    TimesPositive(2 * B - 20000000000 + v, u);
    TimesNonPositive(2 * A - 20000000000 - u - 1, v);
    TimesNonPositive(2 * B - 20000000000 - v - 1, u);
    Spread(A, u, v);
    Spread(B, v, u);
    ProductForms(p, q, u, v);
    MulMono(6, u, v, v);
    MulMono(6, v, u, u);
  }

  lemma Spread(A: int, u: int, v: int)
    ensures (2 * A - 20000000000 + u) * v == 2 * (A * v) - 20000000000 * v + u * v
    ensures (2 * A - 20000000000 - u - 1) * v == 2 * (A * v) - 20000000000 * v - u * v - v
  {
  }

  lemma ProductForms(p: int, q: int, u: int, v: int)
    ensures (2000000000 - p - q) * (u * v) == 2000000000 * (u * v) - (p * u) * v - (q * v) * u
    ensures (u - 5) * (v - 5) == u * v - 5 * u - 5 * v + 25
    ensures v * u == u * v
  {
    Associate(p, u, v);
    Associate(q, v, u);
    AddTop(2000000000 - p, -q, u * v);
    AddTop(2000000000, -p, u * v);
  }

  /** A blue scale that is positive is large. */
  lemma BlueScaleLarge(u: int32, v: int32)
    requires u >= 6 && v >= 6
    ensures var s := 2000000000 - Reciprocal(u) as int - Reciprocal(v) as int;
      s <= 0 || s >= 200000
  {
    hide Reciprocal;
    ReciprocalBound(u);
    ReciprocalBound(v);
    var p: int, q: int := Reciprocal(u), Reciprocal(v);
    ScaleProduct(u, v, p, q);
    var P, uv, s := (u - 5) * (v - 5), u * v, 2000000000 - p - q;
    ProductBound(u, v);
    if s > 0 {
      MulMono(1, s, uv, uv);
      assert P >= 26;
      if s < 200000 {
        MulMono(s, 199999, uv, uv);
      }
    }
  }

  lemma ProductBound(u: nat, v: nat)
    requires u >= 6 && v >= 6
    ensures var P := (u - 5) * (v - 5);
      1 <= P && 36 <= u * v <= 6 * P + 30
  {
    MulMono(1, u - 5, 1, v - 5);
    MulMono(6, u, 6, v);
    MulMono(0, u - 6, 0, v - 6);
    ShiftedProducts(u, v);
  }

  lemma ShiftedProducts(u: int, v: int)
    ensures (u - 5) * (v - 5) == u * v - 5 * u - 5 * v + 25
    ensures (u - 6) * (v - 6) == u * v - 6 * u - 6 * v + 36
  {
  }

  lemma ReciprocalOf5()
    ensures Reciprocal(5) == 2000000000
  {
    ReciprocalBound(5);
  }

  lemma BrightBlue(xy: Xy, z: XYZ, redInverse: int32, greenInverse: int32)
    requires Acceptable(xy) && xy.whitey == 5 && xy.bluey >= 1
    requires Scaled(xy, z, redInverse, greenInverse)
    ensures z.blueY >= 2
  {
    hide Reciprocal;
    ReciprocalOf5();
    BlueScaleLarge(redInverse, greenInverse);
    var s: int := Reciprocal(xy.whitey) as int - Reciprocal(redInverse) as int - Reciprocal(greenInverse) as int;
    MulMono(1, xy.bluey, 200000, s);
  }

  // ---------------------------------------------------------------- whitey 5, blue on the axis

  /** 7 a is within 8 of b, so 7 a k is within 8 k of b k. */
  lemma NearTimes(a: int, b: int, k: nat)
    requires NearSeventh(a, b)
    ensures 7 * (a * k) >= b * k - 8 * k
  {
    TimesNonPositive(b - 7 * a - 8, k);
    assert (b - 7 * a - 8) * k == b * k - 7 * (a * k) - 8 * k;
  }

  /** How small one end point's Y value can be: less than `factor` halves. */
  predicate DarkerThan(y: nat, inverse: nat, factor: nat) {
    200000 * y < factor * inverse
  }

  lemma DarkBound(y: nat, inverse: nat, numerator: nat, d: nat, factor: nat)
    requires inverse >= 6 && numerator >= 1 && d >= 1
    requires 2 * (inverse * numerator - 5 * d) <= numerator + 1
    requires DarkerThan(y, inverse, factor)
    ensures numerator <= d
    ensures 400000 * (y * numerator) <= factor * (11 * d + 1)
    ensures 400000 * y <= factor * (11 * d + 1)
  {
    var A := inverse * numerator;
    MulMono(6, inverse, numerator, numerator);
    assert numerator <= d && 2 * A <= 11 * d + 1;
    MulMono(inverse, inverse, 1, numerator);
    MulMono(factor, factor, 2 * A, 11 * d + 1);
    MulMono(factor, factor, inverse, A);
    MulMono(200000 * y, factor * inverse, numerator, numerator);
    Associate(200000, y, numerator);
    Associate(factor, inverse, numerator);
    Double(factor, A);
  }

  lemma Double(a: int, b: int)
    ensures a * (2 * b) == 2 * (a * b)
  {
  }

  /** The mixture of the end points to the white point, on the axis: dark end points cannot
      reach it unless they lie on the axis too. */
  lemma DarkOnAxis(D: int, N1: int, N2: int, ry: nat, gy: nat, d: nat, rn: nat, gn: nat, ri: nat, gi: nat,
                   f1: nat, f2: nat)
    requires N1 * ry + N2 * gy == 5 * D
    requires NearSeventh(d, D) && NearSeventh(rn, N1) && NearSeventh(gn, N2)
    requires d >= 1 && rn >= 1 && gn >= 1 && ri >= 6 && gi >= 6
    requires 2 * (ri * rn - 5 * d) <= rn + 1 && 2 * (gi * gn - 5 * d) <= gn + 1
    requires DarkerThan(ry, ri, f1) && DarkerThan(gy, gi, f2) && f1 + f2 <= 4
    ensures ry == 0 && gy == 0
  {
    hide NearSeventh, DarkerThan;
    AxisMixture(D, N1, N2, ry, gy, d, rn, gn);
    DarkBound(ry, ri, rn, d, f1);
    DarkBound(gy, gi, gn, d, f2);
    DarkSum(ry * rn, gy * gn, f1, f2, 11 * d + 1);
    DarkSum(ry, gy, f1, f2, 11 * d + 1);
    DarkContradiction(ry * rn + gy * gn, ry + gy, d);
  }

  lemma DarkSum(a: int, b: int, f1: nat, f2: nat, m: nat)
    requires 400000 * a <= f1 * m && 400000 * b <= f2 * m && f1 + f2 <= 4
    ensures 400000 * (a + b) <= 4 * m
  {
    AddTop(f1, f2, m);
    MulMono(f1 + f2, 4, m, m);
  }

  lemma DarkContradiction(t: nat, s: nat, d: nat)
    requires 7 * t >= 35 * d - 40 - 8 * s
    requires 400000 * t <= 4 * (11 * d + 1) && 400000 * s <= 4 * (11 * d + 1)
    ensures s == 0
  {
  }

  lemma AxisMixture(D: int, N1: int, N2: int, ry: nat, gy: nat, d: nat, rn: nat, gn: nat)
    requires N1 * ry + N2 * gy == 5 * D
    requires NearSeventh(d, D) && NearSeventh(rn, N1) && NearSeventh(gn, N2)
    ensures 7 * (ry * rn + gy * gn) >= 35 * d - 40 - 8 * (ry + gy)
  {
    NearTimes(rn, N1, ry);
    NearTimes(gn, N2, gy);
  }

  lemma InverseSign(inverse: int, denominator: int, numerator: int)
    requires inverse >= 6 && InverseOf(inverse, 5, denominator, numerator)
    ensures denominator != 0 && ((denominator > 0) <==> (numerator > 0))
  {
    if numerator > 0 {
      MulMono(6, inverse, numerator, numerator);
    } else {
      MulMono(6, inverse, -numerator, -numerator);
      SignFlip(inverse, numerator);
    }
  }

  lemma BrightAxis(xy: Xy, z: XYZ, d: int32, rn: int32, gn: int32, ri: int32, gi: int32)
    requires Acceptable(xy) && xy.whitey == 5 && xy.bluey == 0 && NonNegative(z)
    requires Solves(xy, z, d, rn, gn, ri, gi)
    requires Done(d) == ScaledDeterminant(xy.greenx - xy.bluex, xy.redy - xy.bluey,
                                          xy.greeny - xy.bluey, xy.redx - xy.bluex)
    ensures YTotal(z) >= 2
  {
    hide Reciprocal, ScaledDeterminant, DetRGB, DetWGB, DetRWB, DetRGW, NearSeventh, InverseOf, NearQuotient;
    if YTotal(z) <= 1 {
      var f1, f2 := 2 * z.redY + 1, 2 * z.greenY + 1;
      Darkness(xy.redy, z.redY, ri);
      Darkness(xy.greeny, z.greenY, gi);
      MixtureOnAxis(xy);
      DarkOnAxisSigned(DetRGB(xy), DetWGB(xy), DetRWB(xy), xy.redy, xy.greeny, d, rn, gn, ri, gi, f1, f2);
      FlatTriangle(xy.greenx - xy.bluex, xy.redx - xy.bluex);
      InverseSign(ri, d, rn);
    }
  }

  lemma MixtureOnAxis(xy: Xy)
    requires xy.whitey == 5 && xy.bluey == 0
    ensures DetWGB(xy) * xy.redy + DetRWB(xy) * xy.greeny == 5 * DetRGB(xy)
  {
    hide DetRGB, DetWGB, DetRWB, DetRGW;
    WeightsMixToWhite(xy);
  }

  lemma Darkness(y: nat, v: nat, inverse: nat)
    requires NearQuotient(v, y * FP_1, inverse)
    ensures DarkerThan(y, inverse, 2 * v + 1)
  {
    AddTop(2 * v, 1, inverse);
    Associate(2, v, inverse);
  }

  /** The same for numerators and denominator of either sign. */
  lemma DarkOnAxisSigned(D: int, N1: int, N2: int, ry: nat, gy: nat, d: int, rn: int, gn: int, ri: nat, gi: nat,
                         f1: nat, f2: nat)
    requires N1 * ry + N2 * gy == 5 * D
    requires NearSeventh(d, D) && NearSeventh(rn, N1) && NearSeventh(gn, N2)
    requires ri >= 6 && gi >= 6 && InverseOf(ri, 5, d, rn) && InverseOf(gi, 5, d, gn)
    requires DarkerThan(ry, ri, f1) && DarkerThan(gy, gi, f2) && f1 + f2 <= 4
    ensures ry == 0 && gy == 0
  {
    hide DarkerThan, InverseOf, NearSeventh;
    InverseMagnitude(ri, d, rn);
    InverseMagnitude(gi, d, gn);
    if d > 0 {
      DarkOnAxis(D, N1, N2, ry, gy, d, rn, gn, ri, gi, f1, f2);
    } else {
      SeventhFlip(d, D);
      SeventhFlip(rn, N1);
      SeventhFlip(gn, N2);
      MixtureFlip(N1, N2, ry, gy);
      DarkOnAxis(-D, -N1, -N2, ry, gy, -d, -rn, -gn, ri, gi, f1, f2);
    }
  }

  lemma InverseMagnitude(inverse: int, d: int, numerator: int)
    requires inverse >= 6 && InverseOf(inverse, 5, d, numerator)
    ensures d != 0 && ((d > 0) <==> (numerator > 0)) && numerator != 0
    ensures 2 * (inverse * Abs(numerator) - 5 * Abs(d)) <= Abs(numerator) + 1
  {
    InverseSign(inverse, d, numerator);
    SignFlip(inverse, numerator);
  }

  lemma SeventhFlip(a: int, b: int)
    requires NearSeventh(a, b)
    ensures NearSeventh(-a, -b)
  {
  }

  lemma MixtureFlip(N1: int, N2: int, ry: int, gy: int)
    ensures (-N1) * ry + (-N2) * gy == -(N1 * ry + N2 * gy)
  {
  }

  /** With all end points on the axis the determinant is exactly 0. */
  lemma FlatTriangle(a: int32, b: int32)
    ensures ScaledDeterminant(a, 0, 0, b) == Done(0)
  {
  }

  // ---------------------------------------------------------------- the result

  /** Whatever passes png_colorspace_check_xy has a Y total of at least 2. */
  lemma CheckedIsBright(xy: Xy)
    ensures CheckXy(xy).Done? ==> Luminous(CheckXy(xy).value)
  {
    hide XyzFromXy, XyFromXyz, Acceptable, ScaledDeterminant, Reciprocal, NearSeventh, InverseOf;
    CheckXyTotal(xy);
    if CheckXy(xy).Done? {
      var z := CheckXy(xy).value;
      XyFromTameXyz(z);
      var d, rn, gn, ri, gi := Solution(xy);
      WhiteyRange(xy);
      if xy.whitey >= 6 {
        GrandTotal(xy, z, ri, gi);
        BrightWhite(xy.whitey, XyFromXyz(z).value.whitey, Grand(z), YTotal(z));
      } else if xy.bluey >= 1 {
        BrightBlue(xy, z, ri, gi);
      } else {
        BrightAxis(xy, z, d, rn, gn, ri, gi);
      }
    }
  }

  /** So have normalised end points. */
  lemma NormalizedIsBright(z: XYZ)
    ensures XyzNormalize(z).Done? ==> Luminous(XyzNormalize(z).value)
  {
    hide XyzNormalize;
    if XyzNormalize(z).Done? {
      NormalizeTotal(z);
    }
  }

  lemma WhiteyRange(xy: Xy)
    requires Acceptable(xy)
    ensures 5 <= xy.whitey <= 100000 && xy.bluey >= 0
  {
  }
}
