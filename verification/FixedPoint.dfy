/** The fixed-point arithmetic of png.c: a 32x32->64 bit multiply on 16-bit
    limbs followed by a shift-and-subtract division, proved against the plain
    rational it stands for. */
module FixedPoint {
  import opened Arithmetic

  /** PNG_FP_1: the fixed-point representation of 1.0 */
  const FP_1: int32 := 100000

  function Magnitude(x: int32): uint32 {
    var n: int := x;
    if n < 0 then -n else n
  }

  // ---------------------------------------------------------------- specification

  /** `p / d` with a remainder of at least `d / 2` (floor) rounded up. */
  function Rounded(p: nat, d: nat): nat
    requires d > 0
  {
    p / d + if p % d >= d / 2 then 1 else 0
  }

  predicate NegativeResult(a: int32, times: int32, divisor: int32) {
    ((a < 0) != (times < 0)) != (divisor < 0)
  }

  function WithSign(negative: bool, r: int): int {
    if negative then -r else r
  }

  /** The quotient is the largest 32-bit number and is rounded up: the one case
      in which the increment wraps. */
  predicate IncrementWraps(p: nat, d: nat)
    requires d > 0
  {
    p / d == TWO_32 - 1 && p % d >= d / 2
  }

  /** What png_muldiv computes: None is the failure return, and an increment
      that wraps to 0 is reported as a success. */
  function MulDiv(a: int32, times: int32, divisor: int32): Option<int32> {
    if divisor == 0 then None
    else if a == 0 || times == 0 then Some(0)
    else
      var p, d := Magnitude(a) * Magnitude(times), Magnitude(divisor);
      var v := WithSign(NegativeResult(a, times, divisor), Rounded(p, d));
      if IncrementWraps(p, d) then Some(0)
      else if FitsInt32(v) then Some(v)
      else None
  }

  /** png_reciprocal: 1/a in fixed point, 0 on error. */
  function Reciprocal(a: int32): int32 {
    match MulDiv(FP_1, FP_1, a)
    case Some(v) => v
    case None => 0
  }

  // ---------------------------------------------------------------- the algorithm

  /** The two halves the loop compares against are the 64-bit D << bitshift. */
  lemma ShiftHalves(d: uint32, b: nat)
    requires 0 < b < 32
    ensures Pow2(32 - b) > 0
    ensures d / Pow2(32 - b) < TWO_32
    ensures d * Pow2(b) == (d / Pow2(32 - b)) * TWO_32 + (d * Pow2(b)) % TWO_32
  {
    Pow2Positive(b);
    Pow2Positive(32 - b);
    Pow2Add(32 - b, b);
    Pow2Of32();
    DivMulCancel(d, Pow2(b), Pow2(32 - b));
    DivShrinks(d, Pow2(32 - b));
  }

  /** The 16-bit-limb product: none of the 32-bit temporaries wraps except the
      deliberate carry, and the pair of words is the exact product. */
  method Product(a: uint32, t: uint32) returns (s32: uint32, s00: uint32)
    requires a <= TWO_31 && t <= TWO_31
    ensures s32 * TWO_32 + s00 == a * t
  {
    var ah, al := HalfWords(a);
    var th, tl := HalfWords(t);
    LimbBounds(ah, al, th, tl);
    LimbProduct(ah, al, th, tl);
    s32, s00 := CarryLimbs(ah * th, ah * tl + al * th, al * tl);
  }

  method HalfWords(x: uint32) returns (high: uint32, low: uint32)
    ensures low < TWO_16 && x == high * TWO_16 + low
  {
    high, low := x / TWO_16, x % TWO_16;
  }

  /** Adds the middle limb, shifted by 16 bits, into the two words. */
  method CarryLimbs(high: uint32, mid: uint32, low: uint32) returns (s32: uint32, s00: uint32)
    requires high <= 0x4000_0000
    ensures s32 * TWO_32 + s00 == high * TWO_32 + mid * TWO_16 + low
  {
    var midHigh, midLow := HalfWords(mid);
    WrapOnce(high + midHigh);
    WrapOnce(midLow * TWO_16);
    s32 := WrapU32(high + midHigh);
    var s16 := WrapU32(midLow * TWO_16);
    WrapOnce(low + s16);
    s00 := WrapU32(low + s16);
    if s00 < s16 {
      WrapOnce(s32 + 1);
      s32 := WrapU32(s32 + 1);
    }
  }

  lemma LimbProduct(ah: nat, al: nat, th: nat, tl: nat)
    ensures (ah * TWO_16 + al) * (th * TWO_16 + tl)
         == ah * th * TWO_32 + (ah * tl + al * th) * TWO_16 + al * tl
  {
  }

  lemma LimbBounds(ah: nat, al: nat, th: nat, tl: nat)
    requires al < TWO_16 && tl < TWO_16
    requires ah * TWO_16 + al <= TWO_31 && th * TWO_16 + tl <= TWO_31
    ensures 0 <= ah * tl + al * th < TWO_32
    ensures 0 <= al * tl < TWO_32
    ensures 0 <= ah * th <= 0x4000_0000
  {
    MulMono(ah, 32768, th, 32768);
    MulMono(al, 65535, tl, 65535);
    if ah == 32768 || th == 32768 {
      MulMono(ah, 32768, tl, 65535);
      MulMono(al, 65535, th, 32768);
    } else {
      MulMono(ah, 32767, tl, 65535);
      MulMono(al, 65535, th, 32767);
    }
  }

  /** One trial subtraction: compare s32.s00 with d32.d00 and subtract if it
      fits, in 32-bit words, with the borrow taken from the high word. */
  method TrialSubtract(s32: uint32, s00: uint32, d32: uint32, d00: uint32)
    returns (h: uint32, l: uint32, took: bool)
    ensures took <==> s32 * TWO_32 + s00 >= d32 * TWO_32 + d00
    ensures h * TWO_32 + l ==
            s32 * TWO_32 + s00 - if took then d32 * TWO_32 + d00 else 0
  {
    h, l, took := s32, s00, false;
    if h > d32 {
      if l < d00 {
        h := h - 1;
      }
      h, l, took := WrapU32(h - d32), WrapU32(l - d00), true;
    } else if h == d32 && l >= d00 {
      h, l, took := 0, WrapU32(l - d00), true;
    }
  }

  /** The shift-subtract loop: quotient (modulo 2^32, in a signed word) and
      remainder of the 64-bit s32.s00 by D. `undefined` says that a signed operation
      has overflowed, which C leaves undefined. */
  method Divide(hi: uint32, lo: uint32, d: uint32)
    returns (result: int32, rem: uint32, ghost undefined: bool)
    requires hi < d <= TWO_31
    ensures var p := hi * TWO_32 + lo;
      p / d < TWO_32 && result == Wrap32(p / d) && rem == p % d
    ensures undefined <==> (hi * TWO_32 + lo) / d >= TWO_31
  {
    hide BitsAbove, Wrap32;
    ghost var p, q, qd, top := hi * TWO_32 + lo, 0, 0, d * TWO_32;
    var s32: uint32, s00: uint32 := hi, lo;
    var bitshift := 32;
    result, undefined := 0, false;
    Pow2Of32();
    NoBits();
    while bitshift > 0
      invariant 0 <= bitshift <= 32
      invariant BitsAbove(q, bitshift) && (undefined <==> q >= TWO_31)
      invariant q >= 0 && qd == q * d && top == d * Pow2(bitshift)
      invariant qd + s32 * TWO_32 + s00 == p
      invariant s32 * TWO_32 + s00 < top
      invariant result == Wrap32(q)
    {
      bitshift := bitshift - 1;
      HalveTop(d, bitshift);
      top := d * Pow2(bitshift);
      var d32, d00 := ShiftDivisor(d, bitshift);
      var took;
      s32, s00, took := TrialSubtract(s32, s00, d32, d00);
      NextBit(q, bitshift);
      if took {
        AddTop(q, Pow2(bitshift), d);
        ghost var over;
        result, over := AddBit(result, bitshift, q);
        undefined := undefined || over;
        q, qd := q + Pow2(bitshift), qd + top;
      }
    }
    DivUnique(p, d, q, s32 * TWO_32 + s00);
    QuotientFits(hi, lo, d);
    rem := s00;
  }

  /** q has no bits below `bit`, as far as its size goes. */
  predicate BitsAbove(q: int, bit: nat) {
    0 <= q <= TWO_32 - Pow2(bit) && (q < TWO_31 && bit < 32 ==> q <= TWO_31 - Pow2(bit))
  }

  lemma NoBits()
    ensures BitsAbove(0, 32) && Wrap32(0) == 0
  {
    Pow2Of32();
  }

  /** result += 1 << bit */
  method AddBit(result: int32, bit: nat, ghost q: int) returns (sum: int32, ghost over: bool)
    requires bit < 32 && BitsAbove(q, bit + 1) && result == Wrap32(q)
    ensures sum == Wrap32(q + Pow2(bit)) && (over <==> bit == 31)
  {
    NextBit(q, bit);
    WrapAdd(q, Pow2(bit));
    over := !FitsInt32(Pow2(bit)) || !FitsInt32(result as int + Pow2(bit));
    sum := Wrap32(result as int + Pow2(bit));
  }

  /** Only 1 << 31 overflows. */
  lemma NextBit(q: int, bit: nat)
    requires bit < 32 && BitsAbove(q, bit + 1)
    ensures BitsAbove(q, bit) && BitsAbove(q + Pow2(bit), bit)
    ensures q + Pow2(bit) >= TWO_31 <==> q >= TWO_31 || bit == 31
    ensures FitsInt32(Pow2(bit)) && FitsInt32(Wrap32(q) as int + Pow2(bit)) <==> bit < 31
  {
    Pow2Of32();
    Pow2Positive(bit);
    if bit < 31 {
      Pow2Grows(bit, 30);
    }
  }

  lemma {:induction false} Pow2Grows(m: nat, n: nat)
    requires m <= n
    ensures Pow2(m) <= Pow2(n)
  {
    if m < n {
      Pow2Grows(m, n - 1);
    }
  }

  lemma HalveTop(d: int, b: nat)
    ensures d * Pow2(b + 1) == 2 * (d * Pow2(b))
  {
  }

  lemma QuotientFits(hi: uint32, lo: uint32, d: uint32)
    requires hi < d
    ensures (hi * TWO_32 + lo) / d < TWO_32
  {
    var p := hi * TWO_32 + lo;
    DivMod(p, d);
    if p / d >= TWO_32 {
      MulMono(TWO_32, p / d, d, d);
    }
  }

  method ShiftDivisor(d: uint32, bitshift: nat) returns (d32: uint32, d00: uint32)
    requires bitshift < 32
    ensures d32 * TWO_32 + d00 == d * Pow2(bitshift)
  {
    if bitshift > 0 {
      ShiftHalves(d, bitshift);
      d32, d00 := d / Pow2(32 - bitshift), WrapU32(d * Pow2(bitshift));
    } else {
      d32, d00 := 0, d;
    }
  }

  /** The high word of the product is below the divisor, and the rounded quotient does not fit
      in 31 bits: exactly then a signed operation behind the product overflows. */
  predicate WordOverflows(p: nat, d: nat)
    requires d > 0
  {
    p / TWO_32 < d && Rounded(p, d) >= TWO_31
  }

  /** When png_muldiv is undefined in C: a signed word overflows there, or the most negative
      number is negated on entry. */
  predicate MulDivUndefined(a: int32, times: int32, divisor: int32) {
    && a != 0 && times != 0 && divisor != 0
    && (|| a == -TWO_31 || times == -TWO_31 || divisor == -TWO_31
        || WordOverflows(Magnitude(a) * Magnitude(times), Magnitude(divisor)))
  }

  /** png_muldiv, integer branch, for every triple of 32-bit arguments, with wrapping words. */
  method Muldiv(a: int32, times: int32, divisor: int32) returns (ok: bool, res: int32, ghost undefined: bool)
    ensures ok <==> MulDiv(a, times, divisor).Some?
    ensures ok ==> res == MulDiv(a, times, divisor).value
    ensures undefined <==> MulDivUndefined(a, times, divisor)
  {
    hide MulDiv, MulDivUndefined, WordOverflows, Rounded, IncrementWraps, NegativeResult, Magnitude;
    ok, res, undefined := false, 0, false;
    MulDivTrivial(a, times, divisor);
    if divisor != 0 {
      if a == 0 || times == 0 {
        return true, 0, false;
      }
      var negative, A, T, D;
      negative, A, T, D, undefined := Magnitudes(a, times, divisor);
      var s32, s00 := Product(A, T);
      ghost var p: nat := A as int * T as int;
      HighWord(s32, s00, p);
      MulDivIs(a, times, divisor);
      if s32 < D {
        var result, rem, wrapped := Divide(s32, s00, D);
        ok, res, wrapped := Finish(result, rem, D, negative, wrapped, p);
        undefined := undefined || wrapped;
        NoOverflow(p, D);
      } else {
        TooBig(p, D, negative);
      }
    }
  }

  /** The sign of the result and the absolute values */
  method Magnitudes(a: int32, times: int32, divisor: int32)
    returns (negative: bool, A: uint32, T: uint32, D: uint32, ghost undefined: bool)
    ensures negative == NegativeResult(a, times, divisor)
    ensures A == Magnitude(a) <= TWO_31 && T == Magnitude(times) <= TWO_31 && D == Magnitude(divisor) <= TWO_31
    ensures divisor != 0 ==> D > 0
    ensures undefined <==> a == -TWO_31 || times == -TWO_31 || divisor == -TWO_31
  {
    undefined := (a < 0 && !FitsInt32(0 - a)) || (times < 0 && !FitsInt32(0 - times))
                 || (divisor < 0 && !FitsInt32(0 - divisor));
    negative := a < 0;
    A := Magnitude(a);
    if times < 0 { negative := !negative; }
    T := Magnitude(times);
    if divisor < 0 { negative := !negative; }
    D := Magnitude(divisor);
  }

  lemma MulDivTrivial(a: int32, times: int32, divisor: int32)
    ensures divisor == 0 ==> MulDiv(a, times, divisor) == None
    ensures divisor != 0 && (a == 0 || times == 0) ==> MulDiv(a, times, divisor) == Some(0)
    ensures a == 0 || times == 0 || divisor == 0 ==> !MulDivUndefined(a, times, divisor)
  {
  }

  lemma MulDivIs(a: int32, times: int32, divisor: int32)
    requires a != 0 && times != 0 && divisor != 0
    ensures Magnitude(divisor) > 0
    ensures var p, d := Magnitude(a) * Magnitude(times), Magnitude(divisor);
      var v := WithSign(NegativeResult(a, times, divisor), Rounded(p, d));
      && MulDiv(a, times, divisor) ==
           (if IncrementWraps(p, d) then Some(0) else if FitsInt32(v) then Some(v) else None)
      && (MulDivUndefined(a, times, divisor) <==>
            a == -TWO_31 || times == -TWO_31 || divisor == -TWO_31 || WordOverflows(p, d))
  {
    hide Rounded, IncrementWraps;
  }

  lemma HighWord(s32: uint32, s00: uint32, p: nat)
    requires p == s32 * TWO_32 + s00
    ensures p / TWO_32 == s32
  {
    DivUnique(p, TWO_32, s32, s00);
  }

  lemma NoOverflow(p: nat, d: nat)
    requires 0 < d && p / TWO_32 < d
    ensures WordOverflows(p, d) <==> Rounded(p, d) >= TWO_31
  {
  }

  /** The rounding and the sign test */
  method Finish(quotient: int32, rem: uint32, D: uint32, negative: bool, ghost wrapped: bool, ghost p: nat)
    returns (accepted: bool, result: int32, ghost undefined: bool)
    requires D > 0 && p / D < TWO_32 && quotient == Wrap32(p / D) && rem == p % D
    requires wrapped <==> p / D >= TWO_31
    ensures accepted <==> Rounded(p, D) == TWO_32 || FitsInt32(WithSign(negative, Rounded(p, D)))
    ensures accepted ==> result == if Rounded(p, D) == TWO_32 then 0 else WithSign(negative, Rounded(p, D))
    ensures Rounded(p, D) == TWO_32 <==> IncrementWraps(p, D)
    ensures undefined <==> Rounded(p, D) >= TWO_31
  {
    ghost var q := p / D;
    result, undefined := quotient, wrapped;
    if rem >= D / 2 {
      WrapAdd(q, 1);
      undefined := undefined || !FitsInt32(result as int + 1);
      result := Wrap32(result as int + 1);
      q := q + 1;
    }
    assert q == Rounded(p, D);
    SignCheck(q, negative);
    if negative {
      undefined := undefined || !FitsInt32(0 - result as int);
      result := Wrap32(0 - result as int);
    }
    accepted := (negative && result <= 0) || (!negative && result >= 0);
  }

  /** The sign test after the division: it accepts exactly the results that fit
      in 32 bits, and the magnitude 2^32, which has wrapped to zero. */
  lemma SignCheck(r: nat, negative: bool)
    requires r <= TWO_32
    ensures
      var w: int := Wrap32(r);
      var w' := if negative then Wrap32(-w) else w;
      && ((if negative then w' <= 0 else w' >= 0)
          <==> r == TWO_32 || FitsInt32(WithSign(negative, r)))
      && ((if negative then w' <= 0 else w' >= 0)
          ==> w' == if r == TWO_32 then 0 else WithSign(negative, r))
  {
  }

  lemma TooBig(p: nat, d: nat, negative: bool)
    requires 0 < d && p / TWO_32 >= d
    ensures !IncrementWraps(p, d) && !FitsInt32(WithSign(negative, Rounded(p, d))) && !WordOverflows(p, d)
  {
    DivMod(p, d);
    if p / d < TWO_32 {
      MulMono(p / d, TWO_32 - 1, d, d);
    }
  }

  // ---------------------------------------------------------------- properties

  /** Distance of the rounded quotient from the exact one, in units of 1/(2d). */
  lemma RoundedError(p: nat, d: nat)
    requires d > 0
    ensures 2 * (p - Rounded(p, d) * d) < d
    ensures 2 * (Rounded(p, d) * d - p) <= d + 1
    ensures d >= 2 ==> Rounded(p, d) * d - p < d
  {
    DivMod(p, d);
    AddTop(p / d, 1, d);
  }

  /** `r` is a nearest integer to p / d. */
  predicate IsNearest(r: int, p: nat, d: nat) {
    2 * (p - r * d) <= d && 2 * (r * d - p) <= d
  }

  /** The header comment promises rounding to the nearest integer. The integer
      branch keeps the promise exactly when the divisor is even or the remainder
      is not the one just below half of an odd divisor. */
  lemma NearestIff(p: nat, d: nat)
    requires d > 0
    ensures IsNearest(Rounded(p, d), p, d) <==> (d % 2 == 0 || p % d != d / 2)
  {
    DivMod(p, d);
    AddTop(p / d, 1, d);
  }

  /** Multiplying and dividing by one does not give the argument back. */
  lemma RoundingCounterexample()
    ensures MulDiv(3, 1, 1) == Some(4)
    ensures MulDiv(1, 4, 3) == Some(2)
  {
  }

  /** png_muldiv reports success exactly when the rounded value fits in 32 bits,
      for all arguments except those whose increment wraps. */
  lemma FailsExactlyOnOverflow(a: int32, times: int32, divisor: int32)
    requires a != 0 && times != 0 && divisor != 0
    ensures
      var p, d := Magnitude(a) * Magnitude(times), Magnitude(divisor);
      var v := WithSign(NegativeResult(a, times, divisor), Rounded(p, d));
      MulDiv(a, times, divisor) == (if FitsInt32(v) then Some(v) else None)
      <==> !IncrementWraps(p, d)
  {
  }

  lemma IncrementWrapsCounterexample()
    ensures IncrementWraps(65535 * 65537, 1)
    ensures MulDiv(65535, 65537, 1) == Some(0)
  {
  }

  /** A result that fits, from the product of the magnitudes. */
  lemma MulDivSigned(a: int32, times: int32, divisor: int32, p: nat)
    requires divisor >= 2 && p == Magnitude(a) * Magnitude(times)
    requires Rounded(p, divisor) < TWO_31
    ensures MulDiv(a, times, divisor)
         == Some(WithSign((a < 0) != (times < 0), Rounded(p, divisor)))
  {
    if a == 0 || times == 0 {
      assert p == 0;
      DivUnique(0, divisor, 0, 0);
    }
  }

  /** The workhorse for callers: non-negative arguments and a quotient that fits. */
  lemma MulDivNonNegative(a: int32, times: int32, divisor: int32)
    requires a >= 0 && times >= 0 && divisor >= 2
    requires a * times <= divisor * (TWO_31 - 1)
    ensures MulDiv(a, times, divisor).Some?
    ensures var r: int := MulDiv(a, times, divisor).value;
      && 0 <= r
      && r * divisor < a * times + divisor
      && -divisor < 2 * (r * divisor - a * times) <= divisor + 1
  {
    var p, d := a * times, divisor;
    RoundedError(p, d);
    if Rounded(p, d) >= TWO_31 {
      MulMono(TWO_31, Rounded(p, d), d, d);
    }
  }

  /** The reciprocal of any value the chromaticity code inverts: it exists, is
      positive, and is the nearest value or half a unit off. */
  lemma ReciprocalBound(a: int32)
    requires 5 <= a
    ensures var r: int := Reciprocal(a);
      && 0 <= r <= 2000000000
      && -a < 2 * (r * a - 10000000000) <= a + 1
  {
    MulDivNonNegative(FP_1, FP_1, a);
    var r: int := Reciprocal(a);
    if r > 2000000000 {
      MulMono(2000000001, r, 5, a);
      AddTop(r - 1, 1, a);
      MulMono(2000000000, r - 1, 5, a);
    }
  }
}
