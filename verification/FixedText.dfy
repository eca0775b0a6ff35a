/** The fixed-point printer of png.c and its client, the sCAL setter: what is printed
    is exactly the value, and the recogniser accepts it. */
module FixedText {
  import opened Arithmetic
  import opened FixedPoint
  import opened FloatText

  function DigitChar(d: nat): char
    requires d < 10
  {
    (48 + d) as char
  }

  /** n without its k lowest decimal digits */
  function Shift(n: nat, k: nat): nat
    decreases k
  {
    if k == 0 then n else Shift(n, k - 1) / 10
  }

  function Digit(n: nat, k: nat): char {
    DigitChar(Shift(n, k) % 10)
  }

  /** The digits of n at the positions hi-1, ..., lo */
  function DigitRun(n: nat, hi: nat, lo: nat): string
    decreases hi - lo
  {
    if hi <= lo then "" else DigitRun(n, hi, lo + 1) + [Digit(n, lo)]
  }

  /** The number of decimal digits, 0 for 0 */
  function Length(n: nat): nat {
    if n == 0 then 0 else 1 + Length(n / 10)
  }

  /** The position of the lowest non-zero digit */
  function Lowest(n: nat): nat {
    if n == 0 || n % 10 != 0 then 0 else 1 + Lowest(n / 10)
  }

  /** What is printed for a fixed-point value of 100000 units to the whole. */
  function FixedNum(fp: int32): Num {
    var n := Magnitude(fp);
    Num(if fp < 0 then "-" else "",
        if n == 0 then "0" else DigitRun(n, Length(n), 5),
        n != 0 && Lowest(n) < 5,
        if n == 0 then "" else DigitRun(n, 5, Lowest(n)),
        "", "", "")
  }

  // ---------------------------------------------------------------- its value

  function DigitValue(c: char): nat
    requires IsDigit(c)
  {
    c as int - 48
  }

  function ToNat(s: string): nat
    requires Digits(s)
  {
    if s == "" then 0 else 10 * ToNat(s[..|s| - 1]) + DigitValue(s[|s| - 1])
  }

  function Pow10(k: nat): nat {
    if k == 0 then 1 else 10 * Pow10(k - 1)
  }

  /** The value of a number without exponent and with at most five decimals, in
      units of 1/100000. */
  function Scaled(n: Num): int
    requires WellFormed(n) && n.e == "" && |n.frac| <= 5
  {
    var units := ToNat(n.whole) * 100000 + ToNat(n.frac) * Pow10(5 - |n.frac|);
    if n.sign == "-" then -units else units
  }

  lemma {:induction false} RunDigits(n: nat, hi: nat, lo: nat)
    ensures Digits(DigitRun(n, hi, lo))
    ensures |DigitRun(n, hi, lo)| == if lo < hi then hi - lo else 0
    decreases hi - lo
  {
    if lo < hi {
      RunDigits(n, hi, lo + 1);
    }
  }

  lemma ShiftStep(n: nat, k: nat)
    ensures Shift(n, k) == 10 * Shift(n, k + 1) + Shift(n, k) % 10
  {
  }

  lemma ToNatSnoc(s: string, d: nat)
    requires Digits(s) && d < 10
    ensures Digits(s + [DigitChar(d)]) && ToNat(s + [DigitChar(d)]) == 10 * ToNat(s) + d
  {
    assert (s + [DigitChar(d)])[..|s|] == s;
  }

  /** h with k digits behind it, all zero. */
  function Scaled10(h: nat, k: nat): nat {
    h * Pow10(k)
  }

  /** The value of a run of digits: what lies above lo, less what lies above hi. */
  lemma {:induction false} RunValue(n: nat, hi: nat, lo: nat)
    requires lo <= hi
    ensures Digits(DigitRun(n, hi, lo))
    ensures ToNat(DigitRun(n, hi, lo)) + Scaled10(Shift(n, hi), hi - lo) == Shift(n, lo)
    decreases hi - lo
  {
    hide Shift, Digits, ToNat, Scaled10, DigitRun;
    RunDigits(n, hi, lo);
    if lo < hi {
      RunValue(n, hi, lo + 1);
      RunSnoc(n, hi, lo);
      ToNatSnoc(DigitRun(n, hi, lo + 1), Shift(n, lo) % 10);
      ShiftStep(n, lo);
      OneDigitFurther(Shift(n, hi), hi - lo - 1);
    } else {
      EmptyRun(n, hi);
    }
  }

  lemma EmptyRun(n: nat, hi: nat)
    ensures DigitRun(n, hi, hi) == "" && ToNat("") == 0 && Scaled10(Shift(n, hi), 0) == Shift(n, hi)
  {
  }

  lemma OneDigitFurther(h: nat, k: nat)
    ensures Scaled10(h, k + 1) == 10 * Scaled10(h, k)
  {
    TimesTen(h, Pow10(k));
  }

  lemma TimesTen(a: nat, b: nat)
    ensures a * (10 * b) == 10 * (a * b)
  {
  }

  lemma {:induction false} ShiftShift(n: nat, k: nat)
    ensures Shift(n, k + 1) == Shift(n / 10, k)
  {
    if k > 0 {
      ShiftShift(n, k - 1);
    }
  }

  lemma {:induction false} LengthIs(n: nat, k: nat)
    ensures Shift(n, k) == 0 <==> k >= Length(n)
    decreases k
  {
    if k > 0 && n > 0 {
      ShiftShift(n, k - 1);
      LengthIs(n / 10, k - 1);
    } else if k > 0 {
      ShiftShift(n, k - 1);
      LengthIs(0, k - 1);
    }
  }

  /** All digits below the lowest non-zero one are zero. */
  lemma {:induction false} LowestIs(n: nat)
    requires n > 0
    ensures Shift(n, Lowest(n)) * Pow10(Lowest(n)) == n
    ensures Shift(n, Lowest(n)) % 10 != 0
  {
    if n % 10 == 0 {
      LowestIs(n / 10);
      ShiftShift(n, Lowest(n / 10));
      TimesTen(Shift(n, Lowest(n)), Pow10(Lowest(n / 10)));
    }
  }

  lemma {:induction false} Pow10Add(a: nat, b: nat)
    ensures Pow10(a + b) == Pow10(a) * Pow10(b)
  {
    if a > 0 {
      Pow10Add(a - 1, b);
    }
  }

  /** Whole part and decimals together are the number. */
  lemma Recompose(n: nat)
    requires n > 0 && Lowest(n) < 5
    ensures Digits(DigitRun(n, Length(n), 5)) && Digits(DigitRun(n, 5, Lowest(n)))
    ensures ToNat(DigitRun(n, Length(n), 5)) * 100000
          + ToNat(DigitRun(n, 5, Lowest(n))) * Pow10(Lowest(n)) == n
  {
    hide DigitRun, Shift, Length;
    var k := Lowest(n);
    WholeValue(n);
    RunValue(n, 5, k);
    LowestIs(n);
    Pow10Add(5 - k, k);
    assert Pow10(5) == 100000;
    Regroup(ToNat(DigitRun(n, 5, k)), Shift(n, 5), Pow10(5 - k), Pow10(k));
  }

  lemma WholeValue(n: nat)
    requires n > 0
    ensures Digits(DigitRun(n, Length(n), 5))
    ensures ToNat(DigitRun(n, Length(n), 5)) == Shift(n, 5)
  {
    RunDigits(n, Length(n), 5);
    LengthIs(n, 5);
    LengthIs(n, Length(n));
    if Length(n) >= 5 {
      RunValue(n, Length(n), 5);
    }
  }

  lemma {:induction false} LowerZeros(n: nat, k: nat)
    requires n > 0 && k <= Lowest(n)
    ensures Shift(n, k) * Pow10(k) == n
  {
    if k > 0 {
      LowerZeros(n / 10, k - 1);
      ShiftShift(n, k - 1);
      TimesTen(Shift(n, k), Pow10(k - 1));
    }
  }

  lemma TenDigits(n: nat)
    requires n <= 0x8000_0000
    ensures Length(n) <= 10
  {
    RunValue(n, 10, 0);
    assert Pow10(5) == 100000;
    Pow10Add(5, 5);
    LengthIs(n, 10);
  }

  lemma LowestBelowLength(n: nat)
    requires n > 0
    ensures Lowest(n) < Length(n)
  {
    LowestIs(n);
    LengthIs(n, Lowest(n));
  }

  lemma {:induction false} ZeroDigits(s: string)
    requires Digits(s) && !HasNonZero(s)
    ensures ToNat(s) == 0
  {
    if s != "" {
      var t := s[..|s| - 1];
      forall i | 0 <= i < |t|
        ensures t[i] == '0'
      {
        assert s[i] == '0';
      }
      ZeroDigits(t);
    }
  }

  /** A printable number: at most five decimals, no superfluous zero, point or sign, at most
      twelve characters. There is one such text for each value. */
  predicate Tidy(n: Num) {
    && WellFormed(n) && n.e == "" && |n.frac| <= 5
    && 1 <= |n.sign| + |n.whole| + (if n.dot then 1 else 0) + |n.frac| <= 12
    && (n.frac != "" ==> n.frac[|n.frac| - 1] != '0')
    && (n.whole != "" ==> n.whole == "0" || n.whole[0] != '0')
    && (n.dot <==> n.frac != "") && (n.whole == "0" ==> n.frac == "" && n.sign == "") && n.sign != "+"
  }

  lemma RenderLength(n: Num)
    requires n.e == "" && n.esign == "" && n.edigits == ""
    ensures |Render(n)| == |n.sign| + |n.whole| + (if n.dot then 1 else 0) + |n.frac|
  {
  }

  /** For every 32-bit value: the printed number is well formed, its value is exactly
      the argument, it has no trailing and no leading zero, and it takes at most
      twelve characters. */
  lemma PrintedValue(fp: int32)
    ensures Tidy(FixedNum(fp)) && Scaled(FixedNum(fp)) == fp
    ensures 1 <= |Render(FixedNum(fp))| <= 12
  {
    hide DigitRun, Length, Lowest, Shift, ToNat, Pow10, Render;
    var m := Magnitude(fp);
    if m == 0 {
      ZeroValue();
    } else {
      TenDigits(m);
      PartsWellFormed(m);
      NumberValue(m);
    }
    RenderLength(FixedNum(fp));
  }

  lemma ZeroValue()
    ensures ToNat("0") == 0 && ToNat("") == 0
  {
    assert ToNat("0"[..0]) == 0;
  }

  lemma PartsWellFormed(n: nat)
    requires n > 0
    ensures var w, f := DigitRun(n, Length(n), 5), DigitRun(n, 5, Lowest(n));
      && Digits(w) && Digits(f)
      && |w| == (if Length(n) > 5 then Length(n) - 5 else 0)
      && |f| == (if Lowest(n) < 5 then 5 - Lowest(n) else 0)
      && (w != "" || f != "")
      && (f != "" ==> f[|f| - 1] != '0')
      && (w != "" ==> w[0] != '0')
  {
    hide Length, Lowest;
    RunDigits(n, Length(n), 5);
    RunDigits(n, 5, Lowest(n));
    LowestIs(n);
    LowestBelowLength(n);
    if Length(n) > 5 {
      RunHead(n, Length(n), 5);
      LengthIs(n, Length(n) - 1);
      LengthIs(n, Length(n));
      assert Shift(n, Length(n)) == Shift(n, Length(n) - 1) / 10;
    }
  }

  lemma {:induction false} RunHead(n: nat, hi: nat, lo: nat)
    requires lo < hi
    ensures |DigitRun(n, hi, lo)| == hi - lo
    ensures DigitRun(n, hi, lo)[0] == Digit(n, hi - 1)
    decreases hi - lo
  {
    RunDigits(n, hi, lo);
    if lo + 1 < hi {
      RunHead(n, hi, lo + 1);
    } else {
      assert DigitRun(n, hi, lo + 1) == "";
    }
  }

  lemma NumberValue(n: nat)
    requires n > 0
    ensures Digits(DigitRun(n, Length(n), 5)) && Digits(DigitRun(n, 5, Lowest(n)))
    ensures |DigitRun(n, 5, Lowest(n))| <= 5
    ensures ToNat(DigitRun(n, Length(n), 5)) * 100000
          + ToNat(DigitRun(n, 5, Lowest(n))) * Pow10(5 - |DigitRun(n, 5, Lowest(n))|) == n
  {
    hide DigitRun, Length, Lowest, Shift, ToNat, Pow10;
    RunDigits(n, 5, Lowest(n));
    if Lowest(n) < 5 {
      Recompose(n);
    } else {
      WholeOnly(n);
    }
  }

  /** A number without decimals. */
  lemma WholeOnly(n: nat)
    requires n > 0 && Lowest(n) >= 5
    ensures Digits(DigitRun(n, Length(n), 5)) && ToNat(DigitRun(n, Length(n), 5)) * 100000 == n
    ensures DigitRun(n, 5, Lowest(n)) == "" && ToNat("") == 0
  {
    hide Length, Lowest, Shift;
    WholeValue(n);
    LowerZeros(n, 5);
    assert Pow10(5) == 100000;
  }

  lemma NonZeroPrinted(fp: int32)
    ensures var n := FixedNum(fp);
      HasNonZero(n.whole + n.frac) <==> fp != 0
  {
    hide DigitRun, Length, Lowest, Shift, ToNat, Pow10;
    var m, n := Magnitude(fp), FixedNum(fp);
    if m == 0 {
      assert n.whole + n.frac == "0";
    } else {
      hide HasNonZero;
      NumberValue(m);
      ZeroDigitsOr(n.whole);
      ZeroDigitsOr(n.frac);
      NonZeroAppend(n.whole, n.frac);
    }
  }

  lemma ZeroDigitsOr(s: string)
    requires Digits(s)
    ensures HasNonZero(s) || ToNat(s) == 0
  {
    if !HasNonZero(s) {
      ZeroDigits(s);
    }
  }

  /** The printer's output passes the recogniser, in the right sign class. */
  lemma PrintedAccepted(fp: int32)
    ensures var t := Render(FixedNum(fp));
      var state := CheckFpString(t, |t|);
      && state != 0
      && (IsZero(state) <==> fp == 0)
      && (IsPositive(state) <==> fp > 0)
      && (IsNegative(state) <==> fp < 0)
  {
    var n := FixedNum(fp);
    var t := Render(n);
    PrintedValue(fp);
    NonZeroPrinted(fp);
    assert t[..|t|] == t;
    assert Holds(t, |t|, n);
    RecogniserIsGrammar(t, |t|);
  }

  // ---------------------------------------------------------------- the printer

  /** The first loop: the digits of num, lowest first, and the 1-based index of the
      first non-zero one (16 while there is none). */
  method SplitDigits(value: nat, digits: array<char>) returns (ndigits: nat, first: nat)
    requires value <= 0x8000_0000 && digits.Length == 10
    modifies digits
    ensures ndigits == Length(value) <= 10
    ensures forall k :: 0 <= k < ndigits ==> digits[k] == Digit(value, k)
    ensures value > 0 ==> first == Lowest(value) + 1
  {
    TenDigits(value);
    var num := value;
    ndigits, first := 0, 16;
    while num != 0
      invariant num == Shift(value, ndigits) && ndigits <= Length(value)
      invariant forall k :: 0 <= k < ndigits ==> digits[k] == Digit(value, k)
      invariant if first == 16 then ndigits <= Lowest(value) else first == Lowest(value) + 1
    {
      LengthIs(value, ndigits);
      LowestBelowLength(value);
      var tmp := num / 10;
      num := num - tmp * 10;
      digits[ndigits] := DigitChar(num);
      if first == 16 {
        LowestTest(value, ndigits);
      }
      ndigits := ndigits + 1;
      if first == 16 && num > 0 {
        first := ndigits;
      }
      num := tmp;
    }
    LengthIs(value, ndigits);
    if value > 0 {
      LowestBelowLength(value);
    }
  }

  /** Up to its lowest non-zero digit a number has only zeros. */
  lemma {:induction false} LowestTest(n: nat, k: nat)
    requires n > 0 && k <= Lowest(n)
    ensures Shift(n, k) % 10 == 0 <==> k < Lowest(n)
    decreases k
  {
    if k > 0 {
      ShiftShift(n, k - 1);
      LowestTest(n / 10, k - 1);
    } else {
      LowestBase(n);
    }
  }

  lemma LowestBase(n: nat)
    ensures Shift(n, 0) == n && (n > 0 ==> (n % 10 == 0 <==> 0 < Lowest(n)))
  {
  }

  /** *ascii++ = c */
  method Put(ascii: array<char>, pos: nat, c: char) returns (next: nat)
    requires pos < ascii.Length
    modifies ascii
    ensures next == pos + 1 && ascii[..next] == old(ascii[..pos]) + [c]
  {
    ascii[pos] := c;
    next := pos + 1;
  }

  lemma RunSnoc(n: nat, hi: nat, lo: nat)
    requires lo < hi
    ensures DigitRun(n, hi, lo) == DigitRun(n, hi, lo + 1) + [Digit(n, lo)]
  {
  }

  lemma RunEmpty(n: nat, hi: nat)
    ensures DigitRun(n, hi, hi) == ""
  {
  }

  /** The digits above the fifth: the whole part. */
  method PutWhole(ascii: array<char>, pos0: nat, digits: array<char>, n0: nat, ghost value: nat)
    returns (pos: nat, ndigits: nat)
    requires ascii != digits && n0 == Length(value) <= digits.Length
    requires forall k :: 0 <= k < n0 ==> digits[k] == Digit(value, k)
    requires pos0 + n0 < ascii.Length + 5 && pos0 < ascii.Length
    modifies ascii
    ensures ndigits == (if n0 > 5 then 5 else n0) && pos == pos0 + n0 - ndigits
    ensures ascii[..pos] == old(ascii[..pos0]) + DigitRun(value, n0, 5)
  {
    pos, ndigits := pos0, n0;
    assert DigitRun(value, n0, n0) == "";
    while ndigits > 5
      invariant ndigits <= n0 && (if n0 > 5 then ndigits >= 5 else ndigits == n0)
      invariant pos == pos0 + n0 - ndigits
      invariant ascii[..pos] == old(ascii[..pos0]) + DigitRun(value, n0, ndigits)
    {
      ndigits := ndigits - 1;
      pos := Put(ascii, pos, digits[ndigits]);
    }
  }

  /** The decimal point, the leading zeros of a small number, and the digits down to
      the lowest non-zero one. */
  method PutFraction(ascii: array<char>, pos0: nat, digits: array<char>, n0: nat, first: nat, ghost value: nat)
    returns (pos: nat)
    requires ascii != digits && value > 0 && n0 <= 5 && n0 <= digits.Length
    requires n0 == Length(value) || (n0 == 5 && Length(value) > 5)
    requires forall k :: 0 <= k < n0 ==> digits[k] == Digit(value, k)
    requires first == Lowest(value) + 1 <= 5 && pos0 + 6 < ascii.Length
    modifies ascii
    ensures pos == pos0 + 6 - Lowest(value)
    ensures ascii[..pos] == old(ascii[..pos0]) + "." + DigitRun(value, 5, Lowest(value))
  {
    hide Length, Lowest, DigitRun;
    RunEmpty(value, 5);
    pos := Put(ascii, pos0, '.');
    ghost var lead := ascii[..pos];
    var i := 5;
    while n0 < i
      invariant n0 <= i <= 5 && pos == pos0 + 6 - i
      invariant ascii[..pos] == lead + DigitRun(value, 5, i)
    {
      LengthIs(value, i - 1);
      i := i - 1;
      RunSnoc(value, 5, i);
      pos := Put(ascii, pos, '0');
    }
    LowestBelowLength(value);
    var ndigits := n0;
    while ndigits >= first
      invariant Lowest(value) <= ndigits <= n0 && pos == pos0 + 6 - ndigits
      invariant ascii[..pos] == lead + DigitRun(value, 5, ndigits)
    {
      ndigits := ndigits - 1;
      RunSnoc(value, 5, ndigits);
      pos := Put(ascii, pos, digits[ndigits]);
    }
  }

  /** png_ascii_from_fixed; it fails only on a buffer of at most twelve characters. */
  method AsciiFromFixed(ascii: array<char>, fp: int32) returns (ok: bool, n: nat)
    modifies ascii
    ensures ok <==> ascii.Length > 12
    ensures ok ==> n <= 12 && ascii[..n] == Render(FixedNum(fp)) && ascii[n] == '\0'
    ensures !ok ==> ascii[..] == old(ascii[..])
  {
    hide DigitRun, Lowest, Length, Scaled, WellFormed, Render, Unsigned;
    if ascii.Length <= 12 {
      return false, 0;
    }
    var pos := 0;
    var num := Magnitude(fp);
    if fp < 0 {
      pos := Put(ascii, pos, '-');
    }
    assert ascii[..pos] == FixedNum(fp).sign;
    pos := PutNumber(ascii, pos, num);
    PrintedValue(fp);
    RenderParts(fp);
    ascii[pos] := '\0';
    return true, pos;
  }

  lemma RenderParts(fp: int32)
    ensures Render(FixedNum(fp)) == FixedNum(fp).sign + Unsigned(Magnitude(fp))
  {
    hide DigitRun, Length, Lowest;
    RunDigits(Magnitude(fp), 5, Lowest(Magnitude(fp)));
  }

  /** The printed number without its sign. */
  function Unsigned(n: nat): string {
    if n == 0 then "0"
    else DigitRun(n, Length(n), 5) + if Lowest(n) < 5 then "." + DigitRun(n, 5, Lowest(n)) else ""
  }

  /** The body of png_ascii_from_fixed after the sign. */
  method PutNumber(ascii: array<char>, pos0: nat, num: nat) returns (pos: nat)
    requires num <= 0x8000_0000 && ascii.Length > 12 && pos0 <= 1
    modifies ascii
    ensures pos0 <= pos < ascii.Length && ascii[..pos] == old(ascii[..pos0]) + Unsigned(num)
  {
    hide DigitRun, Lowest, Length;
    pos := pos0;
    TenDigits(num);
    LengthIs(num, 0);
    assert Shift(num, 0) == num;
    var digits := new char[10](_ => '0');
    var ndigits, first := SplitDigits(num, digits);
    if ndigits > 0 {
      pos, ndigits := PutWhole(ascii, pos, digits, ndigits, num);
      if first <= 5 {
        pos := PutFraction(ascii, pos, digits, ndigits, first, num);
      }
    } else {
      pos := Put(ascii, pos, '0');
    }
  }

  // ---------------------------------------------------------------- the sCAL setter

  /** The string checks of png_set_sCAL_s. */
  predicate ScalAccepts(text: string) {
    text != "" && text[0] != '-' && CheckFpString(text, |text|) != 0
  }

  /** They accept exactly the texts that hold a number without a minus sign. */
  lemma ScalAcceptsIff(text: string)
    ensures ScalAccepts(text) <==> exists n :: Holds(text, |text|, n) && n.sign != "-"
  {
    RecogniserIsGrammar(text, |text|);
    forall n | Holds(text, |text|, n)
      ensures text != "" && (n.sign == "-" <==> text[0] == '-')
    {
      FirstCharacter(n);
    }
  }

  lemma FirstCharacter(n: Num)
    requires FloatText.WellFormed(n)
    ensures Render(n) != "" && (n.sign == "-" <==> Render(n)[0] == '-')
  {
    if n.sign != "" {
      assert Render(n)[0] == n.sign[0];
    } else if n.whole != "" {
      assert Render(n)[0] == n.whole[0];
    } else {
      assert Render(n)[0] == '.';
    }
  }

  /** png_set_sCAL_fixed only passes on positive sizes, and for those the checks in
      png_set_sCAL_s never fail. */
  lemma ScalFixedAccepted(size: int32)
    requires size > 0
    ensures ScalAccepts(Render(FixedNum(size)))
  {
    PrintedValue(size);
    PrintedAccepted(size);
    RenderParts(size);
    var t := Render(FixedNum(size));
    hide DigitRun, Length, Lowest;
    PartsWellFormed(size);
    UnsignedStart(size);
  }

  lemma UnsignedStart(n: nat)
    requires n > 0
    ensures Unsigned(n) != "" && Unsigned(n)[0] != '-'
  {
    hide DigitRun, Length, Lowest;
    PartsWellFormed(n);
    var w := DigitRun(n, Length(n), 5);
    if w != "" {
      assert Unsigned(n)[0] == w[0] && IsDigit(w[0]);
    } else {
      assert Unsigned(n)[0] == '.';
    }
  }
}
