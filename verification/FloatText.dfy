/** The ASCII floating-point recogniser of png.c: a parser whose whole state is one
    word of flags, proved to accept exactly the numbers of its grammar and to
    carry the right sign and zero flags. */
module FloatText {
  import opened Arithmetic

  const INTEGER: bv16 := 0
  const FRACTION: bv16 := 1
  const EXPONENT: bv16 := 2
  const STATE: bv16 := 3
  const SAW_SIGN: bv16 := 4
  const SAW_DIGIT: bv16 := 8
  const SAW_DOT: bv16 := 16
  const SAW_E: bv16 := 32
  const SAW_ANY: bv16 := 60
  const WAS_VALID: bv16 := 64
  const NEGATIVE: bv16 := 128
  const NONZERO: bv16 := 256
  const STICKY: bv16 := 448

  predicate IsDigit(c: char) {
    '0' <= c <= '9'
  }

  /** The type of a character, None for one that ends the number. */
  function CharType(c: char): Option<bv16> {
    if c == '+' then Some(SAW_SIGN)
    else if c == '-' then Some(SAW_SIGN + NEGATIVE)
    else if c == '.' then Some(SAW_DOT)
    else if c == '0' then Some(SAW_DIGIT)
    else if '1' <= c <= '9' then Some(SAW_DIGIT + NONZERO)
    else if c == 'E' || c == 'e' then Some(SAW_E)
    else None
  }

  /** png_fp_set: a new value, keeping the sticky flags. */
  function FpSet(state: bv16, value: bv16): bv16 {
    value | (state & STICKY)
  }

  /** One turn of the loop in png_check_fp_number; None is the exit to the end. */
  function StepBits(state: bv16, c: char): Option<bv16> {
    match CharType(c)
    case None => None
    case Some(kind) =>
      var key := (state & STATE) + (kind & SAW_ANY);
      if key == INTEGER + SAW_SIGN then
        if state & SAW_ANY != 0 then None else Some(state | kind)
      else if key == INTEGER + SAW_DOT then
        if state & SAW_DOT != 0 then None
        else if state & SAW_DIGIT != 0 then Some(state | kind)
        else Some(FpSet(state, FRACTION | kind))
      else if key == INTEGER + SAW_DIGIT then
        var s := if state & SAW_DOT != 0 then FpSet(state, FRACTION | SAW_DOT) else state;
        Some(s | (kind | WAS_VALID))
      else if key == INTEGER + SAW_E || key == FRACTION + SAW_E then
        if state & SAW_DIGIT == 0 then None else Some(FpSet(state, EXPONENT))
      else if key == FRACTION + SAW_DIGIT then
        Some(state | (kind | WAS_VALID))
      else if key == EXPONENT + SAW_SIGN then
        if state & SAW_ANY != 0 then None else Some(state | SAW_SIGN)
      else if key == EXPONENT + SAW_DIGIT then
        Some(state | (SAW_DIGIT | WAS_VALID))
      else None
  }

  /** The whole loop: where it stops, and in which state. */
  function Scan(s: string, size: nat, state: bv16, i: nat): (bv16, nat)
    requires size <= |s|
    decreases size - i
  {
    if i >= size then (state, i)
    else
      match StepBits(state, s[i])
      case None => (state, i)
      case Some(next) => Scan(s, size, next, i + 1)
  }

  /** png_check_fp_number */
  method CheckFpNumber(s: string, size: nat, state0: bv16, where: nat)
    returns (ok: bool, state: bv16, i: nat)
    requires size <= |s|
    ensures (state, i) == Scan(s, size, state0, where)
    ensures ok <==> state & SAW_DIGIT != 0
  {
    state, i := state0, where;
    while i < size
      invariant Scan(s, size, state, i) == Scan(s, size, state0, where)
    {
      var next := StepBits(state, s[i]);
      if next.None? {
        break;
      }
      state := next.value;
      i := i + 1;
    }
    ok := state & SAW_DIGIT != 0;
  }

  /** png_check_fp_string: the final state, or 0 for a string that is not a number. */
  function CheckFpString(s: string, size: nat): bv16
    requires size <= |s|
  {
    var (state, i) := Scan(s, size, 0, 0);
    if state & SAW_DIGIT != 0 && (i >= size || s[i] == '\0') then state else 0
  }

  predicate IsZero(state: bv16) {
    state & (SAW_DIGIT | NONZERO) == SAW_DIGIT
  }

  predicate IsPositive(state: bv16) {
    state & (SAW_DIGIT | NEGATIVE | NONZERO) == SAW_DIGIT | NONZERO
  }

  predicate IsNegative(state: bv16) {
    state & (SAW_DIGIT | NEGATIVE | NONZERO) == SAW_DIGIT | NEGATIVE | NONZERO
  }

  /** Parsing a prefix and resuming from its end is parsing in one go. */
  lemma {:induction false} ScanResumes(s: string, part: nat, size: nat, state: bv16, i: nat)
    requires i <= part <= size <= |s|
    ensures var (state', i') := Scan(s, part, state, i);
      i' <= part && Scan(s, size, state', i') == Scan(s, size, state, i)
    decreases part - i
  {
    if i < part && StepBits(state, s[i]).Some? {
      ScanResumes(s, part, size, StepBits(state, s[i]).value, i + 1);
    }
  }

  // ---------------------------------------------------------------- the automaton in the flags

  /** How far a number has got. */
  datatype Phase = Start | Signed | Int | IntDot | LeadDot | Frac | Exp | ExpSigned | ExpInt

  predicate Accepting(p: Phase) {
    p in {Int, IntDot, Frac, ExpInt}
  }

  datatype Conf = Conf(phase: Phase, negative: bool, nonzero: bool)

  function NextPhase(p: Phase, c: char): Option<Phase> {
    if IsDigit(c) then
      match p
      case Start | Signed | Int => Some(Int)
      case IntDot | LeadDot | Frac => Some(Frac)
      case Exp | ExpSigned | ExpInt => Some(ExpInt)
    else if c == '+' || c == '-' then
      match p case Start => Some(Signed) case Exp => Some(ExpSigned) case _ => None
    else if c == '.' then
      match p case Start | Signed => Some(LeadDot) case Int => Some(IntDot) case _ => None
    else if c == 'e' || c == 'E' then
      match p case Int | IntDot | Frac => Some(Exp) case _ => None
    else None
  }

  function Next(s: Conf, c: char): Option<Conf> {
    match NextPhase(s.phase, c)
    case None => None
    case Some(p) =>
      Some(Conf(p,
                s.negative || (s.phase == Start && c == '-'),
                s.nonzero || (p in {Int, Frac} && IsDigit(c) && c != '0')))
  }

  /** The phase a flag word stands for. */
  function PhaseOf(state: bv16): Phase {
    if state & STATE == INTEGER then
      if state & SAW_DIGIT != 0 then (if state & SAW_DOT != 0 then IntDot else Int)
      else if state & SAW_SIGN != 0 then Signed else Start
    else if state & STATE == FRACTION then
      if state & SAW_DIGIT != 0 then Frac else LeadDot
    else
      if state & SAW_DIGIT != 0 then ExpInt else if state & SAW_SIGN != 0 then ExpSigned else Exp
  }

  function ConfOf(state: bv16): Conf {
    Conf(PhaseOf(state), state & NEGATIVE != 0, state & NONZERO != 0)
  }

  /** The flag words that occur: WAS_VALID says that a digit has been seen. */
  predicate Proper(state: bv16) {
    && state & STATE != 3 && state & SAW_E == 0
    && (state & STATE == INTEGER && state & SAW_DOT != 0 ==> state & SAW_DIGIT != 0)
    && (state & STATE == FRACTION ==> state & SAW_DOT != 0 && state & SAW_SIGN == 0)
    && (state & STATE == EXPONENT ==> state & SAW_DOT == 0)
    && (state & WAS_VALID == 0 <==> PhaseOf(state) in {Start, Signed, LeadDot})
  }

  /** The flag word simulates the automaton, flags included. */
  lemma BitsSimulate(state: bv16, c: char)
    requires Proper(state)
    ensures StepBits(state, c).None? <==> Next(ConfOf(state), c).None?
    ensures StepBits(state, c).Some? ==>
              && Proper(StepBits(state, c).value)
              && Next(ConfOf(state), c) == Some(ConfOf(StepBits(state, c).value))
  {
  }

  lemma AcceptingBit(state: bv16)
    requires Proper(state)
    ensures state & SAW_DIGIT != 0 <==> Accepting(PhaseOf(state))
  {
  }

  // ---------------------------------------------------------------- the grammar

  /** [+-]?(d+(.d*)?|.d+)([Ee][+-]?d+)? taken apart. */
  datatype Num = Num(sign: string, whole: string, dot: bool, frac: string,
                     e: string, esign: string, edigits: string)

  predicate Digits(s: string) {
    forall i :: 0 <= i < |s| ==> IsDigit(s[i])
  }

  predicate IsSign(s: string) {
    s == "" || s == "+" || s == "-"
  }

  predicate WellFormed(n: Num) {
    && IsSign(n.sign) && IsSign(n.esign)
    && Digits(n.whole) && Digits(n.frac) && Digits(n.edigits)
    && (n.frac != "" ==> n.dot)
    && (n.whole != "" || n.frac != "")
    && (if n.e == "" then n.esign == "" && n.edigits == ""
        else (n.e == "e" || n.e == "E") && n.edigits != "")
  }

  function Mantissa(n: Num): string {
    n.sign + n.whole + (if n.dot then "." else "") + n.frac
  }

  function Render(n: Num): string {
    Mantissa(n) + n.e + n.esign + n.edigits
  }

  predicate HasNonZero(s: string) {
    exists i :: 0 <= i < |s| && s[i] != '0'
  }

  /** The automaton on a whole string. */
  function Drive(t: string): Option<Conf> {
    if t == "" then Some(Conf(Start, false, false))
    else
      match Drive(t[..|t| - 1])
      case None => None
      case Some(c) => Next(c, t[|t| - 1])
  }

  lemma DriveSnoc(t: string, c: char)
    ensures Drive(t + [c]) == (match Drive(t) case None => None case Some(s) => Next(s, c))
  {
    assert (t + [c])[..|t|] == t;
  }

  /** Digits in a digit phase: the phase stays, and only mantissa digits count. */
  lemma {:induction false} DriveDigits(t: string, s: Conf, ds: string)
    requires Drive(t) == Some(s) && Digits(ds) && ds != ""
    ensures var p := NextPhase(s.phase, '0').value;
      Drive(t + ds) == Some(Conf(p, s.negative, s.nonzero || (p != ExpInt && HasNonZero(ds))))
  {
    hide Drive, HasNonZero;
    var k := |ds| - 1;
    var init, c := ds[..k], ds[k];
    assert t + ds == (t + init) + [c];
    DriveSnoc(t + init, c);
    assert ds == init + [c];
    NonZeroSnoc(init, c);
    if k == 0 {
      assert t + init == t;
      EmptyIsZero();
    } else {
      DriveDigits(t, s, init);
    }
  }

  lemma EmptyIsZero()
    ensures !HasNonZero("")
  {
  }

  lemma NonZeroSnoc(init: string, c: char)
    ensures HasNonZero(init + [c]) <==> HasNonZero(init) || c != '0'
  {
    var ds := init + [c];
    if HasNonZero(init) {
      var i :| 0 <= i < |init| && init[i] != '0';
      assert ds[i] != '0';
    }
    if c != '0' {
      assert ds[|init|] != '0';
    }
    if HasNonZero(ds) {
      var i :| 0 <= i < |ds| && ds[i] != '0';
      assert i < |init| ==> init[i] != '0';
    }
  }

  lemma NonZeroAppend(a: string, b: string)
    ensures HasNonZero(a + b) <==> HasNonZero(a) || HasNonZero(b)
  {
    if HasNonZero(a) {
      var i :| 0 <= i < |a| && a[i] != '0';
      assert (a + b)[i] != '0';
    }
    if HasNonZero(b) {
      var i :| 0 <= i < |b| && b[i] != '0';
      assert (a + b)[|a| + i] != '0';
    }
    if HasNonZero(a + b) {
      var i :| 0 <= i < |a + b| && (a + b)[i] != '0';
      assert if i < |a| then a[i] != '0' else b[i - |a|] != '0';
    }
  }

  /** Every number of the grammar is driven to an accepting phase, with the flags
      that say whether it starts with a minus and has a non-zero digit. */
  lemma DriveMantissa(n: Num)
    requires WellFormed(n)
    ensures Drive(Mantissa(n)).Some?
    ensures var c := Drive(Mantissa(n)).value;
      && c.phase in {Int, IntDot, Frac}
      && c.negative == (n.sign == "-") && c.nonzero == HasNonZero(n.whole + n.frac)
  {
    hide Drive, HasNonZero;
    EmptyIsZero();
    var t := n.sign;
    DriveSign(n.sign);
    var s := Drive(t).value;
    if n.whole != "" {
      DriveDigits(t, s, n.whole);
    } else {
      assert t + n.whole == t;
    }
    t := t + n.whole;
    s := Drive(t).value;
    if n.dot {
      DriveSnoc(t, '.');
      t := t + ".";
      s := Drive(t).value;
    } else {
      assert t + "" == t;
    }
    if n.frac != "" {
      DriveDigits(t, s, n.frac);
    } else {
      assert t + n.frac == t;
    }
    NonZeroAppend(n.whole, n.frac);
  }

  lemma DriveSign(sign: string)
    requires IsSign(sign)
    ensures Drive(sign) == Some(Conf(if sign == "" then Start else Signed, sign == "-", false))
  {
    DriveSnoc("", '+');
    DriveSnoc("", '-');
    assert "" + "+" == "+" && "" + "-" == "-";
  }

  lemma DriveNumber(n: Num)
    requires WellFormed(n)
    ensures Drive(Render(n)).Some?
    ensures var c := Drive(Render(n)).value;
      && Accepting(c.phase)
      && c.negative == (n.sign == "-") && c.nonzero == HasNonZero(n.whole + n.frac)
  {
    DriveMantissa(n);
    var t := Mantissa(n);
    if n.e == "" {
      assert Render(n) == t;
    } else {
      hide Drive, WellFormed, Mantissa;
      DriveE(t, Drive(t).value, n.e);
      DriveExponentSign(t + n.e, Drive(t + n.e).value, n.esign);
      DriveDigits(t + n.e + n.esign, Drive(t + n.e + n.esign).value, n.edigits);
    }
  }

  lemma DriveE(t: string, s: Conf, e: string)
    requires Drive(t) == Some(s) && s.phase in {Int, IntDot, Frac} && (e == "e" || e == "E")
    ensures Drive(t + e) == Some(s.(phase := Exp))
  {
    assert e == [e[0]];
    DriveSnoc(t, e[0]);
  }

  lemma DriveExponentSign(t: string, s: Conf, sign: string)
    requires Drive(t) == Some(s) && s.phase == Exp && IsSign(sign)
    ensures Drive(t + sign) == Some(if sign == "" then s else s.(phase := ExpSigned))
  {
    if sign == "" {
      assert t + sign == t;
    } else {
      assert sign == [sign[0]];
      DriveSnoc(t, sign[0]);
    }
  }

  /** A number cut short in a given phase. */
  predicate Shape(p: Phase, n: Num) {
    && IsSign(n.sign) && Digits(n.whole) && Digits(n.frac)
    && (n.frac != "" ==> n.dot)
    && (p in {Start, Signed, Int, IntDot, LeadDot, Frac} ==> n.e == "" && n.esign == "" && n.edigits == "")
    && match p
       case Start => n.sign == "" && n.whole == "" && !n.dot
       case Signed => n.sign != "" && n.whole == "" && !n.dot
       case Int => n.whole != "" && !n.dot
       case IntDot => n.whole != "" && n.dot && n.frac == ""
       case LeadDot => n.whole == "" && n.dot && n.frac == ""
       case Frac => n.dot && n.frac != ""
       case _ =>
         && (n.e == "e" || n.e == "E") && IsSign(n.esign) && Digits(n.edigits)
         && (n.whole != "" || n.frac != "")
         && (if p == Exp then n.esign == "" && n.edigits == ""
             else if p == ExpSigned then n.esign != "" && n.edigits == ""
             else n.edigits != "")
  }

  lemma ShapeAccepts(p: Phase, n: Num)
    requires Shape(p, n) && Accepting(p)
    ensures WellFormed(n)
  {
  }

  /** Whatever the automaton has read can be taken apart. */
  lemma {:induction false} Decompose(t: string) returns (n: Num)
    requires Drive(t).Some?
    ensures Shape(Drive(t).value.phase, n) && Render(n) == t
  {
    if t == "" {
      n := Num("", "", false, "", "", "", "");
    } else {
      var k := |t| - 1;
      var c := t[k];
      assert t == t[..k] + [c];
      var m := Decompose(t[..k]);
      n := Extend(Drive(t[..k]).value.phase, m, c);
    }
  }

  /** One more character on a partial number. */
  lemma Extend(p: Phase, m: Num, c: char) returns (n: Num)
    requires Shape(p, m) && NextPhase(p, c).Some?
    ensures Shape(NextPhase(p, c).value, n) && Render(n) == Render(m) + [c]
  {
    var q := NextPhase(p, c).value;
    if q in {Exp, ExpSigned, ExpInt} {
      n := ExtendExponent(p, m, c);
    } else {
      n := ExtendMantissa(p, m, c);
      assert Render(m) == Mantissa(m) && Render(n) == Mantissa(n);
    }
  }

  lemma ExtendMantissa(p: Phase, m: Num, c: char) returns (n: Num)
    requires Shape(p, m) && NextPhase(p, c).Some? && NextPhase(p, c).value !in {Exp, ExpSigned, ExpInt}
    ensures Shape(NextPhase(p, c).value, n) && Mantissa(n) == Mantissa(m) + [c]
  {
    MantissaForms(m);
    match NextPhase(p, c).value
    case Signed =>
      n := m.(sign := [c]);
      MantissaForms(n);
    case Int =>
      n := m.(whole := m.whole + [c]);
      MantissaForms(n);
      assert m.sign + (m.whole + [c]) == (m.sign + m.whole) + [c];
    case Frac =>
      n := m.(frac := m.frac + [c]);
      assert Mantissa(n) == Mantissa(m) + [c];
    case _ =>
      n := m.(dot := true);
      MantissaForms(n);
  }

  lemma MantissaForms(n: Num)
    ensures n.frac == "" ==> Mantissa(n) == n.sign + n.whole + if n.dot then "." else ""
    ensures n.frac == "" && !n.dot ==> Mantissa(n) == n.sign + n.whole
    ensures n.frac == "" && !n.dot && n.whole == "" ==> Mantissa(n) == n.sign
  {
  }

  lemma ExtendExponent(p: Phase, m: Num, c: char) returns (n: Num)
    requires Shape(p, m) && NextPhase(p, c).Some? && NextPhase(p, c).value in {Exp, ExpSigned, ExpInt}
    ensures Shape(NextPhase(p, c).value, n) && Render(n) == Render(m) + [c]
  {
    match NextPhase(p, c).value
    case Exp =>
      n := m.(e := [c]);
      assert Mantissa(n) == Mantissa(m);
    case ExpSigned =>
      n := m.(esign := [c]);
      assert Mantissa(n) == Mantissa(m);
    case ExpInt =>
      n := m.(edigits := m.edigits + [c]);
      assert Mantissa(n) == Mantissa(m);
  }

  // ---------------------------------------------------------------- the recogniser is the grammar

  /** The scan follows the automaton as far as it goes. */
  lemma {:induction false} ScanDrives(s: string, size: nat, state: bv16, i: nat)
    requires i <= size <= |s| && Proper(state) && Drive(s[..i]) == Some(ConfOf(state))
    ensures var (state', k) := Scan(s, size, state, i);
      && i <= k <= size && Proper(state')
      && Drive(s[..k]) == Some(ConfOf(state'))
      && (k < size ==> Next(ConfOf(state'), s[k]) == None)
    decreases size - i
  {
    hide StepBits, Next, ConfOf, Proper, Drive;
    if i < size {
      BitsSimulate(state, s[i]);
      var next := StepBits(state, s[i]);
      if next.Some? {
        assert s[..i + 1] == s[..i] + [s[i]];
        DriveSnoc(s[..i], s[i]);
        ScanDrives(s, size, next.value, i + 1);
      }
    }
  }

  /** `n` is the number a string of the given size holds, up to its end or a NUL. */
  predicate Holds(s: string, size: nat, n: Num)
    requires size <= |s|
  {
    && WellFormed(n) && |Render(n)| <= size && Render(n) == s[..|Render(n)|]
    && (|Render(n)| == size || s[|Render(n)|] == '\0')
  }

  lemma {:induction false} DrivePrefix(t: string, k: nat)
    requires k <= |t| && Drive(t).Some?
    ensures Drive(t[..k]).Some?
    ensures k < |t| ==> Next(Drive(t[..k]).value, t[k]).Some?
  {
    if k < |t| {
      var init := t[..|t| - 1];
      if k < |init| {
        DrivePrefix(init, k);
        assert init[..k] == t[..k];
      } else {
        assert init == t[..k];
      }
    } else {
      assert t[..k] == t;
    }
  }

  /** The scan stops exactly behind the number a string holds. */
  lemma ScanStops(s: string, size: nat, n: Num)
    requires size <= |s| && Holds(s, size, n)
    ensures Scan(s, size, 0, 0).1 == |Render(n)|
  {
    var t := Render(n);
    DriveNumber(n);
    ScanDrives(s, size, 0, 0);
    var (state, k) := Scan(s, size, 0, 0);
    if k < |t| {
      assert t[..k] == s[..k] && t[k] == s[k];
      DrivePrefix(t, k);
    } else if k > |t| {
      assert s[..k][..|t|] == t && s[..k][|t|] == '\0';
      DrivePrefix(s[..k], |t|);
    }
  }

  /** png_check_fp_string accepts exactly the strings that hold a number, and the
      three sign tests tell the truth about it. */
  lemma RecogniserIsGrammar(s: string, size: nat)
    requires size <= |s|
    ensures CheckFpString(s, size) != 0 <==> exists n :: Holds(s, size, n)
    ensures forall n :: Holds(s, size, n) ==>
              var state := CheckFpString(s, size);
              && (IsZero(state) <==> !HasNonZero(n.whole + n.frac))
              && (IsPositive(state) <==> HasNonZero(n.whole + n.frac) && n.sign != "-")
              && (IsNegative(state) <==> HasNonZero(n.whole + n.frac) && n.sign == "-")
  {
    assert s[..0] == "";
    ScanDrives(s, size, 0, 0);
    var (state, k) := Scan(s, size, 0, 0);
    AcceptingBit(state);
    if CheckFpString(s, size) != 0 {
      var n := Decompose(s[..k]);
      ShapeAccepts(ConfOf(state).phase, n);
      assert Holds(s, size, n);
    }
    forall n | Holds(s, size, n)
      ensures CheckFpString(s, size) != 0
      ensures IsZero(CheckFpString(s, size)) <==> !HasNonZero(n.whole + n.frac)
      ensures IsPositive(CheckFpString(s, size)) <==> HasNonZero(n.whole + n.frac) && n.sign != "-"
      ensures IsNegative(CheckFpString(s, size)) <==> HasNonZero(n.whole + n.frac) && n.sign == "-"
    {
      ScanStops(s, size, n);
      DriveNumber(n);
      assert s[..k] == Render(n);
      SignTests(state);
    }
  }

  lemma SignTests(state: bv16)
    requires state & SAW_DIGIT != 0
    ensures IsZero(state) <==> !ConfOf(state).nonzero
    ensures IsPositive(state) <==> ConfOf(state).nonzero && !ConfOf(state).negative
    ensures IsNegative(state) <==> ConfOf(state).nonzero && ConfOf(state).negative
    ensures state != 0
  {
  }
}
