/** The Adam7 macros of png.h: which rows and columns belong to which pass, how
    many there are, and where they land in the full image. */
module Adam7 {
  import opened Arithmetic

  type Pass = p: nat | p < 7

  /** x << n */
  function Shl(x: int, n: nat): int
    requires n <= 3
  {
    match n case 0 => x case 1 => 2 * x case 2 => 4 * x case 3 => 8 * x
  }

  /** x >> n */
  function Shr(x: int, n: nat): int
    requires n <= 7
  {
    match n
    case 0 => x case 1 => x / 2 case 2 => x / 4 case 3 => x / 8
    case 4 => x / 16 case 5 => x / 32 case 6 => x / 64 case 7 => x / 128
  }

  /** x >> (n << 2) */
  function ShrNibbles(x: int, n: nat): int
    decreases n
  {
    if n == 0 then x else ShrNibbles(x / 16, n - 1)
  }

  function StartRow(pass: Pass): int {
    Shl(1 - pass % 2, 3 - pass / 2) % 8
  }

  function StartCol(pass: Pass): int {
    Shl(pass % 2, 3 - (pass + 1) / 2) % 8
  }

  function RowOffset(pass: Pass): int {
    if pass > 2 then Shr(8, (pass - 1) / 2) else 8
  }

  function ColOffset(pass: Pass): int {
    Shl(1, (7 - pass) / 2)
  }

  function RowShift(pass: Pass): nat {
    if pass > 2 then (8 - pass) / 2 else 3
  }

  function ColShift(pass: Pass): nat {
    if pass > 1 then (7 - pass) / 2 else 3
  }

  /** PNG_PASS_ROWS */
  function PassRows(height: int, pass: Pass): int {
    Shr(height + (Shl(1, RowShift(pass)) - 1 - StartRow(pass)), RowShift(pass))
  }

  /** PNG_PASS_COLS */
  function PassCols(width: int, pass: Pass): int {
    Shr(width + (Shl(1, ColShift(pass)) - 1 - StartCol(pass)), ColShift(pass))
  }

  /** PNG_ROW_FROM_PASS_ROW */
  function RowFromPassRow(y: int, pass: Pass): int {
    Shl(y, RowShift(pass)) + StartRow(pass)
  }

  /** PNG_COL_FROM_PASS_COL */
  function ColFromPassCol(x: int, pass: Pass): int {
    Shl(x, ColShift(pass)) + StartCol(pass)
  }

  /** PNG_PASS_MASK: one bit for each row (offset 0) or column (offset 1) of the
      8x8 tile, packed as nibbles of two constants. */
  function PassMask(pass: Pass, offset: nat): int
    requires offset <= 1
  {
    var shift := 7 - offset - pass;
    ShrNibbles(0x110145AF, shift) % 16 + (ShrNibbles(0x01145AF0, shift) / 16 % 16) * 16
  }

  /** PNG_ROW_IN_INTERLACE_PASS */
  predicate RowInPass(y: nat, pass: Pass) {
    Shr(PassMask(pass, 0), y % 8) % 2 == 1
  }

  /** PNG_COL_IN_INTERLACE_PASS */
  predicate ColInPass(x: nat, pass: Pass) {
    Shr(PassMask(pass, 1), x % 8) % 2 == 1
  }

  predicate PixelInPass(x: nat, y: nat, pass: Pass) {
    RowInPass(y, pass) && ColInPass(x, pass)
  }

  // ---------------------------------------------------------------- the tables

  /** png_pass_start, png_pass_inc, png_pass_ystart and png_pass_yinc, the tables
      of png_read_push_finish_row and png_read_finish_row. */
  function PassStart(pass: Pass): nat {
    match pass case 1 => 4 case 3 => 2 case 5 => 1 case _ => 0
  }

  function PassInc(pass: Pass): nat
    ensures PassInc(pass) > PassStart(pass)
  {
    if pass <= 1 then 8 else if pass <= 3 then 4 else if pass <= 5 then 2 else 1
  }

  function PassYStart(pass: Pass): nat {
    match pass case 2 => 4 case 4 => 2 case 6 => 1 case _ => 0
  }

  function PassYInc(pass: Pass): nat
    ensures PassYInc(pass) > PassYStart(pass)
  {
    if pass <= 2 then 8 else if pass <= 4 then 4 else 2
  }

  /** The macros and the tables describe the same geometry. */
  lemma MacrosAreTables(pass: Pass)
    ensures StartRow(pass) == PassYStart(pass) && StartCol(pass) == PassStart(pass)
    ensures RowOffset(pass) == Shl(1, RowShift(pass)) == PassYInc(pass)
    ensures ColOffset(pass) == Shl(1, ColShift(pass)) == PassInc(pass)
  {
    match pass
    case 0 => case 1 => case 2 => case 3 => case 4 => case 5 => case 6 =>
  }

  /** Closed forms of the counting macros. */
  lemma Counts(width: int, height: int, pass: Pass)
    ensures PassRows(height, pass) ==
            match pass { case 0 => (height + 7) / 8 case 1 => (height + 7) / 8 case 2 => (height + 3) / 8
                         case 3 => (height + 3) / 4 case 4 => (height + 1) / 4 case 5 => (height + 1) / 2
                         case 6 => height / 2 }
    ensures PassCols(width, pass) ==
            match pass { case 0 => (width + 7) / 8 case 1 => (width + 3) / 8 case 2 => (width + 3) / 4
                         case 3 => (width + 1) / 4 case 4 => (width + 1) / 2 case 5 => width / 2
                         case 6 => width }
  {
    match pass
    case 0 => case 1 => case 2 => case 3 => case 4 => case 5 => case 6 =>
  }

  /** The counts the row counters of both readers compute from the tables. */
  lemma CountsAreTables(width: nat, height: nat, pass: Pass)
    ensures PassRows(height, pass)
         == (height + PassYInc(pass) - 1 - PassYStart(pass)) / PassYInc(pass)
    ensures PassCols(width, pass)
         == (width + PassInc(pass) - 1 - PassStart(pass)) / PassInc(pass)
    ensures PassRows(height, pass) >= 0 && PassCols(width, pass) >= 0
  {
    Counts(width, height, pass);
  }

  function RowMask(pass: Pass): int {
    match pass
    case 0 => 0x01 case 1 => 0x01 case 2 => 0x10 case 3 => 0x11 case 4 => 0x44 case 5 => 0x55 case 6 => 0xAA
  }

  function ColMask(pass: Pass): int {
    match pass
    case 0 => 0x01 case 1 => 0x10 case 2 => 0x11 case 3 => 0x44 case 4 => 0x55 case 5 => 0xAA case 6 => 0xFF
  }

  /** The successive nibbles of a constant. */
  lemma NibblesOf(x: int)
    ensures ShrNibbles(x, 0) == x
    ensures ShrNibbles(x, 1) == x / 16
    ensures ShrNibbles(x, 2) == x / 16 / 16
    ensures ShrNibbles(x, 3) == x / 16 / 16 / 16
  {
  }

  lemma ShiftedFar(x: int, n: nat)
    requires n >= 4
    ensures ShrNibbles(x, n) == ShrNibbles(x / 16 / 16 / 16 / 16, n - 4)
  {
    assert ShrNibbles(x, n) == ShrNibbles(x / 16, n - 1);
    assert ShrNibbles(x / 16, n - 1) == ShrNibbles(x / 16 / 16, n - 2);
    assert ShrNibbles(x / 16 / 16, n - 2) == ShrNibbles(x / 16 / 16 / 16, n - 3);
  }

  lemma LowConstant(n: nat)
    requires n <= 7
    ensures ShrNibbles(0x110145AF, n) % 16 ==
            match n { case 0 => 0xF case 1 => 0xA case 2 => 5 case 3 => 4 case 4 => 1 case 5 => 0 case 6 => 1 case 7 => 1 }
  {
    NibblesOf(0x110145AF);
    NibblesOf(0x1101);
    if n >= 4 {
      ShiftedFar(0x110145AF, n);
      assert 0x110145AF / 16 / 16 / 16 / 16 == 0x1101;
    }
  }

  lemma HighConstant(n: nat)
    requires n <= 7
    ensures ShrNibbles(0x01145AF0, n) / 16 % 16 ==
            match n { case 0 => 0xF case 1 => 0xA case 2 => 5 case 3 => 4 case 4 => 1 case 5 => 1 case 6 => 0 case 7 => 0 }
  {
    NibblesOf(0x01145AF0);
    NibblesOf(0x0114);
    if n >= 4 {
      ShiftedFar(0x01145AF0, n);
      assert 0x01145AF0 / 16 / 16 / 16 / 16 == 0x0114;
    }
  }

  lemma MaskValues(pass: Pass)
    ensures PassMask(pass, 0) == RowMask(pass)
    ensures PassMask(pass, 1) == ColMask(pass)
  {
    LowConstant(7 - pass);
    HighConstant(7 - pass);
    LowConstant(6 - pass);
    HighConstant(6 - pass);
  }

  lemma Mod4(n: int, k: int, r: int)
    requires n == 4 * k + r && 0 <= r < 4
    ensures n % 4 == r
  {
  }

  lemma Mod2(n: int, k: int, r: int)
    requires n == 2 * k + r && 0 <= r < 2
    ensures n % 2 == r
  {
  }

  lemma LowBits(n: nat)
    ensures n % 4 == n % 8 % 4 && n % 2 == n % 8 % 2
  {
    var q, r := n / 8, n % 8;
    Mod4(n, 2 * q + r / 4, r % 4);
    Mod2(n, 4 * q + r / 2, r % 2);
  }

  lemma RowBits(pass: Pass, r: nat)
    requires r < 8
    ensures Shr(RowMask(pass), r) % 2 == 1 <==> r % PassYInc(pass) == PassYStart(pass)
  {
    match r
    case 0 => case 1 => case 2 => case 3 => case 4 => case 5 => case 6 => case 7 =>
  }

  lemma ColBits(pass: Pass, r: nat)
    requires r < 8
    ensures Shr(ColMask(pass), r) % 2 == 1 <==> r % PassInc(pass) == PassStart(pass)
  {
    match r
    case 0 => case 1 => case 2 => case 3 => case 4 => case 5 => case 6 => case 7 =>
  }

  lemma ModInc(n: nat, inc: nat)
    requires inc in {1, 2, 4, 8}
    ensures n % 8 % inc == n % inc
  {
    LowBits(n);
  }

  /** The bit masks select exactly the arithmetic progressions of the tables. */
  lemma RowInPassIff(y: nat, pass: Pass)
    ensures RowInPass(y, pass) <==> y % PassYInc(pass) == PassYStart(pass)
  {
    ModInc(y, PassYInc(pass));
    RowBits(pass, y % 8);
    MaskBit(RowMask(pass), pass, 0, y % 8);
  }

  lemma ColInPassIff(x: nat, pass: Pass)
    ensures ColInPass(x, pass) <==> x % PassInc(pass) == PassStart(pass)
  {
    ModInc(x, PassInc(pass));
    ColBits(pass, x % 8);
    MaskBit(ColMask(pass), pass, 1, x % 8);
  }

  lemma MaskBit(mask: int, pass: Pass, offset: nat, r: nat)
    requires offset <= 1 && r <= 7
    requires mask == if offset == 0 then RowMask(pass) else ColMask(pass)
    ensures Shr(PassMask(pass, offset), r) == Shr(mask, r)
  {
    MaskValues(pass);
  }

  // ---------------------------------------------------------------- partition

  /** The pass that transmits a pixel, decided from the low bits of its position. */
  function PassOf(x: nat, y: nat): Pass {
    if y % 2 == 1 then 6
    else if x % 2 == 1 then 5
    else if y % 4 == 2 then 4
    else if x % 4 == 2 then 3
    else if y % 8 == 4 then 2
    else if x % 8 == 4 then 1
    else 0
  }

  lemma Residues(n: nat)
    ensures n % 2 == 0 <==> n % 4 == 0 || n % 4 == 2
    ensures n % 4 == 0 <==> n % 8 == 0 || n % 8 == 4
    ensures n % 2 == 0 || n % 2 == 1
  {
    LowBits(n);
    SmallResidues(n % 8);
  }

  lemma SmallResidues(r: nat)
    requires r < 8
    ensures r % 2 == 0 <==> r % 4 == 0 || r % 4 == 2
    ensures r % 4 == 0 <==> r == 0 || r == 4
  {
  }

  lemma ProgressionsPartition(x: nat, y: nat, pass: Pass)
    ensures y % PassYInc(pass) == PassYStart(pass) && x % PassInc(pass) == PassStart(pass)
            <==> pass == PassOf(x, y)
  {
    Residues(x);
    Residues(y);
  }

  /** Every pixel is in exactly one pass. */
  lemma Partition(x: nat, y: nat, pass: Pass)
    ensures PixelInPass(x, y, pass) <==> pass == PassOf(x, y)
  {
    RowInPassIff(y, pass);
    ColInPassIff(x, pass);
    ProgressionsPartition(x, y, pass);
  }

  lemma Forms(j: int, pass: Pass)
    ensures RowFromPassRow(j, pass) == j * PassYInc(pass) + PassYStart(pass)
    ensures ColFromPassCol(j, pass) == j * PassInc(pass) + PassStart(pass)
  {
    MacrosAreTables(pass);
    match pass
    case 0 => case 1 => case 2 => case 3 => case 4 => case 5 => case 6 =>
  }

  lemma Enumerate(n: nat, inc: nat, start: nat, j: nat)
    requires inc in {1, 2, 4, 8} && start < inc
    ensures j * inc + start < n <==> j < (n + inc - 1 - start) / inc
    ensures (j * inc + start) / inc == j && (j * inc + start) % inc == start
  {
  }

  /** RowFromPassRow enumerates the rows of a pass inside the image: it stays in
      the pass, is inside exactly for the first PassRows indices, and division by
      the row offset inverts it. */
  lemma RowEnumeration(height: nat, pass: Pass, j: nat)
    ensures var y := RowFromPassRow(j, pass);
      && y >= 0 && RowInPass(y, pass)
      && (y < height <==> j < PassRows(height, pass))
      && y / PassYInc(pass) == j
  {
    Forms(j, pass);
    Enumerate(height, PassYInc(pass), PassYStart(pass), j);
    CountsAreTables(0, height, pass);
    RowInPassIff(j * PassYInc(pass) + PassYStart(pass), pass);
  }

  lemma RowEnumerationOnto(pass: Pass, y: nat)
    requires RowInPass(y, pass)
    ensures RowFromPassRow(y / PassYInc(pass), pass) == y
  {
    Forms(y / PassYInc(pass), pass);
    RowInPassIff(y, pass);
  }

  lemma ColEnumeration(width: nat, pass: Pass, j: nat)
    ensures var x := ColFromPassCol(j, pass);
      && x >= 0 && ColInPass(x, pass)
      && (x < width <==> j < PassCols(width, pass))
      && x / PassInc(pass) == j
  {
    Forms(j, pass);
    Enumerate(width, PassInc(pass), PassStart(pass), j);
    CountsAreTables(width, 0, pass);
    ColInPassIff(j * PassInc(pass) + PassStart(pass), pass);
  }

  lemma ColEnumerationOnto(pass: Pass, x: nat)
    requires ColInPass(x, pass)
    ensures ColFromPassCol(x / PassInc(pass), pass) == x
  {
    Forms(x / PassInc(pass), pass);
    ColInPassIff(x, pass);
  }

  /** The rows of an image that are in a pass. */
  function RowsOf(height: nat, pass: Pass): set<nat> {
    set y: nat | y < height && RowInPass(y, pass)
  }

  function Progression(n: nat, inc: nat, start: nat): set<nat>
    requires inc > 0
  {
    set y: nat | y < n && y % inc == start
  }

  lemma {:induction false} ProgressionCount(n: nat, inc: nat, start: nat)
    requires inc in {1, 2, 4, 8} && start < inc
    ensures |Progression(n, inc, start)| == Tally(n, inc, start)
  {
    if n == 0 {
      assert Progression(0, inc, start) == {};
    } else {
      var before, after := Progression(n - 1, inc, start), Progression(n, inc, start);
      ProgressionCount(n - 1, inc, start);
      assert after == before + if (n - 1) % inc == start then {n - 1} else {};
    }
  }

  /** Members of the progression below n, counted one by one. */
  function Tally(n: nat, inc: nat, start: nat): nat
    requires inc > 0
  {
    if n == 0 then 0
    else Tally(n - 1, inc, start) + if (n - 1) % inc == start then 1 else 0
  }

  lemma {:induction false} TallyIsQuotient(n: nat, inc: nat, start: nat)
    requires inc in {1, 2, 4, 8} && start < inc
    ensures Tally(n, inc, start) == (n + inc - 1 - start) / inc
  {
    if n > 0 {
      TallyIsQuotient(n - 1, inc, start);
      OneMore(n - 1, inc, start);
    } else {
      DivUnique(inc - 1 - start, inc, 0, inc - 1 - start);
    }
  }

  lemma OneMore(n: nat, inc: nat, start: nat)
    requires inc in {1, 2, 4, 8} && start < inc
    ensures (n + inc - start) / inc - (n + inc - 1 - start) / inc == if n % inc == start then 1 else 0
  {
  }

  lemma RowsAreProgression(height: nat, pass: Pass)
    ensures RowsOf(height, pass) == Progression(height, PassYInc(pass), PassYStart(pass))
  {
    forall y: nat
      ensures RowInPass(y, pass) <==> y % PassYInc(pass) == PassYStart(pass)
    {
      RowInPassIff(y, pass);
    }
  }

  /** PassRows counts them. */
  lemma PassRowsCounts(height: nat, pass: Pass)
    ensures |RowsOf(height, pass)| == PassRows(height, pass)
  {
    hide RowsOf, Progression, Tally, PassRows, PassCols;
    RowsAreProgression(height, pass);
    CountsAreTables(0, height, pass);
    ProgressionCount(height, PassYInc(pass), PassYStart(pass));
    TallyIsQuotient(height, PassYInc(pass), PassYStart(pass));
  }

  function PixelsInPass(width: nat, height: nat, pass: Pass): int {
    PassRows(height, pass) * PassCols(width, pass)
  }

  /** The seven sub-images together have exactly width * height pixels: each pass
      doubles the part of the image that is covered. */
  lemma PassesCoverImage(width: nat, height: nat)
    ensures PixelsInPass(width, height, 0) + PixelsInPass(width, height, 1)
          + PixelsInPass(width, height, 2) + PixelsInPass(width, height, 3)
          + PixelsInPass(width, height, 4) + PixelsInPass(width, height, 5)
          + PixelsInPass(width, height, 6) == width * height
  {
    var R := seq(7, p requires 0 <= p < 7 => PassRows(height, p));
    var C := seq(7, p requires 0 <= p < 7 => PassCols(width, p));
    HalvesJoin(width, height);
    Join(R[0], C[0], C[1], C[2]);
    Join(C[2], R[0], R[2], R[3]);
    Join(R[3], C[2], C[3], C[4]);
    Join(C[4], R[3], R[4], R[5]);
    Join(R[5], C[4], C[5], width);
    Join(width, R[5], R[6], height);
  }

  lemma HalvesJoin(width: nat, height: nat)
    ensures PassRows(height, 0) == PassRows(height, 1)
    ensures PassRows(height, 0) + PassRows(height, 2) == PassRows(height, 3)
    ensures PassRows(height, 3) + PassRows(height, 4) == PassRows(height, 5)
    ensures PassRows(height, 5) + PassRows(height, 6) == height
    ensures PassCols(width, 0) + PassCols(width, 1) == PassCols(width, 2)
    ensures PassCols(width, 2) + PassCols(width, 3) == PassCols(width, 4)
    ensures PassCols(width, 4) + PassCols(width, 5) == PassCols(width, 6) == width
  {
    Counts(width, height, 0); Counts(width, height, 1); Counts(width, height, 2); Counts(width, height, 3);
    Counts(width, height, 4); Counts(width, height, 5); Counts(width, height, 6);
    HalvesMeet(width);
    HalvesMeet(height);
  }

  lemma HalvesMeet(n: nat)
    ensures (n + 7) / 8 + (n + 3) / 8 == (n + 3) / 4
    ensures (n + 3) / 4 + (n + 1) / 4 == (n + 1) / 2
    ensures (n + 1) / 2 + n / 2 == n
  {
    Halve(n);
    Halve((n + 1) / 2);
    Halve((n + 3) / 4);
    Quarter(n + 1);
    Quarter(n + 3);
    Eighth(n + 3);
    Eighth(n + 7);
  }

  lemma Quarter(m: nat)
    ensures m / 2 / 2 == m / 4
  {
  }

  lemma Eighth(m: nat)
    ensures m / 4 / 2 == m / 8
  {
  }

  lemma Halve(m: nat)
    ensures m / 2 + (m + 1) / 2 == m
  {
  }

  lemma Join(common: int, a: int, b: int, c: int)
    requires a + b == c
    ensures common * a + common * b == common * c
  {
  }
}
