/** The order in which scanlines are decoded and row callbacks are made: the
    push reader's row counter and its expansion of interlaced rows (pngpread.c),
    and the sequential reader's row switch (pngread.c, pngrutil.c). */
module RowSchedule {
  import opened Arithmetic
  import opened Adam7

  /** A row of a pass. */
  datatype Spot = Spot(pass: nat, row: nat)

  /** A call of the application's row callback; `data` is false for the NULL row
      that says nothing has changed. */
  datatype Callback = Callback(pass: nat, row: nat, data: bool)

  /** Not interlaced, interlaced with PNG_INTERLACE (rows expanded to the full
      image), or interlaced without it (the seven sub-images as they are). */
  datatype Mode = Plain | Expanded | SubImages

  /** The source's own test for a pass without columns. */
  predicate Live(width: nat, pass: Pass) {
    !(pass == 1 && width < 5) && !(pass == 3 && width < 3) && !(pass == 5 && width < 2)
  }

  /** The rows and columns of an image that are in a pass, counted one by one. */
  function SubRows(height: nat, pass: Pass): nat {
    Tally(height, PassYInc(pass), PassYStart(pass))
  }

  function SubCols(width: nat, pass: Pass): nat {
    Tally(width, PassInc(pass), PassStart(pass))
  }

  /** They are the counts of the macros, and the skip test is right. */
  lemma SubImageSize(width: nat, height: nat, pass: Pass)
    ensures SubRows(height, pass) == PassRows(height, pass)
    ensures SubCols(width, pass) == PassCols(width, pass)
    ensures width >= 1 ==> (Live(width, pass) <==> SubCols(width, pass) > 0)
  {
    CountsAreTables(width, height, pass);
    TallyIsQuotient(height, PassYInc(pass), PassYStart(pass));
    TallyIsQuotient(width, PassInc(pass), PassStart(pass));
    Counts(width, height, pass);
  }

  lemma FirstPassHasRows(height: nat)
    requires height >= 1
    ensures SubRows(height, 0) > 0
  {
    TallyIsQuotient(height, 8, 0);
  }

  predicate OnRow(pass: Pass, y: nat) {
    y % PassYInc(pass) == PassYStart(pass)
  }

  /** A scanline of the pass lies at or above this row in its interlace block, so
      the callback has new pixels to show. */
  predicate HasData(pass: Pass, y: nat) {
    y % PassYInc(pass) >= PassYStart(pass)
  }

  /** The row is in the pass as the macro has it. */
  lemma OnRowIff(pass: Pass, y: nat)
    ensures OnRow(pass, y) <==> RowInPass(y, pass)
  {
    RowInPassIff(y, pass);
  }

  /** New pixels are shown from a row of the pass down to the next block of PassYInc rows. */
  lemma HasDataIff(pass: Pass, y: nat)
    ensures HasData(pass, y) <==>
              exists z: nat :: z <= y && RowInPass(z, pass) && z / PassYInc(pass) == y / PassYInc(pass)
  {
    var inc, start := PassYInc(pass), PassYStart(pass);
    var q := y / inc;
    DivMod(y, inc);
    if HasData(pass, y) {
      var z := q * inc + start;
      DivUnique(z, inc, q, start);
      RowInPassIff(z, pass);
    }
    forall z: nat | z <= y && RowInPass(z, pass) && z / inc == q
      ensures HasData(pass, y)
    {
      RowInPassIff(z, pass);
      DivMod(z, inc);
    }
  }

  // ---------------------------------------------------------------- the schedule

  /** Rows of a pass for which a callback is due. */
  function RowsIn(mode: Mode, width: nat, height: nat, pass: Pass): nat {
    match mode
    case Plain => if pass == 0 then height else 0
    case Expanded => if Live(width, pass) then height else 0
    case SubImages => if Live(width, pass) then SubRows(height, pass) else 0
  }

  /** Everything still to come from row y of a pass on, in order. */
  function Rest(mode: Mode, width: nat, height: nat, pass: nat, y: nat): seq<Spot>
    decreases 7 - pass, if pass < 7 then RowsIn(mode, width, height, pass) - y else 0
  {
    if pass >= 7 then []
    else if y >= RowsIn(mode, width, height, pass) then Rest(mode, width, height, pass + 1, 0)
    else [Spot(pass, y)] + Rest(mode, width, height, pass, y + 1)
  }

  lemma RestUnrolls(mode: Mode, width: nat, height: nat, pass: Pass, y: nat)
    requires y < RowsIn(mode, width, height, pass)
    ensures Rest(mode, width, height, pass, y)
         == [Spot(pass, y)] + if y + 1 < RowsIn(mode, width, height, pass)
                              then Rest(mode, width, height, pass, y + 1)
                              else Rest(mode, width, height, pass + 1, 0)
  {
  }

  /** The spots whose row is in their pass: the ones that have a scanline. */
  function Scanlines(s: seq<Spot>): seq<Spot> {
    if s == [] then []
    else (if s[0].pass < 7 && OnRow(s[0].pass, s[0].row) then [s[0]] else []) + Scanlines(s[1..])
  }

  /** The spots of a schedule at which a scanline has to be decoded. */
  function Due(mode: Mode, s: seq<Spot>): seq<Spot> {
    if mode == Expanded then Scanlines(s) else s
  }

  lemma ScanlinesCons(p: Pass, y: nat, rest: seq<Spot>)
    ensures Scanlines([Spot(p, y)] + rest)
         == (if OnRow(p, y) then [Spot(p, y)] else []) + Scanlines(rest)
  {
    assert ([Spot(p, y)] + rest)[1..] == rest;
  }

  function SpotsOf(cs: seq<Callback>): seq<Spot> {
    if cs == [] then [] else SpotsOf(cs[..|cs| - 1]) + [Spot(cs[|cs| - 1].pass, cs[|cs| - 1].row)]
  }

  lemma {:induction false} SpotsAt(cs: seq<Callback>)
    ensures |SpotsOf(cs)| == |cs|
    ensures forall i :: 0 <= i < |cs| ==> SpotsOf(cs)[i] == Spot(cs[i].pass, cs[i].row)
    decreases |cs|
  {
    if cs != [] {
      SpotsAt(cs[..|cs| - 1]);
    }
  }

  predicate TruthfulCallback(mode: Mode, c: Callback) {
    c.pass < 7 && c.data == (mode != Expanded || HasData(c.pass, c.row))
  }

  predicate Truthful(mode: Mode, cs: seq<Callback>) {
    forall i :: 0 <= i < |cs| ==> TruthfulCallback(mode, cs[i])
  }

  lemma LogAppend(mode: Mode, cs: seq<Callback>, c: Callback, rest: seq<Spot>)
    ensures SpotsOf(cs + [c]) + rest == SpotsOf(cs) + ([Spot(c.pass, c.row)] + rest)
    ensures Truthful(mode, cs) && TruthfulCallback(mode, c) ==> Truthful(mode, cs + [c])
  {
    assert (cs + [c])[..|cs|] == cs;
  }

  // ---------------------------------------------------------------- the push reader

  /** The size of a sub-image, as the row counters compute it from the tables. */
  method PassSize(width: nat, height: nat, pass: Pass) returns (cols: nat, rows: nat)
    ensures cols == SubCols(width, pass) && rows == SubRows(height, pass)
    ensures width >= 1 ==> (Live(width, pass) <==> cols > 0)
  {
    CountsAreTables(width, height, pass);
    SubImageSize(width, height, pass);
    cols := (width + PassInc(pass) - 1 - PassStart(pass)) / PassInc(pass);
    rows := (height + PassYInc(pass) - 1 - PassYStart(pass)) / PassYInc(pass);
  }

  class PushRows {
    const mode: Mode
    const width: nat
    const height: nat
    var pass: nat
    var rowNumber: nat
    var numRows: nat
    var iwidth: nat
    var callbacks: seq<Callback>
    ghost var entries: seq<Spot>

    /** The test png_process_IDAT_data makes before it accepts another row. */
    predicate Finished()
      reads this
    {
      rowNumber >= numRows || pass > 6
    }

    ghost function Remaining(): seq<Spot>
      reads this
    {
      Rest(mode, width, height, pass, rowNumber)
    }

    ghost function Schedule(): seq<Spot>
      reads this
    {
      Rest(mode, width, height, 0, 0)
    }

    /** The row counters of the current pass. */
    ghost predicate Counters()
      reads this
    {
      && width >= 1 && height >= 1 && pass <= 7
      && (pass < 7 ==>
            && numRows == RowsIn(mode, width, height, pass)
            && iwidth == (if mode == Plain then width else SubCols(width, pass))
            && iwidth > 0 && rowNumber <= numRows
            && (mode != Plain ==> rowNumber < numRows)
            && (mode == Plain ==> pass == 0))
    }

    /** The callbacks so far, followed by the rest, are the whole schedule, and
        each one tells the truth about new pixels. */
    ghost predicate Logged()
      reads this
    {
      && Counters()
      && SpotsOf(callbacks) + Remaining() == Schedule()
      && Truthful(mode, callbacks)
    }

    /** Between two scanlines: the entries made so far, followed by those due,
        are exactly the scanlines of the schedule, and the next entry is at the
        current row. */
    ghost predicate Valid()
      reads this
    {
      && Logged()
      && entries + Due(mode, Remaining()) == Due(mode, Schedule())
      && (mode == Expanded && pass < 7 ==> OnRow(pass, rowNumber))
    }

    /** png_read_start_row */
    constructor (mode: Mode, width: nat, height: nat)
      requires width >= 1 && height >= 1
      ensures Valid() && callbacks == [] && !Finished()
      ensures this.mode == mode && this.width == width && this.height == height
      ensures pass == 0 && rowNumber == 0
    {
      this.mode, this.width, this.height := mode, width, height;
      pass, rowNumber, callbacks, entries := 0, 0, [], [];
      FirstPassHasRows(height);
      var cols, rows := PassSize(width, height, 0);
      numRows := if mode == SubImages then rows else height;
      iwidth := if mode == Plain then width else cols;
      new;
      assert SpotsOf(callbacks) + Remaining() == Schedule();
      assert entries + Due(mode, Remaining()) == Due(mode, Schedule());
    }

    /** png_read_push_finish_row */
    method FinishRow()
      requires Counters() && !Finished()
      modifies this`rowNumber, this`pass, this`iwidth, this`numRows
      ensures Counters()
      ensures old(Remaining()) == [Spot(old(pass), old(rowNumber))] + Remaining()
      ensures old(rowNumber) + 1 < old(numRows) ==> pass == old(pass) && rowNumber == old(rowNumber) + 1
      ensures mode == Expanded && old(rowNumber) + 1 >= old(numRows) ==>
                rowNumber == 0 && pass == NextLive(old(pass))
    {
      RestUnrolls(mode, width, height, pass, rowNumber);
      rowNumber := rowNumber + 1;
      if rowNumber < numRows {
        return;
      }
      if mode != Plain {
        rowNumber := 0;
        NextPass();
      }
    }

    /** The loop of png_read_push_finish_row over the passes. */
    method NextPass()
      requires width >= 1 && height >= 1 && pass < 7 && rowNumber == 0 && mode != Plain
      requires mode == Expanded ==> numRows == height
      modifies this`pass, this`iwidth, this`numRows
      ensures Counters() && Remaining() == Rest(mode, width, height, old(pass) + 1, 0)
      ensures mode == Expanded ==> pass == NextLive(old(pass))
    {
      hide Tally, SpotsOf, Scanlines, Truthful;
      while true
        invariant pass < 7
        invariant mode == Expanded ==> pass == old(pass) && numRows == height
        invariant Rest(mode, width, height, old(pass) + 1, 0) == Rest(mode, width, height, pass + 1, 0)
        decreases 7 - pass
      {
        pass := pass + 1;
        if (pass == 1 && width < 5) || (pass == 3 && width < 3) || (pass == 5 && width < 2) {
          pass := pass + 1;
        }
        assert pass <= 7;  // so the source's test for a pass above 7 never fires
        if pass == 7 {
          break;
        }
        var rows;
        iwidth, rows := PassSize(width, height, pass);
        if mode == Expanded {
          break;
        }
        numRows := rows;
        if iwidth != 0 && numRows != 0 {
          break;
        }
      }
    }

    /** The next pass with columns, or 7. */
    ghost function NextLive(pass: nat): nat
      requires pass < 7
    {
      if pass == 6 || Live(width, pass + 1) then pass + 1 else pass + 2
    }

    /** png_push_have_row followed by png_read_push_finish_row */
    method EmitRow(data: bool)
      requires Logged() && !Finished()
      requires data == (mode != Expanded || HasData(pass, rowNumber))
      modifies this`callbacks, this`rowNumber, this`pass, this`iwidth, this`numRows
      ensures Logged()
      ensures old(Remaining()) == [Spot(old(pass), old(rowNumber))] + Remaining()
      ensures old(rowNumber) + 1 < old(numRows) ==> pass == old(pass) && rowNumber == old(rowNumber) + 1
      ensures mode == Expanded && old(rowNumber) + 1 >= old(numRows) ==>
                rowNumber == 0 && pass == NextLive(old(pass))
    {
      var c := Callback(pass, rowNumber, data);
      callbacks := callbacks + [c];
      FinishRow();
      LogAppend(mode, old(callbacks), c, Remaining());
    }

    /** One block of callbacks of a pass: with data, from a row of the pass to the
        end of its interlace block; without, from the start of a block to the
        row of the pass in it. The block ends early with the image. */
    method EmitBlock(n: nat, data: bool)
      requires Logged() && mode == Expanded && pass < 7
      requires IsBlock(pass, rowNumber, n, data)
      modifies this`callbacks, this`rowNumber, this`pass, this`iwidth, this`numRows
      ensures Logged()
      ensures Scanlines(old(Remaining())) ==
              (if data then [Spot(old(pass), old(rowNumber))] else []) + Scanlines(Remaining())
      ensures Spot(pass, rowNumber) == After(old(pass), old(rowNumber), n)
      ensures pass < 7 ==>
                && (OnRow(pass, rowNumber) <==> !AtGap(pass, rowNumber))
                && (AtGap(pass, rowNumber) <==> PassYStart(pass) > 0 && (data || pass != old(pass)))
    {
      hide Rest, Scanlines, SpotsOf, Tally, Truthful;
      ghost var p, y := pass, rowNumber;
      var i := 0;
      var current := pass;
      while i < n && pass == current
        invariant Logged() && i <= n
        invariant if pass == p then rowNumber == y + i else y + i >= height && rowNumber == 0 && pass == NextLive(p)
        invariant Scanlines(old(Remaining())) ==
                  (if data && i > 0 then [Spot(p, y)] else []) + Scanlines(Remaining())
      {
        BlockRow(p, y, n, i, data);
        EmitRow(data);
        ScanlinesCons(p, y + i, Remaining());
        i := i + 1;
      }
      BlockEnd(p, y, n, data);
      if pass < 7 && pass != p {
        BlockStart(pass);
      }
    }

    /** The position n rows on, which may be the start of the next pass. */
    ghost function After(pass: nat, row: nat, n: nat): Spot
      requires pass < 7
    {
      if row + n < height then Spot(pass, row + n) else Spot(NextLive(pass), 0)
    }

    /** png_push_process_row, after the row has been unfiltered. */
    method ProcessRow()
      requires Valid() && !Finished()
      modifies this
      ensures Valid() && entries == old(entries) + [Spot(old(pass), old(rowNumber))]
      ensures Due(mode, old(Remaining())) == [Spot(old(pass), old(rowNumber))] + Due(mode, Remaining())
    {
      hide Rest, Scanlines, SpotsOf, Tally, Truthful;
      ghost var spot, due := Spot(pass, rowNumber), Due(mode, Remaining());
      entries := entries + [spot];
      if mode == Expanded {
        ExpandRow();
      } else {
        EmitRow(true);
      }
      ghost var due' := Due(mode, Remaining());
      assert due == [spot] + due';
      assert (old(entries) + [spot]) + due' == old(entries) + ([spot] + due');
    }

    /** A whole image, one decoded scanline at a time: the callbacks are the
        schedule and the entries its scanlines, each once and in order. */
    method ProcessImage()
      requires Valid()
      modifies this
      ensures Valid() && Finished()
      ensures SpotsOf(callbacks) == Schedule() && Truthful(mode, callbacks)
      ensures |callbacks| == |Schedule()|
      ensures forall i :: 0 <= i < |callbacks| ==> Schedule()[i] == Spot(callbacks[i].pass, callbacks[i].row)
      ensures entries == Due(mode, Schedule())
      ensures mode != Plain ==> pass == 7
    {
      while !Finished()
        invariant Valid()
        decreases |Due(mode, Schedule())| - |entries|
      {
        ProcessRow();
        assert |entries| <= |Due(mode, Schedule())|;
      }
      NothingRemains(mode, width, height, pass, rowNumber);
      SpotsAt(callbacks);
    }

    /** The row counters say whether a scanline is due, which one, and how wide it is. */
    lemma DueHere()
      requires Valid()
      ensures Finished() <==> Due(mode, Remaining()) == []
      ensures !Finished() ==>
                && Due(mode, Remaining())[0] == Spot(pass, rowNumber) && pass < 7
                && iwidth == if mode == Plain then width else SubCols(width, pass)
    {
      if Finished() {
        NothingRemains(mode, width, height, pass, rowNumber);
      } else {
        RestUnrolls(mode, width, height, pass, rowNumber);
        if mode == Expanded {
          var rest := Remaining()[1..];
          assert Remaining() == [Spot(pass, rowNumber)] + rest;
          ScanlinesCons(pass, rowNumber, rest);
        }
      }
    }

    /** Every row expansion emits the callbacks up to the next scanline. */
    twostate predicate OneScanline()
      reads this
    {
      && Logged()
      && Scanlines(old(Remaining())) == [Spot(old(pass), old(rowNumber))] + Scanlines(Remaining())
      && (pass < 7 ==> OnRow(pass, rowNumber))
    }

    /** The switch on the pass in png_push_process_row. */
    method ExpandRow()
      requires Logged() && mode == Expanded && pass < 7 && OnRow(pass, rowNumber)
      modifies this`callbacks, this`rowNumber, this`pass, this`iwidth, this`numRows
      ensures OneScanline()
    {
      match pass
      case 0 => ExpandPass0();
      case 1 => ExpandOddPass(8, 4);
      case 2 => ExpandEvenPass(4, 4, 2);
      case 3 => ExpandOddPass(4, 2);
      case 4 => ExpandEvenPass(2, 2, 1);
      case 5 => ExpandOddPass(2, 1);
      case _ => ExpandPass6();
    }

    /** Case 0: the passes 1 to 5 may be without columns, and a low image may end
        before the first scanline of the passes 2, 4 and 6. */
    method ExpandPass0()
      requires Logged() && mode == Expanded && pass == 0 && OnRow(pass, rowNumber)
      modifies this`callbacks, this`rowNumber, this`pass, this`iwidth, this`numRows
      ensures OneScanline()
    {
      hide Rest, Scanlines, SpotsOf, Tally, Truthful;
      EmitBlock(8, true);
      if pass == 2 {
        EmitBlock(4, false);
      }
      SkipLowPasses();
    }

    /** The end of case 0, for an image of at most four rows. */
    method SkipLowPasses()
      requires Logged() && mode == Expanded && pass < 6
      requires if pass == 4 then rowNumber == 0 && height <= 4 else OnRow(pass, rowNumber)
      modifies this`callbacks, this`rowNumber, this`pass, this`iwidth, this`numRows
      ensures Logged() && Scanlines(old(Remaining())) == Scanlines(Remaining())
      ensures pass < 7 ==> OnRow(pass, rowNumber)
    {
      if pass == 4 && height <= 4 {
        EmitBlock(2, false);
      }
      if pass == 6 && height <= 4 {
        EmitBlock(1, false);
      }
    }

    /** Cases 1, 3 and 5: the next pass starts below its first block. */
    method ExpandOddPass(rows: nat, skip: nat)
      requires Logged() && mode == Expanded && pass in {1, 3, 5} && OnRow(pass, rowNumber)
      requires rows == PassYInc(pass) && skip == PassYStart(pass + 1)
      modifies this`callbacks, this`rowNumber, this`pass, this`iwidth, this`numRows
      ensures OneScanline()
    {
      hide Rest, Scanlines, SpotsOf, Tally, Truthful;
      var next := pass + 1;
      EmitBlock(rows, true);
      if pass == next {
        EmitBlock(skip, false);
      }
    }

    /** Cases 2 and 4: skip to the next scanline, or over an empty odd pass. */
    method ExpandEvenPass(rows: nat, gap: nat, skip: nat)
      requires Logged() && mode == Expanded && pass in {2, 4} && OnRow(pass, rowNumber)
      requires rows == PassYInc(pass) - PassYStart(pass) && gap == PassYStart(pass)
      requires skip == PassYStart(pass + 2)
      modifies this`callbacks, this`rowNumber, this`pass, this`iwidth, this`numRows
      ensures OneScanline()
    {
      hide Rest, Scanlines, SpotsOf, Tally, Truthful;
      var evenPass, next := pass, pass + 2;
      EmitBlock(rows, true);
      if pass == evenPass {
        EmitBlock(gap, false);
      }
      if pass == next {
        EmitBlock(skip, false);
      }
    }

    /** Case 6 */
    method ExpandPass6()
      requires Logged() && mode == Expanded && pass == 6 && OnRow(pass, rowNumber)
      modifies this`callbacks, this`rowNumber, this`pass, this`iwidth, this`numRows
      ensures OneScanline()
    {
      hide Rest, Scanlines, SpotsOf, Tally, Truthful;
      EmitBlock(1, true);
      if pass == 6 {
        EmitBlock(1, false);
      }
    }
  }

  lemma Residue(y: nat, inc: nat, i: nat)
    requires inc > 0 && y % inc + i <= inc
    ensures (y + i) % inc == if y % inc + i == inc then 0 else y % inc + i
  {
    var q, r := y / inc, y % inc;
    assert y == q * inc + r;
    if r + i < inc {
      DivUnique(y + i, inc, q, r + i);
    } else {
      assert (q + 1) * inc == q * inc + inc;
      DivUnique(y + i, inc, q + 1, 0);
    }
  }

  /** The start of an interlace block whose scanline is further down. */
  predicate AtGap(p: Pass, y: nat) {
    PassYStart(p) > 0 && y % PassYInc(p) == 0
  }

  /** A block of n rows that starts in row y, as EmitBlock makes it. */
  predicate IsBlock(p: Pass, y: nat, n: nat, data: bool) {
    if data then OnRow(p, y) && n == PassYInc(p) - PassYStart(p)
    else AtGap(p, y) && n == PassYStart(p)
  }

  lemma BlockRow(p: Pass, y: nat, n: nat, i: nat, data: bool)
    requires IsBlock(p, y, n, data) && i < n
    ensures HasData(p, y + i) == data
    ensures OnRow(p, y + i) <==> data && i == 0
  {
    Residue(y, PassYInc(p), i);
  }

  lemma BlockEnd(p: Pass, y: nat, n: nat, data: bool)
    requires IsBlock(p, y, n, data)
    ensures OnRow(p, y + n) <==> !AtGap(p, y + n)
    ensures AtGap(p, y + n) <==> PassYStart(p) > 0 && data
  {
    Residue(y, PassYInc(p), n);
  }

  lemma BlockStart(p: Pass)
    ensures OnRow(p, 0) <==> !AtGap(p, 0)
    ensures AtGap(p, 0) <==> PassYStart(p) > 0
  {
  }

  lemma {:induction false} NothingRemains(mode: Mode, width: nat, height: nat, pass: nat, y: nat)
    requires pass >= 7 || (mode == Plain && y >= if pass == 0 then height else 0)
    ensures Rest(mode, width, height, pass, y) == []
    decreases 7 - pass
  {
    if pass < 7 {
      NothingRemains(mode, width, height, pass + 1, 0);
    }
  }

  // ---------------------------------------------------------------- what the schedule is

  /** The schedule lists exactly the rows of the passes, ... */
  lemma {:induction false} RestMembers(mode: Mode, width: nat, height: nat, pass: nat, y: nat, s: Spot)
    ensures s in Rest(mode, width, height, pass, y) <==>
              && pass <= s.pass < 7 && s.row < RowsIn(mode, width, height, s.pass)
              && (s.pass == pass ==> y <= s.row)
    decreases 7 - pass, if pass < 7 then RowsIn(mode, width, height, pass) - y else 0
  {
    if pass < 7 {
      if y >= RowsIn(mode, width, height, pass) {
        RestMembers(mode, width, height, pass + 1, 0, s);
      } else {
        RestMembers(mode, width, height, pass, y + 1, s);
      }
    }
  }

  predicate Before(s: Spot, t: Spot) {
    s.pass < t.pass || (s.pass == t.pass && s.row < t.row)
  }

  /** ... in strictly increasing order, so each of them once. */
  lemma {:induction false} RestIncreasing(mode: Mode, width: nat, height: nat, pass: nat, y: nat)
    ensures var r := Rest(mode, width, height, pass, y);
      forall i, j :: 0 <= i < j < |r| ==> Before(r[i], r[j])
    decreases 7 - pass, if pass < 7 then RowsIn(mode, width, height, pass) - y else 0
  {
    if pass < 7 {
      RestCons(mode, width, height, pass, y);
      if y >= RowsIn(mode, width, height, pass) {
        RestIncreasing(mode, width, height, pass + 1, 0);
        assert Rest(mode, width, height, pass, y) == Rest(mode, width, height, pass + 1, 0);
      } else {
        RestIncreasing(mode, width, height, pass, y + 1);
        var r, r' := Rest(mode, width, height, pass, y), Rest(mode, width, height, pass, y + 1);
        assert r == [Spot(pass, y)] + r';
        forall i, j | 0 <= i < j < |r|
          ensures Before(r[i], r[j])
        {
          assert r[j] == r'[j - 1] && (i > 0 ==> r[i] == r'[i - 1]);
          RestMembers(mode, width, height, pass, y + 1, r[j]);
        }
      }
    }
  }

  /** A row of a sub-image, placed in the full image. */
  function Place(s: Spot): Spot {
    if s.pass < 7 then Spot(s.pass, s.row * PassYInc(s.pass) + PassYStart(s.pass)) else s
  }

  function PlaceAll(ss: seq<Spot>): seq<Spot> {
    if ss == [] then [] else [Place(ss[0])] + PlaceAll(ss[1..])
  }

  lemma PlaceCons(s: Spot, rest: seq<Spot>)
    ensures PlaceAll([s] + rest) == [Place(s)] + PlaceAll(rest)
  {
    assert ([s] + rest)[1..] == rest;
  }

  lemma RestCons(mode: Mode, width: nat, height: nat, pass: Pass, y: nat)
    ensures Rest(mode, width, height, pass, y) ==
            if y < RowsIn(mode, width, height, pass)
            then [Spot(pass, y)] + Rest(mode, width, height, pass, y + 1)
            else Rest(mode, width, height, pass + 1, 0)
  {
  }

  /** The number of rows of a pass above row y. */
  function RowsAbove(y: nat, pass: nat): nat {
    if pass < 7 then SubRows(y, pass) else 0
  }

  lemma RowsAboveStep(y: nat, height: nat, pass: Pass)
    requires y < height
    ensures RowsAbove(y + 1, pass) == RowsAbove(y, pass) + if OnRow(pass, y) then 1 else 0
    ensures RowsAbove(y + 1, pass) <= RowsAbove(height, pass)
    ensures OnRow(pass, y) ==> Place(Spot(pass, RowsAbove(y, pass))) == Spot(pass, y)
  {
    TallyMonotone(y + 1, height, PassYInc(pass), PassYStart(pass));
    if OnRow(pass, y) {
      TallyAt(y, PassYInc(pass), PassYStart(pass));
    }
  }

  /** The scanlines met from row y on are the rows of the sub-image from the
      number of pass rows above y on. */
  lemma {:induction false} ScanlinesFrom(width: nat, height: nat, pass: nat, y: nat)
    requires pass <= 7 && (pass < 7 ==> y <= height)
    ensures Scanlines(Rest(Expanded, width, height, pass, y))
         == PlaceAll(Rest(SubImages, width, height, pass, RowsAbove(y, pass)))
    decreases 7 - pass, if pass < 7 then height - y else 0
  {
    if pass == 7 {
      NothingRemains(Expanded, width, height, 7, y);
      NothingRemains(SubImages, width, height, 7, 0);
    } else {
      hide Rest, Scanlines, PlaceAll, Tally;
      var j := RowsAbove(y, pass);
      RestCons(Expanded, width, height, pass, y);
      RestCons(SubImages, width, height, pass, j);
      if !Live(width, pass) || y == height {
        ScanlinesFrom(width, height, pass + 1, 0);
        NoRowsAbove(pass + 1);
      } else {
        ScanlinesFrom(width, height, pass, y + 1);
        ScanlinesCons(pass, y, Rest(Expanded, width, height, pass, y + 1));
        RowsAboveStep(y, height, pass);
        PlaceCons(Spot(pass, j), Rest(SubImages, width, height, pass, j + 1));
      }
    }
  }

  lemma NoRowsAbove(pass: nat)
    ensures RowsAbove(0, pass) == 0
  {
  }

  lemma {:induction false} TallyMonotone(m: nat, n: nat, inc: nat, start: nat)
    requires inc > 0 && m <= n
    ensures Tally(m, inc, start) <= Tally(n, inc, start)
  {
    if m < n {
      TallyMonotone(m, n - 1, inc, start);
    }
  }

  /** The index of a member of a progression is the number of members below it. */
  lemma TallyAt(y: nat, inc: nat, start: nat)
    requires inc in {1, 2, 4, 8} && start < inc && y % inc == start
    ensures Tally(y, inc, start) * inc + start == y
  {
    TallyIsQuotient(y, inc, start);
  }

  /** With PNG_INTERLACE the push reader decodes a scanline exactly at the rows
      of the seven sub-images, in their order, placed in the full image: pass p
      is entered once for each of its PassRows rows. */
  lemma ScanlinesAreSubImageRows(width: nat, height: nat)
    ensures
      Scanlines(Rest(Expanded, width, height, 0, 0)) == PlaceAll(Rest(SubImages, width, height, 0, 0))
  {
    ScanlinesFrom(width, height, 0, 0);
    assert SubRows(0, 0) == 0;
  }

  /** How often a pass occurs. */
  function Visits(ss: seq<Spot>, pass: nat): nat {
    if ss == [] then 0 else (if ss[0].pass == pass then 1 else 0) + Visits(ss[1..], pass)
  }

  lemma VisitsCons(s: Spot, rest: seq<Spot>, pass: nat)
    ensures Visits([s] + rest, pass) == (if s.pass == pass then 1 else 0) + Visits(rest, pass)
  {
    assert ([s] + rest)[1..] == rest;
  }

  lemma {:induction false} VisitsPlaced(ss: seq<Spot>, pass: nat)
    ensures Visits(PlaceAll(ss), pass) == Visits(ss, pass)
  {
    if ss != [] {
      VisitsPlaced(ss[1..], pass);
      VisitsCons(Place(ss[0]), PlaceAll(ss[1..]), pass);
    }
  }

  lemma {:induction false} VisitsRest(mode: Mode, width: nat, height: nat, pass: nat, y: nat, p: Pass)
    ensures Visits(Rest(mode, width, height, pass, y), p) ==
            var n := RowsIn(mode, width, height, p);
            if p < pass then 0 else if p > pass then n else if y < n then n - y else 0
    decreases 7 - pass, if pass < 7 then RowsIn(mode, width, height, pass) - y else 0
  {
    if pass < 7 {
      RestCons(mode, width, height, pass, y);
      if y < RowsIn(mode, width, height, pass) {
        VisitsRest(mode, width, height, pass, y + 1, p);
        VisitsCons(Spot(pass, y), Rest(mode, width, height, pass, y + 1), p);
      } else {
        VisitsRest(mode, width, height, pass + 1, 0, p);
      }
    }
  }

  /** Pass p is entered exactly PNG_PASS_ROWS(height, p) times, or never if it has no
      columns. */
  lemma EntriesPerPass(width: nat, height: nat, p: Pass)
    requires width >= 1
    ensures Visits(Scanlines(Rest(Expanded, width, height, 0, 0)), p)
         == if PassCols(width, p) > 0 then PassRows(height, p) else 0
  {
    hide Rest, Scanlines, PlaceAll, Tally, PassRows, PassCols;
    ScanlinesAreSubImageRows(width, height);
    VisitsPlaced(Rest(SubImages, width, height, 0, 0), p);
    VisitsRest(SubImages, width, height, 0, 0, p);
    SubImageSize(width, height, p);
  }

  /** The placement is the macro PNG_ROW_FROM_PASS_ROW. */
  lemma PlaceIsMacro(s: Spot)
    requires s.pass < 7
    ensures Place(s).row == RowFromPassRow(s.row, s.pass) && RowInPass(Place(s).row, s.pass)
  {
    Forms(s.row, s.pass);
    RowEnumeration(0, s.pass, s.row);
  }

  // ---------------------------------------------------------------- the sequential reader

  /** The scanlines png_read_row decodes from row y of a pass on, when it is called
      for every row of every pass. */
  function Draws(width: nat, height: nat, pass: nat, y: nat): seq<Spot>
    decreases 7 - pass, height - y
  {
    if pass >= 7 then []
    else if y >= height then Draws(width, height, pass + 1, 0)
    else (if Live(width, pass) && OnRow(pass, y) then [Spot(pass, y)] else [])
         + Draws(width, height, pass, y + 1)
  }

  /** Rows of a pass that png_read_finish_row counts. */
  function CountedRows(mode: Mode, height: nat, pass: Pass): nat {
    if mode == SubImages then SubRows(height, pass) else height
  }

  class SequentialRows {
    const mode: Mode
    const width: nat
    const height: nat
    var pass: nat
    var rowNumber: nat
    var numRows: nat
    var iwidth: nat
    var finished: bool  // png_read_finish_IDAT has been called
    var draws: seq<Spot>

    /** The counters are those of the current row, until the image is finished. */
    ghost predicate Counters()
      reads this
    {
      && width >= 1 && height >= 1 && pass <= 7
      && (finished <==> if mode == Plain then rowNumber >= height else pass == 7)
      && (mode == Plain ==> pass == 0)
      && (!finished ==>
            && rowNumber < numRows == CountedRows(mode, height, pass)
            && iwidth == (if mode == Plain then width else SubCols(width, pass))
            && (mode == SubImages ==> iwidth > 0))
    }

    /** The scanlines still to be decoded. */
    ghost function Ahead(): seq<Spot>
      reads this
    {
      if mode == Expanded then Draws(width, height, pass, rowNumber)
      else Rest(mode, width, height, pass, rowNumber)
    }

    /** The scanlines decoded so far, followed by those ahead, are all there are: the
        ones the push reader decodes. */
    ghost predicate Valid()
      reads this
    {
      && Counters()
      && draws + Ahead() == Due(mode, Rest(mode, width, height, 0, 0))
    }

    /** png_read_start_row */
    constructor (mode: Mode, width: nat, height: nat)
      requires width >= 1 && height >= 1
      ensures Valid() && this.mode == mode && this.width == width && this.height == height
      ensures pass == 0 && rowNumber == 0 && draws == [] && !finished
    {
      this.mode, this.width, this.height := mode, width, height;
      pass, rowNumber, draws, finished := 0, 0, [], false;
      FirstPassHasRows(height);
      var cols, rows := PassSize(width, height, 0);
      numRows := if mode == SubImages then rows else height;
      iwidth := if mode == Plain then width else cols;
      DrawsAreScanlines(width, height, 0, 0);
      new;
      assert draws + Ahead() == Due(mode, Rest(mode, width, height, 0, 0));
    }

    /** png_read_finish_row */
    method FinishRow()
      requires Counters() && !finished
      modifies this`pass, this`rowNumber, this`numRows, this`iwidth, this`finished
      ensures Counters()
      ensures mode != Expanded ==>
                Rest(mode, width, height, old(pass), old(rowNumber))
                == [Spot(old(pass), old(rowNumber))] + Rest(mode, width, height, pass, rowNumber)
      ensures mode == Expanded ==>
                if old(rowNumber) + 1 < height then pass == old(pass) && rowNumber == old(rowNumber) + 1
                else pass == old(pass) + 1 && rowNumber == 0
      ensures mode == Plain ==> rowNumber == old(rowNumber) + 1
    {
      SubImageSize(width, height, pass);
      if mode != Expanded {
        RestUnrolls(mode, width, height, pass, rowNumber);
      }
      rowNumber := rowNumber + 1;
      if rowNumber < numRows {
        return;
      }
      if mode != Plain {
        rowNumber := 0;
        NextPass();
        if pass < 7 {
          return;
        }
      } else {
        NothingRemains(mode, width, height, 0, rowNumber);
        NothingRemains(mode, width, height, 1, 0);
      }
      finished := true;
    }

    /** The loop of png_read_finish_row over the passes. */
    method NextPass()
      requires width >= 1 && height >= 1 && pass < 7 && mode != Plain
      requires mode == Expanded ==> numRows == height
      modifies this`pass, this`numRows, this`iwidth
      ensures pass <= 7
      ensures mode == Expanded ==> pass == old(pass) + 1
      ensures mode == SubImages ==> Rest(mode, width, height, pass, 0) == Rest(mode, width, height, old(pass) + 1, 0)
      ensures pass < 7 ==>
                && 0 < numRows == CountedRows(mode, height, pass) && iwidth == SubCols(width, pass)
                && (mode == SubImages ==> iwidth > 0)
    {
      while true
        invariant pass < 7
        invariant mode == Expanded ==> pass == old(pass) && numRows == height
        invariant Rest(mode, width, height, old(pass) + 1, 0) == Rest(mode, width, height, pass + 1, 0)
        decreases 7 - pass
      {
        hide Tally, Rest;
        pass := pass + 1;
        if pass >= 7 {
          break;
        }
        var rows;
        iwidth, rows := PassSize(width, height, pass);
        if mode == Expanded {
          break;
        }
        numRows := rows;
        if numRows != 0 && iwidth != 0 {
          break;
        }
        RestCons(mode, width, height, pass, 0);
      }
    }

    /** The row switch of png_read_row: is the row skipped, and if so, is the
        display row combined? */
    method Skips() returns (skip: bool, combine: bool)
      requires pass < 7
      ensures skip <==> !(Live(width, pass) && OnRow(pass, rowNumber))
      ensures skip ==> (combine <==> HasData(pass, rowNumber))
    {
      Halves(rowNumber);
      match pass
      case 0 => skip, combine := rowNumber % 8 != 0, true;
      case 1 => skip, combine := rowNumber % 8 != 0 || width < 5, true;
      case 2 => skip, combine := rowNumber % 8 != 4, rowNumber / 4 % 2 == 1;
      case 3 => skip, combine := rowNumber % 4 != 0 || width < 3, true;
      case 4 => skip, combine := rowNumber % 4 != 2, rowNumber / 2 % 2 == 1;
      case 5 => skip, combine := rowNumber % 2 != 0 || width < 2, true;
      case _ => skip, combine := rowNumber % 2 == 0, false;
    }

    /** png_read_row: the scanline it decodes, if any, and the number of its pixels. */
    method ReadRow() returns (drawn: Option<Spot>, cols: nat)
      requires Valid() && !finished
      modifies this
      ensures Valid()
      ensures draws == old(draws) + if drawn.Some? then [drawn.value] else []
      ensures drawn.Some? ==> drawn.value == Spot(old(pass), old(rowNumber)) && cols == old(iwidth)
      ensures mode != Expanded ==> drawn.Some? && old(Ahead()) == [drawn.value] + Ahead()
      ensures mode == Expanded ==>
                if old(rowNumber) + 1 < height then pass == old(pass) && rowNumber == old(rowNumber) + 1
                else pass == old(pass) + 1 && rowNumber == 0
      ensures mode == Plain ==> rowNumber == old(rowNumber) + 1
    {
      hide Draws, Rest, Scanlines, Tally, SubRows, SubCols, OnRow, HasData, Due;
      var skip := false;
      if mode == Expanded {
        var skipped, _ := Skips();
        skip := skipped;
        DrawsUnroll(width, height, pass, rowNumber);
      }
      drawn, cols := None, iwidth;
      ghost var before := Ahead();
      if !skip {
        drawn := Some(Spot(pass, rowNumber));
        draws := draws + [drawn.value];
      }
      FinishRow();
      assert before == (if skip then [] else [Spot(old(pass), old(rowNumber))]) + Ahead();
      assert draws + Ahead() == old(draws) + before;
    }

    /** png_read_image, which turns PNG_INTERLACE on for an interlaced image: it
        decodes the scanlines of the push reader in the same order, and then
        finishes the image data. */
    method ReadImage()
      requires Valid() && pass == 0 && rowNumber == 0 && draws == [] && mode != SubImages && !finished
      modifies this
      ensures Valid() && finished
      ensures draws == Due(mode, Rest(mode, width, height, 0, 0))
    {
      hide Draws, Rest, Scanlines, Tally;
      var passes := if mode == Plain then 1 else 7;
      var j := 0;
      while j < passes
        invariant Valid() && j <= passes
        invariant if mode == Plain then pass == 0 && rowNumber == (if j == 0 then 0 else height)
                  else pass == j && rowNumber == 0
      {
        var i := 0;
        while i < height
          invariant Valid() && i <= height
          invariant if mode == Plain then pass == 0 && rowNumber == i
                    else if i < height then pass == j && rowNumber == i
                    else pass == j + 1 && rowNumber == 0
        {
          var _, _ := ReadRow();
          i := i + 1;
        }
        j := j + 1;
      }
      NothingAhead();
    }

    /** An unfinished reader stands at the next scanline. */
    lemma NextIsHere()
      requires Counters() && !finished && mode != Expanded
      ensures Ahead() != [] && Ahead()[0] == Spot(pass, rowNumber)
    {
      SubImageSize(width, height, pass);
      RestUnrolls(mode, width, height, pass, rowNumber);
    }

    /** A finished reader has nothing left to decode. */
    lemma NothingAhead()
      requires Counters() && finished
      ensures Ahead() == []
    {
      NothingRemains(mode, width, height, pass, rowNumber);
    }
  }

  /** A single bit as a comparison of the remainder. */
  lemma Halves(n: nat)
    ensures n / 4 % 2 == 1 <==> n % 8 >= 4
    ensures n / 2 % 2 == 1 <==> n % 4 >= 2
  {
    var q, r := n / 8, n % 8;
    DivUnique(n, 4, 2 * q + r / 4, r % 4);
    Mod2(n / 4, q, r / 4);
    var q', r' := n / 4, n % 4;
    DivUnique(n, 2, 2 * q' + r' / 2, r' % 2);
    Mod2(n / 2, q', r' / 2);
  }

  lemma DrawsUnroll(width: nat, height: nat, pass: Pass, y: nat)
    requires y < height
    ensures Draws(width, height, pass, y)
         == (if Live(width, pass) && OnRow(pass, y) then [Spot(pass, y)] else [])
            + if y + 1 < height then Draws(width, height, pass, y + 1) else Draws(width, height, pass + 1, 0)
  {
  }

  lemma NoScanlines()
    ensures Scanlines([]) == []
  {
  }

  lemma {:induction false} DrawsAreScanlines(width: nat, height: nat, pass: nat, y: nat)
    ensures Draws(width, height, pass, y) == Scanlines(Rest(Expanded, width, height, pass, y))
    decreases 7 - pass, height - y
  {
    hide OnRow, Live, Tally, Scanlines;
    NoScanlines();
    if pass < 7 {
      if y >= height {
        DrawsAreScanlines(width, height, pass + 1, 0);
      } else {
        DrawsAreScanlines(width, height, pass, y + 1);
        if Live(width, pass) {
          ScanlinesCons(pass, y, Rest(Expanded, width, height, pass, y + 1));
        }
      }
    }
  }
}
