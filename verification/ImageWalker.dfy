/** The simplified API's in-memory reader (pngread.c): the size checks of
    png_image_finish_read and the pixel walker png_image_read_composite, which
    blends each decoded pixel into an application buffer of either row order. */
module ImageWalker {
  import opened Arithmetic
  import opened Adam7
  import opened RowSchedule

  /** The components of a decoded pixel and its alpha channel. */
  datatype Pixel = Pixel(components: seq<byte>, alpha: byte)

  /** The application's buffer: `stride` components from one row to the next, negative
      for a buffer that starts with the last row. */
  datatype Geometry = Geometry(width: nat, height: nat, channels: nat, stride: int)

  predicate Usable(g: Geometry) {
    g.width >= 1 && g.height >= 1 && g.channels >= 1 && Abs(g.stride) >= g.width * g.channels
  }

  /** Size of the buffer in components. */
  function Size(g: Geometry): nat {
    g.height * Abs(g.stride)
  }

  // ---------------------------------------------------------------- the size checks

  /** The checks of png_image_finish_read, in 32-bit arithmetic: the geometry of the
      read, or None when it is refused. */
  function FinishRead(width: uint32, height: uint32, channels: nat, componentSize: nat, rowStride: int32)
    : Option<Geometry>
    requires 1 <= channels <= 4 && 1 <= componentSize <= 2
  {
    if width > 0x7fff_ffff / channels then None
    else
      var rowLength := WrapU32(width * channels);
      var stride: int := if rowStride == 0 then rowLength else rowStride;
      var check := WrapU32(if stride < 0 then 0 - stride else stride);
      if check < rowLength || check == 0 then None
      else if height > 0xffff_ffff / componentSize / check then None
      else Some(Geometry(width, height, channels, stride))
  }

  /** Whatever passes the checks is usable, and the whole buffer, in bytes, fits in 32
      bits. */
  lemma AcceptedIsUsable(width: uint32, height: uint32, channels: nat, componentSize: nat, rowStride: int32)
    requires 1 <= channels <= 4 && 1 <= componentSize <= 2 && width >= 1 && height >= 1
    requires FinishRead(width, height, channels, componentSize, rowStride).Some?
    ensures var g := FinishRead(width, height, channels, componentSize, rowStride).value;
      && Usable(g) && g.width == width && g.height == height && g.channels == channels
      && Size(g) * componentSize <= 0xffff_ffff
  {
    hide WrapU32;
    AcceptedIff(width, height, channels, componentSize, rowStride);
    Unwrapped(width * channels);
  }

  lemma BelowQuotient(h: nat, q: nat, c: nat)
    requires c > 0
    ensures h <= q / c <==> h * c <= q
  {
    DivMod(q, c);
    if h <= q / c {
      MulMono(h, q / c, c, c);
    } else {
      MulMono(q / c + 1, h, c, c);
      AddTop(q / c, 1, c);
    }
  }

  /** The checks refuse nothing else: they pass exactly when a row fits in 31 bits, the
      given stride is at least a row, and the buffer, in bytes, fits in 32 bits. */
  lemma AcceptedIff(width: uint32, height: uint32, channels: nat, componentSize: nat, rowStride: int32)
    requires 1 <= channels <= 4 && 1 <= componentSize <= 2 && width >= 1
    ensures var stride := if rowStride == 0 then width * channels else Abs(rowStride);
      FinishRead(width, height, channels, componentSize, rowStride).Some? <==>
        && width * channels <= 0x7fff_ffff && stride >= width * channels
        && height * stride * componentSize <= 0xffff_ffff
  {
    hide WrapU32;
    var row := width * channels;
    BelowQuotient(width, 0x7fff_ffff, channels);
    MulMono(1, width, 1, channels);
    var stride := if rowStride == 0 then row else Abs(rowStride);
    if row <= 0x7fff_ffff {
      Unwrapped(row);
      Unwrapped(stride);
      if stride >= row {
        BufferFits(height, stride, componentSize);
      }
    }
  }

  lemma Unwrapped(x: nat)
    requires x <= 0x8000_0000
    ensures WrapU32(x) == x
  {
  }

  lemma BufferFits(height: nat, stride: nat, componentSize: nat)
    requires stride > 0 && componentSize > 0
    ensures height <= 0xffff_ffff / componentSize / stride <==> height * stride * componentSize <= 0xffff_ffff
  {
    BelowQuotient(height, 0xffff_ffff / componentSize, stride);
    BelowQuotient(height * stride, 0xffff_ffff, componentSize);
  }

  // ---------------------------------------------------------------- addresses

  /** Where a row starts: first_row + y * step_row. */
  function RowStart(g: Geometry, y: nat): int {
    (if g.stride < 0 then (g.height - 1) * -g.stride else 0) + y * g.stride
  }

  /** The place of a component. */
  function Address(g: Geometry, x: nat, y: nat, c: nat): int {
    RowStart(g, y) + x * g.channels + c
  }

  /** The layout of the buffer: components are next to each other, pixels one after the other,
      rows a stride apart, and the lowest row in memory starts the buffer. */
  lemma AddressLayout(g: Geometry, x: nat, y: nat, c: nat)
    ensures Address(g, x, y, c + 1) == Address(g, x, y, c) + 1
    ensures Address(g, x + 1, y, c) == Address(g, x, y, c) + g.channels
    ensures Address(g, x, y + 1, c) == Address(g, x, y, c) + g.stride
    ensures g.stride >= 0 ==> Address(g, 0, 0, 0) == 0
    ensures g.stride < 0 && g.height >= 1 ==> Address(g, 0, g.height - 1, 0) == 0
  {
    AddTop(x, 1, g.channels);
    AddTop(y, 1, g.stride);
    if g.stride < 0 && g.height >= 1 {
      SignFlip(g.height - 1, g.stride);
    }
  }

  predicate Inside(g: Geometry, x: nat, y: nat, c: nat) {
    x < g.width && y < g.height && c < g.channels
  }

  /** The row's position in the buffer, counted from its start. */
  function Slot(g: Geometry, y: nat): int {
    if g.stride < 0 then g.height - 1 - y else y
  }

  lemma RowStartIs(g: Geometry, y: nat)
    requires y < g.height
    ensures RowStart(g, y) == Slot(g, y) * Abs(g.stride)
  {
    if g.stride < 0 {
      Distribute(g.height - 1, y, -g.stride);
      SignFlip(y, g.stride);
    }
  }

  lemma ComponentIs(g: Geometry, x: nat, c: nat)
    requires Usable(g) && x < g.width && c < g.channels
    ensures 0 <= x * g.channels + c < g.width * g.channels
  {
    MulMono(x + 1, g.width, g.channels, g.channels);
    AddTop(x, 1, g.channels);
  }

  /** Every component lies inside the buffer, for either sign of the stride. */
  lemma AddressInBounds(g: Geometry, x: nat, y: nat, c: nat)
    requires Usable(g) && Inside(g, x, y, c)
    ensures 0 <= Address(g, x, y, c) < Size(g)
  {
    RowStartIs(g, y);
    ComponentIs(g, x, c);
    var s, slot := Abs(g.stride), Slot(g, y);
    MulMono(slot, slot, s, s);
    MulMono(slot + 1, g.height, s, s);
    AddTop(slot, 1, s);
  }

  /** Different components have different places. */
  lemma AddressInjective(g: Geometry, x: nat, y: nat, c: nat, x': nat, y': nat, c': nat)
    requires Usable(g) && Inside(g, x, y, c) && Inside(g, x', y', c')
    requires Address(g, x, y, c) == Address(g, x', y', c')
    ensures x == x' && y == y' && c == c'
  {
    RowStartIs(g, y);
    RowStartIs(g, y');
    ComponentIs(g, x, c);
    ComponentIs(g, x', c');
    var s := Abs(g.stride);
    AddressInBounds(g, x, y, c);
    DivUnique(Address(g, x, y, c), s, Slot(g, y), x * g.channels + c);
    DivUnique(Address(g, x', y', c'), s, Slot(g, y'), x' * g.channels + c');
    DivUnique(x * g.channels + c, g.channels, x, c);
    DivUnique(x' * g.channels + c', g.channels, x', c');
  }

  // ---------------------------------------------------------------- what is painted

  /** The blending step: transparent pixels change nothing, opaque ones replace, the
      others go through the conversion tables (here: any function). */
  function Mix(blend: (byte, byte, byte) -> byte, was: byte, component: byte, alpha: byte): byte {
    if alpha == 0 then was
    else if alpha == 255 then component
    else blend(was, component, alpha)
  }

  function At(s: seq<byte>, a: int): byte {
    if 0 <= a < |s| then s[a] else 0
  }

  /** The buffer after the first n components of one pixel. */
  function PaintPixel(s: seq<byte>, g: Geometry, blend: (byte, byte, byte) -> byte,
                      x: nat, y: nat, p: Pixel, n: nat): (t: seq<byte>)
    ensures |t| == |s|
  {
    if n == 0 then s
    else
      var t := PaintPixel(s, g, blend, x, y, p, n - 1);
      var a := Address(g, x, y, n - 1);
      if 0 <= a < |t| && n <= |p.components|
      then t[a := Mix(blend, t[a], p.components[n - 1], p.alpha)] else t
  }

  lemma {:induction false} PaintedAt(s: seq<byte>, g: Geometry, blend: (byte, byte, byte) -> byte,
                                     x: nat, y: nat, p: Pixel, n: nat, x': nat, y': nat, c': nat)
    requires Usable(g) && |s| == Size(g) && n <= g.channels == |p.components|
    requires x < g.width && y < g.height && Inside(g, x', y', c')
    ensures var a := Address(g, x', y', c');
      At(PaintPixel(s, g, blend, x, y, p, n), a)
      == if x' == x && y' == y && c' < n then Mix(blend, At(s, a), p.components[c'], p.alpha) else At(s, a)
  {
    if n > 0 {
      PaintedAt(s, g, blend, x, y, p, n - 1, x', y', c');
      AddressInBounds(g, x, y, n - 1);
      AddressInBounds(g, x', y', c');
      if Address(g, x, y, n - 1) == Address(g, x', y', c') {
        AddressInjective(g, x, y, n - 1, x', y', c');
      }
    }
  }

  /** The place of some component; everything else is padding between rows. */
  ghost predicate IsComponent(g: Geometry, a: int) {
    exists x: nat, y: nat, c: nat :: Inside(g, x, y, c) && Address(g, x, y, c) == a
  }

  lemma {:induction false} PaddingKept(s: seq<byte>, g: Geometry, blend: (byte, byte, byte) -> byte,
                                       x: nat, y: nat, p: Pixel, n: nat, a: int)
    requires !IsComponent(g, a) && n <= g.channels && x < g.width && y < g.height
    ensures At(PaintPixel(s, g, blend, x, y, p, n), a) == At(s, a)
  {
    if n > 0 {
      PaddingKept(s, g, blend, x, y, p, n - 1, a);
      assert Inside(g, x, y, n - 1);
    }
  }

  // ---------------------------------------------------------------- the order of the walk

  function XStart(interlaced: bool, pass: Pass): nat {
    if interlaced then PassStart(pass) else 0
  }

  function XInc(interlaced: bool, pass: Pass): nat {
    if interlaced then PassInc(pass) else 1
  }

  function YStart(interlaced: bool, pass: Pass): nat {
    if interlaced then PassYStart(pass) else 0
  }

  function YInc(interlaced: bool, pass: Pass): nat {
    if interlaced then PassYInc(pass) else 1
  }

  function PassFor(interlaced: bool, x: nat, y: nat): Pass {
    if interlaced then PassOf(x, y) else 0
  }

  predicate Passes(interlaced: bool, pass: nat) {
    pass < if interlaced then 7 else 1
  }

  lemma InPassIff(interlaced: bool, pass: Pass, x: nat, y: nat)
    requires Passes(interlaced, pass)
    ensures PassFor(interlaced, x, y) == pass <==>
              x % XInc(interlaced, pass) == XStart(interlaced, pass)
              && y % YInc(interlaced, pass) == YStart(interlaced, pass)
  {
    if interlaced {
      ProgressionsPartition(x, y, pass);
    }
  }

  /** How far the walk has got: all earlier passes, and in this pass the rows above
      `row` and the columns of `row` in front of `col`. */
  datatype Progress = Progress(interlaced: bool, pass: nat, row: nat, col: nat)

  predicate Done(w: Progress, x: nat, y: nat) {
    var p := PassFor(w.interlaced, x, y);
    p < w.pass || (p == w.pass && (y < w.row || (y == w.row && x < w.col)))
  }

  /** The start of a pass. */
  function PassBegin(interlaced: bool, pass: nat): Progress {
    if pass < 7 then Progress(interlaced, pass, YStart(interlaced, pass), XStart(interlaced, pass))
    else Progress(interlaced, pass, 0, 0)
  }

  lemma SameResidue(a: nat, b: nat, inc: nat)
    requires inc in {1, 2, 4, 8} && a % inc == b % inc && a <= b < a + inc
    ensures a == b
  {
    DivMod(a, inc);
    DivMod(b, inc);
    Distribute(b / inc, a / inc, inc);
    SmallMultiple(b / inc - a / inc, inc);
  }

  lemma ResidueNext(a: nat, inc: nat)
    requires inc in {1, 2, 4, 8}
    ensures (a + inc) % inc == a % inc
  {
    DivMod(a, inc);
    AddTop(a / inc, 1, inc);
    DivUnique(a + inc, inc, a / inc + 1, a % inc);
  }

  /** One pixel further: exactly that pixel is added. */
  lemma PixelStep(w: Progress, x: nat, y: nat)
    requires Passes(w.interlaced, w.pass)
    requires w.col % XInc(w.interlaced, w.pass) == XStart(w.interlaced, w.pass)
    requires w.row % YInc(w.interlaced, w.pass) == YStart(w.interlaced, w.pass)
    ensures Done(w.(col := w.col + XInc(w.interlaced, w.pass)), x, y)
            <==> Done(w, x, y) || (x == w.col && y == w.row)
    ensures !Done(w, w.col, w.row)
  {
    InPassIff(w.interlaced, w.pass, x, y);
    InPassIff(w.interlaced, w.pass, w.col, w.row);
    var inc := XInc(w.interlaced, w.pass);
    if PassFor(w.interlaced, x, y) == w.pass && y == w.row && w.col <= x < w.col + inc {
      SameResidue(w.col, x, inc);
    }
  }

  /** One row further, once the row has been walked to its end. */
  lemma RowStep(w: Progress, width: nat, x: nat, y: nat)
    requires Passes(w.interlaced, w.pass) && w.col >= width > x
    requires w.row % YInc(w.interlaced, w.pass) == YStart(w.interlaced, w.pass)
    ensures Done(w.(row := w.row + YInc(w.interlaced, w.pass), col := XStart(w.interlaced, w.pass)), x, y)
            <==> Done(w, x, y)
  {
    InPassIff(w.interlaced, w.pass, x, y);
    var inc := YInc(w.interlaced, w.pass);
    if PassFor(w.interlaced, x, y) == w.pass {
      StartIsFirst(x, XInc(w.interlaced, w.pass));
      if w.row <= y < w.row + inc {
        SameResidue(w.row, y, inc);
      }
    }
  }

  lemma StartIsFirst(x: nat, inc: nat)
    requires inc in {1, 2, 4, 8}
    ensures x >= x % inc
  {
  }

  /** One pass further, once the rows are exhausted. */
  lemma PassStep(w: Progress, height: nat, x: nat, y: nat)
    requires Passes(w.interlaced, w.pass) && w.row >= height > y
    ensures Done(PassBegin(w.interlaced, w.pass + 1), x, y) <==> Done(w, x, y)
  {
    var next := w.pass + 1;
    if PassFor(w.interlaced, x, y) == next {
      InPassIff(w.interlaced, next, x, y);
      StartIsFirst(x, XInc(w.interlaced, next));
      StartIsFirst(y, YInc(w.interlaced, next));
    }
  }

  /** A pass without columns adds nothing. */
  lemma EmptyPassStep(width: nat, pass: Pass, x: nat, y: nat)
    requires x < width && PassCols(width, pass) == 0
    ensures Done(PassBegin(true, pass + 1), x, y) <==> Done(PassBegin(true, pass), x, y)
  {
    InPassIff(true, pass, x, y);
    if PassFor(true, x, y) == pass {
      ColEnumeration(width, pass, x / PassInc(pass));
      ColInPassIff(x, pass);
      ColEnumerationOnto(pass, x);
    }
    if pass < 6 && PassFor(true, x, y) == pass + 1 {
      InPassIff(true, pass + 1, x, y);
      StartIsFirst(x, PassInc(pass + 1));
      StartIsFirst(y, PassYInc(pass + 1));
    }
  }

  // ---------------------------------------------------------------- the invariant

  /** The buffer, given how far the walk has got: every pixel walked over has been
      blended exactly once, every other component and all padding is as before. */
  ghost predicate Painted(g: Geometry, source: (nat, nat) -> Pixel, blend: (byte, byte, byte) -> byte,
                          w: Progress, before: seq<byte>, after: seq<byte>)
  {
    && |after| == |before|
    && (forall x: nat, y: nat, c: nat :: Inside(g, x, y, c) && c < |source(x, y).components| ==>
          At(after, Address(g, x, y, c)) ==
            if Done(w, x, y)
            then Mix(blend, At(before, Address(g, x, y, c)), source(x, y).components[c], source(x, y).alpha)
            else At(before, Address(g, x, y, c)))
    && (forall a: int :: !IsComponent(g, a) ==> At(after, a) == At(before, a))
  }

  ghost predicate GoodSource(g: Geometry, source: (nat, nat) -> Pixel) {
    forall x: nat, y: nat :: |source(x, y).components| == g.channels
  }

  /** The walk is as far as before on all pixels of the image. */
  lemma PaintedSame(g: Geometry, source: (nat, nat) -> Pixel, blend: (byte, byte, byte) -> byte,
                    w: Progress, w': Progress, before: seq<byte>, after: seq<byte>)
    requires Painted(g, source, blend, w, before, after)
    requires forall x: nat, y: nat :: x < g.width && y < g.height ==> (Done(w', x, y) <==> Done(w, x, y))
    ensures Painted(g, source, blend, w', before, after)
  {
    hide Done, At, Address;
  }

  /** One more pixel has been blended. */
  lemma PaintedMore(g: Geometry, source: (nat, nat) -> Pixel, blend: (byte, byte, byte) -> byte,
                    w: Progress, w': Progress, before: seq<byte>, after: seq<byte>)
    requires Usable(g) && GoodSource(g, source) && |before| == Size(g)
    requires Painted(g, source, blend, w, before, after) && w.col < g.width && w.row < g.height
    requires !Done(w, w.col, w.row)
    requires forall x: nat, y: nat :: Done(w', x, y) <==> Done(w, x, y) || (x == w.col && y == w.row)
    ensures Painted(g, source, blend, w', before,
                    PaintPixel(after, g, blend, w.col, w.row, source(w.col, w.row), g.channels))
  {
    hide Done, At, Address, PaintPixel, Mix;
    var p := source(w.col, w.row);
    forall x: nat, y: nat, c: nat | Inside(g, x, y, c) && c < |source(x, y).components|
      ensures At(PaintPixel(after, g, blend, w.col, w.row, p, g.channels), Address(g, x, y, c)) ==
              if Done(w', x, y)
              then Mix(blend, At(before, Address(g, x, y, c)), source(x, y).components[c], source(x, y).alpha)
              else At(before, Address(g, x, y, c))
    {
      PaintedAt(after, g, blend, w.col, w.row, p, g.channels, x, y, c);
    }
    forall a: int | !IsComponent(g, a)
      ensures At(PaintPixel(after, g, blend, w.col, w.row, p, g.channels), a) == At(before, a)
    {
      PaddingKept(after, g, blend, w.col, w.row, p, g.channels, a);
    }
  }

  // ---------------------------------------------------------------- the walker

  /** The column of pixel k of a packed scanline. */
  function Column(start: nat, inc: nat, k: nat): nat {
    start + k * inc
  }

  /** The reader's setting: png_image_read_composite does not turn PNG_INTERLACE on. */
  function ModeOf(interlaced: bool): Mode {
    if interlaced then SubImages else Plain
  }

  /** A scanline as the file holds it: row j of the image, or row j of the sub-image of a
      pass, whose pixels the macros place in the image. */
  function FileRow(source: (nat, nat) -> Pixel, interlaced: bool, pass: Pass, j: nat, cols: nat): seq<Pixel> {
    seq(cols, k requires 0 <= k => source(FileColumn(interlaced, pass, k), FileLine(interlaced, pass, j)))
  }

  function FileColumn(interlaced: bool, pass: Pass, k: nat): nat {
    Forms(k, pass);
    if interlaced then ColFromPassCol(k, pass) else k
  }

  function FileLine(interlaced: bool, pass: Pass, j: nat): nat {
    Forms(j, pass);
    if interlaced then RowFromPassRow(j, pass) else j
  }

  lemma FileForms(interlaced: bool, pass: Pass, j: nat)
    requires Passes(interlaced, pass)
    ensures FileColumn(interlaced, pass, j) == Column(XStart(interlaced, pass), XInc(interlaced, pass), j)
    ensures FileLine(interlaced, pass, j) == Column(YStart(interlaced, pass), YInc(interlaced, pass), j)
  {
    Forms(j, pass);
  }

  /** png_read_row(png_ptr, inrow, NULL): the reader's own counters decide which scanline
      of the file comes next. */
  method ReadRow(reader: SequentialRows, interlaced: bool, source: (nat, nat) -> Pixel)
    returns (inrow: seq<Pixel>)
    requires reader.Valid() && !reader.finished && reader.mode == ModeOf(interlaced)
    modifies reader
    ensures reader.Valid()
    ensures inrow == FileRow(source, interlaced, old(reader.pass), old(reader.rowNumber), old(reader.iwidth))
    ensures old(reader.Ahead()) == [Spot(old(reader.pass), old(reader.rowNumber))] + reader.Ahead()
  {
    hide Draws, Rest, Scanlines, Tally, FileRow;
    var drawn, cols := reader.ReadRow();
    inrow := FileRow(source, interlaced, drawn.value.pass, drawn.value.row, cols);
  }

  /** The reader is about to decode row j of a pass, or what comes after it. */
  ghost predicate ReaderAt(reader: SequentialRows, g: Geometry, interlaced: bool, pass: nat, j: nat)
    reads reader
  {
    && reader.Valid() && reader.mode == ModeOf(interlaced)
    && reader.width == g.width && reader.height == g.height
    && reader.Ahead() == Rest(ModeOf(interlaced), g.width, g.height, pass, j)
  }

  /** Does the walker visit this pass? */
  predicate Walked(g: Geometry, interlaced: bool, pass: Pass) {
    Passes(interlaced, pass) && (interlaced ==> PassCols(g.width, pass) != 0)
  }

  /** Row y of the image is row j of a pass, and j counts the rows of the pass. */
  lemma RowsLeft(g: Geometry, interlaced: bool, pass: Pass, j: nat)
    requires Usable(g) && Walked(g, interlaced, pass)
    ensures FileLine(interlaced, pass, j) < g.height <==> j < RowsIn(ModeOf(interlaced), g.width, g.height, pass)
  {
    SubImageSize(g.width, g.height, pass);
    CountsAreTables(g.width, g.height, pass);
    RowEnumeration(g.height, pass, j);
  }

  /** The scanline for row y of a pass: the row the walker is at is the row the reader
      is at. */
  method NextLine(g: Geometry, interlaced: bool, pass: Pass, ghost j: nat, y: nat,
                  reader: SequentialRows, source: (nat, nat) -> Pixel)
    returns (inrow: seq<Pixel>)
    requires Usable(g) && Walked(g, interlaced, pass)
    requires ReaderAt(reader, g, interlaced, pass, j)
    requires y == Column(YStart(interlaced, pass), YInc(interlaced, pass), j) < g.height
    modifies reader
    ensures ReaderAt(reader, g, interlaced, pass, j + 1)
    ensures |inrow| == if interlaced then PassCols(g.width, pass) else g.width
    ensures forall k :: 0 <= k < |inrow| ==>
              inrow[k] == source(Column(XStart(interlaced, pass), XInc(interlaced, pass), k), y)
  {
    hide Draws, Rest, Scanlines, Tally, PassCols, Column, XStart, XInc, YStart, YInc, FileColumn, FileLine;
    FileForms(interlaced, pass, j);
    RowsLeft(g, interlaced, pass, j);
    RestCons(ModeOf(interlaced), g.width, g.height, pass, j);
    if reader.finished {
      reader.NothingAhead();
    }
    reader.NextIsHere();
    SubImageSize(g.width, g.height, pass);
    assert reader.pass == pass && reader.rowNumber == j;
    ghost var ahead := Rest(ModeOf(interlaced), g.width, g.height, pass, j);
    inrow := ReadRow(reader, interlaced, source);
    assert ahead[1..] == reader.Ahead() == Rest(ModeOf(interlaced), g.width, g.height, pass, j + 1);
    forall k | 0 <= k < |inrow|
      ensures inrow[k] == source(Column(XStart(interlaced, pass), XInc(interlaced, pass), k), y)
    {
      FileForms(interlaced, pass, k);
    }
  }

  /** The component loop on one pixel; `outrow` points at its first component. */
  method BlendPixel(g: Geometry, out: array<byte>, outrow: int, p: Pixel,
                    blend: (byte, byte, byte) -> byte, ghost x: nat, ghost y: nat)
    requires Usable(g) && out.Length == Size(g) && x < g.width && y < g.height
    requires outrow == Address(g, x, y, 0) && |p.components| == g.channels
    modifies out
    ensures out[..] == PaintPixel(old(out[..]), g, blend, x, y, p, g.channels)
  {
    if p.alpha > 0 {
      var c := 0;
      while c < g.channels
        invariant c <= g.channels
        invariant out[..] == PaintPixel(old(out[..]), g, blend, x, y, p, c)
      {
        AddressInBounds(g, x, y, c);
        AddressShift(g, x, y, c);
        var component := p.components[c];
        if p.alpha < 255 {
          component := blend(out[outrow + c], component, p.alpha);
        }
        out[outrow + c] := component;
        c := c + 1;
      }
    } else {
      PaintNothing(out[..], g, blend, x, y, p, g.channels);
    }
  }

  lemma AddressShift(g: Geometry, x: nat, y: nat, c: nat)
    ensures Address(g, x, y, c) == Address(g, x, y, 0) + c
  {
  }

  lemma {:induction false} PaintNothing(s: seq<byte>, g: Geometry, blend: (byte, byte, byte) -> byte,
                                        x: nat, y: nat, p: Pixel, n: nat)
    requires p.alpha == 0
    ensures PaintPixel(s, g, blend, x, y, p, n) == s
  {
    if n > 0 {
      PaintNothing(s, g, blend, x, y, p, n - 1);
    }
  }

  /** The pixel loop of one row: outrow runs from startx to end_row in steps of stepx. */
  method WalkRow(g: Geometry, interlaced: bool, pass: Pass, ghost j: nat, y: nat, reader: SequentialRows,
                 out: array<byte>, source: (nat, nat) -> Pixel, blend: (byte, byte, byte) -> byte,
                 ghost before: seq<byte>)
    requires Usable(g) && GoodSource(g, source) && out.Length == Size(g) == |before|
    requires Walked(g, interlaced, pass) && ReaderAt(reader, g, interlaced, pass, j)
    requires y == Column(YStart(interlaced, pass), YInc(interlaced, pass), j) < g.height
    requires y % YInc(interlaced, pass) == YStart(interlaced, pass)
    requires Painted(g, source, blend, Progress(interlaced, pass, y, XStart(interlaced, pass)), before, out[..])
    modifies out, reader
    ensures ReaderAt(reader, g, interlaced, pass, j + 1)
    ensures Painted(g, source, blend,
                    Progress(interlaced, pass, y + YInc(interlaced, pass), XStart(interlaced, pass)),
                    before, out[..])
  {
    hide Painted, Done, PassFor, XStart, XInc, Column, Address, RowStart, Size, Passes, ReaderAt;
    var start, inc := XStart(interlaced, pass), XInc(interlaced, pass);
    var inrow := NextLine(g, interlaced, pass, j, y, reader, source);
    var outrow := RowStart(g, y);
    var endRow := outrow + g.width * g.channels;
    outrow := outrow + start * g.channels;
    var k := 0;
    ghost var x := start;
    FirstColumn(g, interlaced, pass, y);
    while outrow < endRow
      invariant x == Column(start, inc, k) && outrow == Address(g, x, y, 0)
      invariant x % inc == start
      invariant ReaderAt(reader, g, interlaced, pass, j + 1)
      invariant Painted(g, source, blend, Progress(interlaced, pass, y, x), before, out[..])
      decreases endRow - outrow
    {
      Columns(g, interlaced, pass, x, y, k);
      BlendOne(g, Progress(interlaced, pass, y, x), out, outrow, inrow[k], source, blend, before);
      NextColumn(g, interlaced, pass, x, y, k);
      k := k + 1;
      x := x + inc;
      outrow := outrow + inc * g.channels;
    }
    RowDone(g, x, y);
    RowPainted(g, Progress(interlaced, pass, y, x), source, blend, before, out[..]);
  }

  /** A row walked to its end leaves the walk at the start of the next row. */
  lemma RowPainted(g: Geometry, w: Progress, source: (nat, nat) -> Pixel, blend: (byte, byte, byte) -> byte,
                   before: seq<byte>, after: seq<byte>)
    requires Passes(w.interlaced, w.pass) && w.col >= g.width
    requires w.row % YInc(w.interlaced, w.pass) == YStart(w.interlaced, w.pass)
    requires Painted(g, source, blend, w, before, after)
    ensures Painted(g, source, blend,
                    w.(row := w.row + YInc(w.interlaced, w.pass), col := XStart(w.interlaced, w.pass)),
                    before, after)
  {
    hide Painted, Done, PassFor, XStart, YInc, YStart;
    var w' := w.(row := w.row + YInc(w.interlaced, w.pass), col := XStart(w.interlaced, w.pass));
    forall x: nat, y: nat | x < g.width && y < g.height
      ensures Done(w', x, y) <==> Done(w, x, y)
    {
      RowStep(w, g.width, x, y);
    }
    PaintedSame(g, source, blend, w, w', before, after);
  }

  /** One pixel of the walk. */
  method BlendOne(g: Geometry, ghost w: Progress, out: array<byte>, outrow: int, p: Pixel,
                  source: (nat, nat) -> Pixel, blend: (byte, byte, byte) -> byte, ghost before: seq<byte>)
    requires Usable(g) && GoodSource(g, source) && out.Length == Size(g) == |before|
    requires Passes(w.interlaced, w.pass) && w.col < g.width && w.row < g.height
    requires w.col % XInc(w.interlaced, w.pass) == XStart(w.interlaced, w.pass)
    requires w.row % YInc(w.interlaced, w.pass) == YStart(w.interlaced, w.pass)
    requires outrow == Address(g, w.col, w.row, 0) && p == source(w.col, w.row)
    requires Painted(g, source, blend, w, before, out[..])
    modifies out
    ensures Painted(g, source, blend, w.(col := w.col + XInc(w.interlaced, w.pass)), before, out[..])
  {
    hide Painted, Done, PassFor, PaintPixel, Address;
    ghost var w' := w.(col := w.col + XInc(w.interlaced, w.pass));
    forall x: nat, y: nat
      ensures Done(w', x, y) <==> Done(w, x, y) || (x == w.col && y == w.row)
    {
      PixelStep(w, x, y);
    }
    PixelStep(w, w.col, w.row);
    PaintedMore(g, source, blend, w, w', before, out[..]);
    BlendPixel(g, out, outrow, p, blend, w.col, w.row);
  }

  lemma FirstColumn(g: Geometry, interlaced: bool, pass: Pass, y: nat)
    ensures var start, inc := XStart(interlaced, pass), XInc(interlaced, pass);
      && inc >= 1 && Column(start, inc, 0) == start && start % inc == start
      && Address(g, start, y, 0) == RowStart(g, y) + start * g.channels
  {
    var start, inc := XStart(interlaced, pass), XInc(interlaced, pass);
    DivUnique(start, inc, 0, start);
  }

  /** The pointer is inside the row exactly for the columns of the image, and the packed
      scanline has a pixel for each of them. */
  lemma Columns(g: Geometry, interlaced: bool, pass: Pass, x: nat, y: nat, k: nat)
    requires Usable(g) && x == Column(XStart(interlaced, pass), XInc(interlaced, pass), k)
    requires Address(g, x, y, 0) < RowStart(g, y) + g.width * g.channels
    ensures x < g.width
    ensures k < if interlaced then PassCols(g.width, pass) else g.width
  {
    if x >= g.width {
      MulMono(g.width, x, g.channels, g.channels);
    }
    if interlaced {
      Forms(k, pass);
      ColEnumeration(g.width, pass, k);
    }
  }

  lemma NextColumn(g: Geometry, interlaced: bool, pass: Pass, x: nat, y: nat, k: nat)
    requires Usable(g) && x % XInc(interlaced, pass) == XStart(interlaced, pass)
    requires x == Column(XStart(interlaced, pass), XInc(interlaced, pass), k)
    ensures var start, inc := XStart(interlaced, pass), XInc(interlaced, pass);
      && x + inc == Column(start, inc, k + 1) && (x + inc) % inc == start
      && Address(g, x + inc, y, 0) == Address(g, x, y, 0) + inc * g.channels
      && inc * g.channels >= 1
  {
    var inc := XInc(interlaced, pass);
    AddTop(x, inc, g.channels);
    AddTop(k, 1, inc);
    MulMono(1, inc, 1, g.channels);
    ResidueNext(x, inc);
  }

  lemma RowDone(g: Geometry, x: nat, y: nat)
    requires Usable(g) && Address(g, x, y, 0) >= RowStart(g, y) + g.width * g.channels
    ensures x >= g.width
  {
    if x < g.width {
      MulMono(x + 1, g.width, g.channels, g.channels);
      AddTop(x, 1, g.channels);
    }
  }

  /** The row loop of one pass. */
  method WalkPass(g: Geometry, interlaced: bool, pass: Pass, reader: SequentialRows, out: array<byte>,
                  source: (nat, nat) -> Pixel, blend: (byte, byte, byte) -> byte, ghost before: seq<byte>)
    requires Usable(g) && GoodSource(g, source) && out.Length == Size(g) == |before|
    requires Walked(g, interlaced, pass) && ReaderAt(reader, g, interlaced, pass, 0)
    requires Painted(g, source, blend, PassBegin(interlaced, pass), before, out[..])
    modifies out, reader
    ensures ReaderAt(reader, g, interlaced, pass + 1, 0)
    ensures Painted(g, source, blend, PassBegin(interlaced, pass + 1), before, out[..])
  {
    hide Painted, Done, PassFor, ReaderAt, XStart, YStart, YInc, Column;
    var start := XStart(interlaced, pass);
    var y := YStart(interlaced, pass);
    ghost var j := 0;
    FirstRow(interlaced, pass);
    while y < g.height
      invariant y == Column(YStart(interlaced, pass), YInc(interlaced, pass), j)
      invariant y % YInc(interlaced, pass) == YStart(interlaced, pass)
      invariant ReaderAt(reader, g, interlaced, pass, j)
      invariant Painted(g, source, blend, Progress(interlaced, pass, y, start), before, out[..])
      decreases g.height - y
    {
      WalkRow(g, interlaced, pass, j, y, reader, out, source, blend, before);
      NextRow(interlaced, pass, y, j);
      y := y + YInc(interlaced, pass);
      j := j + 1;
    }
    PassRead(reader, g, interlaced, pass, j);
    PassPainted(g, Progress(interlaced, pass, y, start), source, blend, before, out[..]);
  }

  lemma FirstRow(interlaced: bool, pass: Pass)
    requires Passes(interlaced, pass)
    ensures var start, inc := YStart(interlaced, pass), YInc(interlaced, pass);
      inc >= 1 && start == Column(start, inc, 0) && start % inc == start
    ensures PassBegin(interlaced, pass) == Progress(interlaced, pass, YStart(interlaced, pass), XStart(interlaced, pass))
  {
    var start, inc := YStart(interlaced, pass), YInc(interlaced, pass);
    DivUnique(start, inc, 0, start);
  }

  lemma NextRow(interlaced: bool, pass: Pass, y: nat, j: nat)
    requires y == Column(YStart(interlaced, pass), YInc(interlaced, pass), j)
    requires y % YInc(interlaced, pass) == YStart(interlaced, pass)
    ensures var start, inc := YStart(interlaced, pass), YInc(interlaced, pass);
      y + inc == Column(start, inc, j + 1) && (y + inc) % inc == start
  {
    var inc := YInc(interlaced, pass);
    AddTop(j, 1, inc);
    ResidueNext(y, inc);
  }

  /** Once the rows of a pass are exhausted, the reader stands at the next pass. */
  lemma PassRead(reader: SequentialRows, g: Geometry, interlaced: bool, pass: Pass, j: nat)
    requires Usable(g) && Walked(g, interlaced, pass) && ReaderAt(reader, g, interlaced, pass, j)
    requires Column(YStart(interlaced, pass), YInc(interlaced, pass), j) >= g.height
    ensures ReaderAt(reader, g, interlaced, pass + 1, 0)
  {
    FileForms(interlaced, pass, j);
    RowsLeft(g, interlaced, pass, j);
    RestCons(ModeOf(interlaced), g.width, g.height, pass, j);
  }

  /** ... and so does the walk. */
  lemma PassPainted(g: Geometry, w: Progress, source: (nat, nat) -> Pixel, blend: (byte, byte, byte) -> byte,
                    before: seq<byte>, after: seq<byte>)
    requires Passes(w.interlaced, w.pass) && w.row >= g.height
    requires Painted(g, source, blend, w, before, after)
    ensures Painted(g, source, blend, PassBegin(w.interlaced, w.pass + 1), before, after)
  {
    hide Painted, Done, PassFor, PassBegin;
    var w' := PassBegin(w.interlaced, w.pass + 1);
    forall x: nat, y: nat | x < g.width && y < g.height
      ensures Done(w', x, y) <==> Done(w, x, y)
    {
      PassStep(w, g.height, x, y);
    }
    PaintedSame(g, source, blend, w, w', before, after);
  }

  /** A pass without columns: nothing is read and nothing is painted. */
  lemma PassSkipped(reader: SequentialRows, g: Geometry, pass: Pass, source: (nat, nat) -> Pixel,
                    blend: (byte, byte, byte) -> byte, before: seq<byte>, after: seq<byte>)
    requires Usable(g) && PassCols(g.width, pass) == 0 && ReaderAt(reader, g, true, pass, 0)
    requires Painted(g, source, blend, PassBegin(true, pass), before, after)
    ensures ReaderAt(reader, g, true, pass + 1, 0)
    ensures Painted(g, source, blend, PassBegin(true, pass + 1), before, after)
  {
    hide Painted, Done, PassBegin, PassCols;
    SubImageSize(g.width, g.height, pass);
    RestCons(SubImages, g.width, g.height, pass, 0);
    forall x: nat, y: nat | x < g.width && y < g.height
      ensures Done(PassBegin(true, pass + 1), x, y) <==> Done(PassBegin(true, pass), x, y)
    {
      EmptyPassStep(g.width, pass, x, y);
    }
    PaintedSame(g, source, blend, PassBegin(true, pass), PassBegin(true, pass + 1), before, after);
  }

  /** png_image_read_composite: every pixel of the image is blended exactly once, from
      the right pixel of the interlaced or plain file, and the padding is kept; the
      reader decodes every scanline of the file, in order. */
  method ReadComposite(g: Geometry, interlaced: bool, reader: SequentialRows, out: array<byte>,
                       source: (nat, nat) -> Pixel, blend: (byte, byte, byte) -> byte)
    requires Usable(g) && GoodSource(g, source) && out.Length == Size(g)
    requires reader.Valid() && reader.mode == ModeOf(interlaced)
    requires reader.width == g.width && reader.height == g.height
    requires reader.pass == 0 && reader.rowNumber == 0 && reader.draws == []
    modifies out, reader
    ensures forall x: nat, y: nat, c: nat :: Inside(g, x, y, c) ==>
              var a, p := Address(g, x, y, c), source(x, y);
              && 0 <= a < out.Length && c < |p.components|
              && (p.alpha == 0 ==> out[a] == old(At(out[..], a)))
              && (p.alpha == 255 ==> out[a] == p.components[c])
              && (0 < p.alpha < 255 ==> out[a] == blend(old(At(out[..], a)), p.components[c], p.alpha))
    ensures forall a :: 0 <= a < out.Length && !IsComponent(g, a) ==> out[a] == old(out[a])
    ensures reader.Valid() && reader.finished
    ensures reader.draws == Rest(ModeOf(interlaced), g.width, g.height, 0, 0)
  {
    ghost var before := out[..];
    NothingPainted(g, source, blend, interlaced, before);
    var passes := if interlaced then 7 else 1;
    var pass := 0;
    while pass < passes
      invariant 0 <= pass <= passes
      invariant ReaderAt(reader, g, interlaced, pass, 0)
      invariant Painted(g, source, blend, PassBegin(interlaced, pass), before, out[..])
    {
      hide Painted, PassBegin, PassCols, ReaderAt;
      if interlaced && PassCols(g.width, pass) == 0 {
        PassSkipped(reader, g, pass, source, blend, before, out[..]);
      } else {
        WalkPass(g, interlaced, pass, reader, out, source, blend, before);
      }
      pass := pass + 1;
    }
    AllRead(reader, g, interlaced);
    AllPainted(g, source, blend, interlaced, before, out[..]);
  }

  /** After the last pass the reader has decoded every scanline. */
  lemma AllRead(reader: SequentialRows, g: Geometry, interlaced: bool)
    requires ReaderAt(reader, g, interlaced, if interlaced then 7 else 1, 0)
    ensures reader.finished && reader.draws == Rest(ModeOf(interlaced), g.width, g.height, 0, 0)
  {
    NothingRemains(ModeOf(interlaced), g.width, g.height, if interlaced then 7 else 1, 0);
    if !reader.finished {
      reader.NextIsHere();
    }
    assert reader.draws + [] == reader.draws;
  }

  lemma NothingPainted(g: Geometry, source: (nat, nat) -> Pixel, blend: (byte, byte, byte) -> byte,
                       interlaced: bool, before: seq<byte>)
    ensures Painted(g, source, blend, PassBegin(interlaced, 0), before, before)
  {
    forall x: nat, y: nat
      ensures !Done(PassBegin(interlaced, 0), x, y)
    {
    }
  }

  /** After the last pass everything is done. */
  lemma AllPainted(g: Geometry, source: (nat, nat) -> Pixel, blend: (byte, byte, byte) -> byte,
                   interlaced: bool, before: seq<byte>, after: seq<byte>)
    requires Usable(g) && GoodSource(g, source) && |before| == Size(g)
    requires Painted(g, source, blend, PassBegin(interlaced, if interlaced then 7 else 1), before, after)
    ensures forall x: nat, y: nat, c: nat :: Inside(g, x, y, c) ==>
              && 0 <= Address(g, x, y, c) < |after| && c < |source(x, y).components|
              && after[Address(g, x, y, c)] ==
                 Mix(blend, At(before, Address(g, x, y, c)), source(x, y).components[c], source(x, y).alpha)
    ensures forall a :: 0 <= a < |after| && !IsComponent(g, a) ==> after[a] == before[a]
  {
    hide Address, Mix;
    forall x: nat, y: nat, c: nat | Inside(g, x, y, c)
      ensures && 0 <= Address(g, x, y, c) < |after| && c < |source(x, y).components|
              && after[Address(g, x, y, c)] ==
                 Mix(blend, At(before, Address(g, x, y, c)), source(x, y).components[c], source(x, y).alpha)
    {
      AddressInBounds(g, x, y, c);
      assert At(after, Address(g, x, y, c)) == after[Address(g, x, y, c)];
    }
    forall a | 0 <= a < |after| && !IsComponent(g, a)
      ensures after[a] == before[a]
    {
      assert At(after, a) == At(before, a);
    }
  }
}
