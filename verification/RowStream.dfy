/** png_process_IDAT_data (pngpread.c): compressed bytes go through inflate, whose output is
    cut into rows for png_push_process_row. inflate is any machine that reads and emits
    bytes one at a time; what a call of it does depends on how much input and room it gets.
    The rows are proved to be the successive segments of the output, and exactly how far
    they depend on the cut of the input is worked out. */
module RowStream {
  import opened Arithmetic
  import opened RowSchedule
  import opened PushSpec
  import opened PushReader
  import opened PushChunks

  /** What the decompressor does next: emit a byte, ask for one, stop, or give up. `data` is
      Z_DATA_ERROR. */
  datatype Action<!S> = Emit(b: byte, emitted: S) | Read(read: byte -> S) | End | Broken(data: bool)

  /** `lookahead`: does inflate go on reading when its output is full? */
  datatype Config<!S> = Config(act: S -> Action<S>, lookahead: bool, depth: nat, mode: RowSchedule.Mode, width: nat)

  /** A row handed to png_push_process_row. */
  datatype Line = Line(spot: Spot, bytes: seq<byte>)

  /** Under way, with the bytes of an unfinished row and the scanlines still due; ended
      (PNG_FLAG_ZSTREAM_ENDED); aborted by a png_error; or at an error of the stream. */
  datatype Flow<S> =
    | Open(t: S, partial: seq<byte>, due: seq<Spot>, lines: seq<Line>)
    | Ended(lines: seq<Line>)
    | Aborted(lines: seq<Line>)
    | Broke(lines: seq<Line>, partial: seq<byte>, due: seq<Spot>, data: bool)

  /** PNG_ROWBYTES */
  function RowBytes(depth: nat, cols: nat): nat {
    if depth >= 8 then cols * (depth / 8) else (cols * depth + 7) / 8
  }

  function ColsOf(mode: RowSchedule.Mode, width: nat, spot: Spot): nat {
    if mode == Plain || spot.pass >= 7 then width else SubCols(width, spot.pass)
  }

  /** The length of a scanline with its filter byte. */
  function LineSize<S>(cfg: Config<S>, spot: Spot): (n: nat)
    ensures n >= 1
  {
    RowBytes(cfg.depth, ColsOf(cfg.mode, cfg.width, spot)) + 1
  }

  /** A pixel depth of the format: a divisor or a multiple of eight bits. */
  predicate IsDepth(depth: nat) {
    depth in {1, 2, 4} || (depth > 0 && depth % 8 == 0)
  }

  /** `size` bytes are a filter byte and as many bytes as the pixels need, no more. */
  predicate HoldsPixels(depth: nat, cols: nat, size: nat) {
    cols * depth <= 8 * (size - 1) < cols * depth + 8
  }

  /** The length of a scanline is that. */
  lemma LineHoldsPixels<S>(cfg: Config<S>, spot: Spot)
    requires IsDepth(cfg.depth)
    ensures HoldsPixels(cfg.depth, ColsOf(cfg.mode, cfg.width, spot), LineSize(cfg, spot))
  {
    hide ColsOf;
    var cols := ColsOf(cfg.mode, cfg.width, spot);
    if cfg.depth % 8 == 0 {
      var k := cfg.depth / 8;
      assert cfg.depth == 8 * k;
      EightTimes(cols, k);
    }
  }

  lemma EightTimes(a: int, b: int)
    ensures a * (8 * b) == 8 * (a * b)
  {
  }

  /** Every row handed on has the length of its scanline. */
  predicate Sized<S>(cfg: Config<S>, lines: seq<Line>) {
    forall i :: 0 <= i < |lines| ==> |lines[i].bytes| == LineSize(cfg, lines[i].spot)
  }

  predicate Formed<S>(cfg: Config<S>, f: Flow<S>) {
    f.Open? ==> if f.due == [] then f.partial == [] else |f.partial| < LineSize(cfg, f.due[0])
  }

  /** The room in the row buffer; behind the last row there is room for something. */
  function Room<S>(cfg: Config<S>, f: Flow<S>): (n: nat)
    requires f.Open? && Formed(cfg, f)
    ensures n >= 1
  {
    if f.due == [] then 1 else LineSize(cfg, f.due[0]) - |f.partial|
  }

  // ---------------------------------------------------------------- the code, as functions

  datatype Return = Ok | StreamEnd | Bad(data: bool)

  /** What a call of inflate comes to. */
  datatype Inflated<S> = Inflated(t: S, out: seq<byte>, rest: seq<byte>, ret: Return)

  function InflateRun<S>(cfg: Config<S>, t: S, input: seq<byte>, room: nat): (r: Inflated<S>)
    ensures |r.out| <= room && |r.rest| <= |input|
    decreases |input| + room
  {
    if room == 0 && !cfg.lookahead then Inflated(t, [], input, Ok)
    else
      match cfg.act(t)
      case Emit(b, next) =>
        if room == 0 then Inflated(t, [], input, Ok)
        else
          var r := InflateRun(cfg, next, input, room - 1);
          r.(out := [b] + r.out)
      case Read(read) =>
        if input == [] then Inflated(t, [], input, Ok)
        else InflateRun(cfg, read(input[0]), input[1..], room)
      case End => Inflated(t, [], input, StreamEnd)
      case Broken(data) => Inflated(t, [], input, Bad(data))
  }

  /** The row buffer after some output: a full row is handed on. */
  function Advance<S>(cfg: Config<S>, f: Flow<S>, out: seq<byte>, t: S): Flow<S>
    requires f.Open?
  {
    if f.due != [] && |f.partial + out| == LineSize(cfg, f.due[0])
    then Open(t, [], f.due[1..], f.lines + [Line(f.due[0], f.partial + out)])
    else Open(t, f.partial + out, f.due, f.lines)
  }

  /** What follows a call of inflate: the tests for errors, for data behind the last row, for
      a complete row and for the end of the stream. */
  function Judge<S>(cfg: Config<S>, f: Flow<S>, r: Inflated<S>): Flow<S>
    requires f.Open?
  {
    if r.ret.Bad? then
      if f.due == [] || r.ret.data then Ended(f.lines) else Aborted(f.lines)
    else if f.partial + r.out != [] && f.due == [] then Ended(f.lines)
    else
      var g := Advance(cfg, f, r.out, r.t);
      if r.ret == StreamEnd then Ended(g.lines) else g
  }

  /** png_process_IDAT_data on a whole buffer. */
  function Process<S>(cfg: Config<S>, f: Flow<S>, input: seq<byte>): Flow<S>
    requires Formed(cfg, f)
    decreases |input|, if f.Open? then |f.due| + 1 else 0
  {
    if input == [] || !f.Open? then f
    else
      var r := InflateRun(cfg, f.t, input, Room(cfg, f));
      Progress(cfg, f, input);
      Process(cfg, Judge(cfg, f, r), r.rest)
  }

  /** Each turn of the loop reads a byte, completes a row or stops. */
  lemma Progress<S>(cfg: Config<S>, f: Flow<S>, input: seq<byte>)
    requires f.Open? && Formed(cfg, f) && input != []
    ensures var r := InflateRun(cfg, f.t, input, Room(cfg, f));
      var g := Judge(cfg, f, r);
      && Formed(cfg, g)
      && (g.Open? ==> |r.rest| < |input| || (|r.rest| == |input| && |g.due| < |f.due|))
  {
    InflateMoves(cfg, f.t, input, Room(cfg, f));
  }

  /** inflate reads something or fills its room, unless it stops. */
  lemma {:induction false} InflateMoves<S>(cfg: Config<S>, t: S, input: seq<byte>, room: nat)
    requires input != []
    ensures var r := InflateRun(cfg, t, input, room);
      r.ret == Ok ==> |r.rest| < |input| || |r.out| == room
    decreases |input| + room
  {
    if room > 0 && cfg.act(t).Emit? {
      InflateMoves(cfg, cfg.act(t).emitted, input, room - 1);
    }
  }

  lemma {:induction false} ProcessKeepsSizes<S>(cfg: Config<S>, f: Flow<S>, input: seq<byte>)
    requires Formed(cfg, f) && Sized(cfg, f.lines)
    ensures Sized(cfg, Process(cfg, f, input).lines)
    decreases |input|, if f.Open? then |f.due| + 1 else 0
  {
    hide LineSize, InflateRun;
    if input != [] && f.Open? {
      var r := InflateRun(cfg, f.t, input, Room(cfg, f));
      Progress(cfg, f, input);
      ProcessKeepsSizes(cfg, Judge(cfg, f, r), r.rest);
    }
  }

  lemma {:induction false} ProcessAllKeepsSizes<S>(cfg: Config<S>, f: Flow<S>, buffers: seq<seq<byte>>)
    requires Formed(cfg, f) && Sized(cfg, f.lines)
    ensures Sized(cfg, ProcessAll(cfg, f, buffers).lines)
    decreases |buffers|
  {
    hide Sized, Process;
    if buffers != [] {
      var n := |buffers| - 1;
      ProcessAllKeepsSizes(cfg, f, buffers[..n]);
      ProcessKeepsSizes(cfg, ProcessAll(cfg, f, buffers[..n]), buffers[n]);
    }
  }

  /** Each row is a filter byte and the least number of bytes that holds its pixels. */
  predicate PixelRows<S>(cfg: Config<S>, lines: seq<Line>) {
    forall i :: 0 <= i < |lines| ==>
      HoldsPixels(cfg.depth, ColsOf(cfg.mode, cfg.width, lines[i].spot), |lines[i].bytes|)
  }

  lemma NoPixelRows<S>(cfg: Config<S>)
    ensures PixelRows(cfg, [])
  {
  }

  lemma RowsHoldPixels<S>(cfg: Config<S>, f: Flow<S>, buffers: seq<seq<byte>>)
    requires Formed(cfg, f) && f.lines == [] && IsDepth(cfg.depth)
    ensures PixelRows(cfg, ProcessAll(cfg, f, buffers).lines)
  {
    hide LineSize, HoldsPixels, ColsOf, ProcessAll;
    ProcessAllKeepsSizes(cfg, f, buffers);
    var lines := ProcessAll(cfg, f, buffers).lines;
    forall i | 0 <= i < |lines|
      ensures HoldsPixels(cfg.depth, ColsOf(cfg.mode, cfg.width, lines[i].spot), |lines[i].bytes|)
    {
      LineHoldsPixels(cfg, lines[i].spot);
    }
  }

  /** A list of buffers, one call after the other. */
  function ProcessAll<S>(cfg: Config<S>, f: Flow<S>, buffers: seq<seq<byte>>): (g: Flow<S>)
    requires Formed(cfg, f)
    ensures Formed(cfg, g)
    decreases |buffers|
  {
    if buffers == [] then f
    else
      var n := |buffers| - 1;
      ProcessKeepsForm(cfg, ProcessAll(cfg, f, buffers[..n]), buffers[n]);
      Process(cfg, ProcessAll(cfg, f, buffers[..n]), buffers[n])
  }

  lemma {:induction false} ProcessKeepsForm<S>(cfg: Config<S>, f: Flow<S>, input: seq<byte>)
    requires Formed(cfg, f)
    ensures Formed(cfg, Process(cfg, f, input))
    decreases |input|, if f.Open? then |f.due| + 1 else 0
  {
    if input != [] && f.Open? {
      var r := InflateRun(cfg, f.t, input, Room(cfg, f));
      Progress(cfg, f, input);
      ProcessKeepsForm(cfg, Judge(cfg, f, r), r.rest);
    }
  }

  // ---------------------------------------------------------------- the code, in place

  /** The zlib fields of png_struct, the row buffer, and the row counters. */
  class IdatRows<S> {
    const cfg: Config<S>
    const rows: PushRows
    var t: S
    var rowBuf: seq<byte>  // from row_buf to next_out
    var availOut: nat
    var ended: bool        // PNG_FLAG_ZSTREAM_ENDED
    var aborted: bool      // a png_error has been raised
    var lines: seq<Line>

    ghost function DueRows(): seq<Spot>
      reads rows
    {
      Due(rows.mode, rows.Remaining())
    }

    /** The row buffer and its room make up the next scanline; no room at all says that the
        row has been handed on. */
    ghost predicate Valid()
      reads this, rows
    {
      && rows.Valid() && rows.mode == cfg.mode && rows.width == cfg.width
      && (!ended && !aborted && availOut > 0 ==>
            if DueRows() == [] then rowBuf == []
            else |rowBuf| + availOut == LineSize(cfg, DueRows()[0]))
    }

    ghost function View(): (f: Flow<S>)
      requires Valid()
      reads this, rows
      ensures Formed(cfg, f)
    {
      if aborted then Aborted(lines)
      else if ended then Ended(lines)
      else Open(t, if availOut == 0 then [] else rowBuf, DueRows(), lines)
    }

    /** The start of the image data in png_push_read_chunk */
    constructor (cfg: Config<S>, rows: PushRows, t: S)
      requires rows.Valid() && rows.mode == cfg.mode && rows.width == cfg.width
      requires !rows.Finished()
      ensures Valid() && this.cfg == cfg && this.rows == rows
      ensures View() == Open(t, [], Due(rows.mode, rows.Remaining()), [])
    {
      this.cfg, this.rows, this.t := cfg, rows, t;
      rowBuf, lines, ended, aborted := [], [], false, false;
      rows.DueHere();
      availOut := RowBytes(cfg.depth, rows.iwidth) + 1;
    }

    /** PNG_INFLATE */
    method Inflate(input: seq<byte>) returns (rest: seq<byte>, ret: Return)
      modifies this`t, this`rowBuf, this`availOut
      ensures var r := InflateRun(cfg, old(t), input, old(availOut));
        && t == r.t && rowBuf == old(rowBuf) + r.out && availOut == old(availOut) - |r.out|
        && rest == r.rest && ret == r.ret
    {
      rest, ret := input, Ok;
      ghost var out := [];
      while true
        invariant rowBuf == old(rowBuf) + out && availOut + |out| == old(availOut)
        invariant var r := InflateRun(cfg, t, rest, availOut);
          InflateRun(cfg, old(t), input, old(availOut)) == r.(out := out + r.out)
        invariant ret == Ok
        decreases |rest| + availOut
      {
        ghost var r := InflateRun(cfg, t, rest, availOut);
        assert out + [] == out;
        if availOut == 0 && !cfg.lookahead {
          return;
        }
        match cfg.act(t)
        case Emit(b, next) =>
          if availOut == 0 {
            return;
          }
          assert out + r.out == (out + [b]) + r.out[1..];
          t, rowBuf, availOut := next, rowBuf + [b], availOut - 1;
          out := out + [b];
        case Read(read) =>
          if rest == [] {
            return;
          }
          t, rest := read(rest[0]), rest[1..];
        case End =>
          ret := StreamEnd;
          return;
        case Broken(data) =>
          ret := Bad(data);
          return;
      }
    }

    /** png_process_IDAT_data */
    method ProcessIdatData(buffer: seq<byte>)
      requires Valid()
      modifies this, rows
      ensures Valid() && View() == Process(cfg, old(View()), buffer)
    {
      hide InflateRun, Judge, Scanlines, Rest, LineSize;
      var rest := buffer;
      ghost var f := View();
      while rest != [] && !ended && !aborted
        invariant Valid() && Process(cfg, View(), rest) == Process(cfg, f, buffer)
        decreases |rest|, if !ended && !aborted then |DueRows()| + 1 else 0
      {
        ghost var g := View();
        Progress(cfg, g, rest);
        ghost var was := rest;
        rest := Turn(rest);
        if View().Open? {
          assert Process(cfg, g, was) == Process(cfg, View(), rest);
        }
      }
    }

    /** One turn of its loop. */
    method Turn(input: seq<byte>) returns (rest: seq<byte>)
      requires Valid() && !ended && !aborted && input != []
      modifies this, rows
      ensures Valid()
      ensures var r := InflateRun(cfg, old(t), input, Room(cfg, old(View())));
        && View() == Judge(cfg, old(View()), r)
        && (View().Open? ==> rest == r.rest)
      ensures |rest| <= |input|
    {
      hide InflateRun, Scanlines, Rest, Judge, LineSize;
      ghost var f := View();
      MakeRoom();
      ghost var room := availOut;
      var ret;
      rest, ret := Inflate(input);
      ghost var r := InflateRun(cfg, f.t, input, room);
      SameJudgement(cfg, f, input, room);
      Tests(ret, f, r);
    }

    /** What follows the call of inflate */
    method Tests(ret: Return, ghost f: Flow<S>, ghost r: Inflated<S>)
      requires rows.Valid() && rows.mode == cfg.mode && rows.width == cfg.width && !ended && !aborted
      requires f.Open? && Formed(cfg, f) && f.due == DueRows() && f.lines == lines
      requires t == r.t && rowBuf == f.partial + r.out && ret == r.ret
      requires if f.due != [] then availOut == Room(cfg, f) - |r.out| else r.out == [] ==> availOut > 0
      modifies this`ended, this`aborted, this`lines, rows
      ensures Valid() && View() == Judge(cfg, f, r)
    {
      hide Scanlines, Rest, Advance, LineSize;
      rows.DueHere();
      if ret.Bad? {
        ended := true;
        if !rows.Finished() && !ret.data {
          aborted := true;
        }
        return;
      }
      if rowBuf != [] {
        if rows.Finished() {
          ended := true;
          return;
        }
        if availOut == 0 {
          ProcessRow(f, r);
        } else {
          NotFull(cfg, f, r);
        }
      } else {
        NotFull(cfg, f, r);
      }
      if ret == StreamEnd {
        ended := true;
      }
    }

    /** The reset of the row buffer */
    method MakeRoom()
      requires Valid() && !ended && !aborted
      modifies this`rowBuf, this`availOut
      ensures Valid() && View() == old(View()) && availOut > 0
      ensures DueRows() != [] ==> availOut == Room(cfg, View())
    {
      rows.DueHere();
      if availOut == 0 {
        availOut := RowBytes(cfg.depth, rows.iwidth) + 1;
        rowBuf := [];
      }
    }

    /** png_push_process_row on a full row buffer */
    method ProcessRow(ghost f: Flow<S>, ghost r: Inflated<S>)
      requires rows.Valid() && rows.mode == cfg.mode && rows.width == cfg.width && !rows.Finished()
      requires f.Open? && f.due == DueRows() != [] && f.lines == lines && rowBuf == f.partial + r.out
      requires t == r.t && availOut == 0 && !ended && !aborted && |rowBuf| == LineSize(cfg, f.due[0])
      modifies rows, this`lines
      ensures Valid() && View() == Advance(cfg, f, r.out, r.t)
    {
      hide Scanlines, Rest, LineSize;
      rows.DueHere();
      ghost var due := DueRows();
      lines := lines + [Line(Spot(rows.pass, rows.rowNumber), rowBuf)];
      rows.ProcessRow();
      assert DueRows() == due[1..];
    }
  }

  lemma SameJudgement<S>(cfg: Config<S>, f: Flow<S>, input: seq<byte>, room: nat)
    requires f.Open? && Formed(cfg, f) && room >= 1 && (f.due != [] ==> room == Room(cfg, f))
    ensures var r, r1 := InflateRun(cfg, f.t, input, room), InflateRun(cfg, f.t, input, Room(cfg, f));
      Judge(cfg, f, r) == Judge(cfg, f, r1) && (Judge(cfg, f, r).Open? ==> r == r1)
  {
    hide InflateRun;
    if f.due == [] {
      RoomBehindEnd(cfg, f.t, input, room);
    }
  }

  lemma NotFull<S>(cfg: Config<S>, f: Flow<S>, r: Inflated<S>)
    requires f.Open? && Formed(cfg, f) && (f.due != [] ==> |r.out| < Room(cfg, f))
    ensures Advance(cfg, f, r.out, r.t) == Open(r.t, f.partial + r.out, f.due, f.lines)
  {
  }

  /** Behind the last row, how much room there is does not matter. */
  lemma {:induction false} RoomBehindEnd<S>(cfg: Config<S>, t: S, input: seq<byte>, room: nat)
    requires room >= 1
    ensures var r, r1 := InflateRun(cfg, t, input, room), InflateRun(cfg, t, input, 1);
      (r.out == [] <==> r1.out == []) && (r.out == [] ==> r == r1)
    decreases |input|
  {
    if cfg.act(t).Read? && input != [] {
      RoomBehindEnd(cfg, cfg.act(t).read(input[0]), input[1..], room);
    }
  }

  // ---------------------------------------------------------------- the specification

  /** The decompressor run as far as the input goes, with every output byte put in its row at
      once. */
  function Eager<S>(cfg: Config<S>, f: Flow<S>, input: seq<byte>): (g: Flow<S>)
    requires Formed(cfg, f)
    ensures Formed(cfg, g)
    decreases |input|, if f.Open? then |f.due| else 0, if f.Open? then Room(cfg, f) else 0
  {
    if !f.Open? then f
    else
      match cfg.act(f.t)
      case Emit(b, next) =>
        if f.due == [] then Ended(f.lines) else Eager(cfg, Advance(cfg, f, [b], next), input)
      case Read(read) =>
        if input == [] then f else Eager(cfg, f.(t := read(input[0])), input[1..])
      case End => Ended(f.lines)
      case Broken(data) => Broke(f.lines, f.partial, f.due, data)
  }

  lemma {:induction false} EagerAppend<S>(cfg: Config<S>, f: Flow<S>, a: seq<byte>, b: seq<byte>)
    requires Formed(cfg, f)
    ensures Eager(cfg, f, a + b) == Eager(cfg, Eager(cfg, f, a), b)
    decreases |a|, if f.Open? then |f.due| else 0, if f.Open? then Room(cfg, f) else 0
  {
    if f.Open? {
      match cfg.act(f.t)
      case Emit(x, next) =>
        if f.due != [] {
          EagerAppend(cfg, Advance(cfg, f, [x], next), a, b);
        }
      case Read(read) =>
        if a == [] {
          assert a + b == b;
        } else {
          assert (a + b)[1..] == a[1..] + b;
          EagerAppend(cfg, f.(t := read(a[0])), a[1..], b);
        }
      case _ =>
    }
  }

  // ---------------------------------------------------------------- one call of inflate

  /** How a call of inflate ends. */
  ghost predicate StopsRight<S>(cfg: Config<S>, r: Inflated<S>) {
    && (r.ret == StreamEnd ==> cfg.act(r.t).End?)
    && (r.ret.Bad? ==> cfg.act(r.t) == Broken(r.ret.data))
  }

  /** Reading ahead with a full row buffer: the row may as well have been handed on before. */
  lemma {:induction false} ReadsAhead<S>(cfg: Config<S>, f: Flow<S>, input: seq<byte>)
    requires f.Open? && Formed(cfg, f)
    ensures var r := InflateRun(cfg, f.t, input, 0);
      r.out == [] && StopsRight(cfg, r) && Eager(cfg, f, input) == Eager(cfg, f.(t := r.t), r.rest)
    decreases |input|
  {
    if cfg.lookahead && cfg.act(f.t).Read? && input != [] {
      ReadsAhead(cfg, f.(t := cfg.act(f.t).read(input[0])), input[1..]);
    }
  }

  lemma AdvanceTwice<S>(cfg: Config<S>, f: Flow<S>, b: byte, out: seq<byte>, next: S, t: S)
    requires f.Open? && Formed(cfg, f) && f.due != [] && 1 + |out| <= Room(cfg, f)
    ensures var g := Advance(cfg, f, [b], next);
      && Formed(cfg, g) && g.Open? && g.t == next
      && (Room(cfg, f) == 1 ==> Advance(cfg, f, [b] + out, t) == g.(t := t))
      && (Room(cfg, f) > 1 ==>
            && g.due == f.due && Room(cfg, g) == Room(cfg, f) - 1
            && Advance(cfg, g, out, t) == Advance(cfg, f, [b] + out, t))
  {
    assert f.partial + ([b] + out) == (f.partial + [b]) + out;
    if Room(cfg, f) == 1 {
      assert out == [] && [b] + out == [b];
    }
  }

  /** A call of inflate with the room of the row buffer does a part of the eager run. */
  lemma {:induction false} InflateIsEager<S>(cfg: Config<S>, f: Flow<S>, input: seq<byte>)
    requires f.Open? && Formed(cfg, f) && f.due != []
    ensures var r := InflateRun(cfg, f.t, input, Room(cfg, f));
      var g := Advance(cfg, f, r.out, r.t);
      && StopsRight(cfg, r) && Formed(cfg, g)
      && Eager(cfg, f, input) == Eager(cfg, g, r.rest)
    decreases |input|, Room(cfg, f)
  {
    hide LineSize;
    var r := InflateRun(cfg, f.t, input, Room(cfg, f));
    match cfg.act(f.t)
    case Emit(b, next) =>
      var g := Advance(cfg, f, [b], next);
      AdvanceTwice(cfg, f, b, r.out[1..], next, r.t);
      assert [b] + r.out[1..] == r.out;
      if Room(cfg, f) == 1 {
        ReadsAhead(cfg, g, input);
      } else {
        InflateIsEager(cfg, g, input);
      }
    case Read(read) =>
      if input != [] {
        InflateIsEager(cfg, f.(t := read(input[0])), input[1..]);
      } else {
        assert f.partial + [] == f.partial;
      }
    case _ =>
      assert f.partial + [] == f.partial;
  }

  /** Behind the last row any output ends the run, and reading changes nothing else. */
  lemma {:induction false} InflateExtra<S>(cfg: Config<S>, f: Flow<S>, input: seq<byte>, room: nat)
    requires f.Open? && Formed(cfg, f) && f.due == [] && room >= 1
    ensures var r := InflateRun(cfg, f.t, input, room);
      if r.out != [] then Eager(cfg, f, input) == Ended(f.lines)
      else StopsRight(cfg, r) && Eager(cfg, f, input) == Eager(cfg, f.(t := r.t), r.rest)
    decreases |input|
  {
    if cfg.act(f.t).Read? && input != [] {
      InflateExtra(cfg, f.(t := cfg.act(f.t).read(input[0])), input[1..], room);
    }
  }

  // ---------------------------------------------------------------- a whole buffer

  /** One turn of the loop, on a stream without errors. */
  lemma TurnIsEager<S>(cfg: Config<S>, f: Flow<S>, input: seq<byte>)
    requires f.Open? && Formed(cfg, f)
    requires !Eager(cfg, f, input).Broke?
    ensures var r := InflateRun(cfg, f.t, input, Room(cfg, f));
      var g := Judge(cfg, f, r);
      Formed(cfg, g) && Eager(cfg, g, r.rest) == Eager(cfg, f, input)
  {
    if f.due == [] {
      InflateExtra(cfg, f, input, 1);
      assert f.partial + [] == f.partial;
    } else {
      InflateIsEager(cfg, f, input);
    }
  }

  /** png_process_IDAT_data does the eager run, up to output that is still inside inflate when
      the input is used up. */
  lemma {:induction false} ProcessIsEager<S>(cfg: Config<S>, f: Flow<S>, input: seq<byte>)
    requires Formed(cfg, f) && !Eager(cfg, f, input).Broke?
    ensures Formed(cfg, Process(cfg, f, input))
    ensures Eager(cfg, Process(cfg, f, input), []) == Eager(cfg, f, input)
    decreases |input|, if f.Open? then |f.due| + 1 else 0
  {
    ProcessKeepsForm(cfg, f, input);
    if input != [] && f.Open? {
      var r := InflateRun(cfg, f.t, input, Room(cfg, f));
      Progress(cfg, f, input);
      TurnIsEager(cfg, f, input);
      ProcessIsEager(cfg, Judge(cfg, f, r), r.rest);
    }
  }

  /** ... and so does any list of buffers: what is delivered, what is inside inflate, and the
      end of the stream depend only on the bytes. */
  lemma {:induction false} ProcessAllIsEager<S>(cfg: Config<S>, f: Flow<S>, buffers: seq<seq<byte>>)
    requires Formed(cfg, f) && !Eager(cfg, f, Concat(buffers)).Broke?
    ensures Eager(cfg, ProcessAll(cfg, f, buffers), []) == Eager(cfg, f, Concat(buffers))
    decreases |buffers|
  {
    if buffers != [] {
      var n := |buffers| - 1;
      var before, last := Concat(buffers[..n]), buffers[n];
      EagerAppend(cfg, f, before, last);
      ProcessAllIsEager(cfg, f, buffers[..n]);
      var p := ProcessAll(cfg, f, buffers[..n]);
      EagerAppend(cfg, p, [], last);
      assert [] + last == last;
      ProcessIsEager(cfg, p, last);
    }
  }

  // ---------------------------------------------------------------- the rows are segments

  /** Bytes cut into the scanlines due. */
  function Cut<S>(cfg: Config<S>, due: seq<Spot>, bytes: seq<byte>): seq<Line> {
    if due == [] || |bytes| < LineSize(cfg, due[0]) then []
    else
      var n := LineSize(cfg, due[0]);
      [Line(due[0], bytes[..n])] + Cut(cfg, due[1..], bytes[n..])
  }

  /** The bytes of some rows, one row after the other. */
  function BytesOf(lines: seq<Line>): seq<byte> {
    if lines == [] then [] else lines[0].bytes + BytesOf(lines[1..])
  }

  /** The cut gives the first scanlines due, in order, loses, repeats and moves no byte, and leaves
      less than a scanline. */
  lemma {:induction false} CutIs<S>(cfg: Config<S>, due: seq<Spot>, bytes: seq<byte>)
    ensures var lines := Cut(cfg, due, bytes);
      && |lines| <= |due| && BytesOf(lines) <= bytes
      && (forall i :: 0 <= i < |lines| ==>
            lines[i].spot == due[i] && |lines[i].bytes| == LineSize(cfg, due[i]))
      && (|lines| < |due| ==> |bytes| - |BytesOf(lines)| < LineSize(cfg, due[|lines|]))
    decreases |due|
  {
    hide LineSize;
    if due != [] && |bytes| >= LineSize(cfg, due[0]) {
      var n := LineSize(cfg, due[0]);
      CutIs(cfg, due[1..], bytes[n..]);
      var rest := Cut(cfg, due[1..], bytes[n..]);
      var lines := [Line(due[0], bytes[..n])] + rest;
      assert lines[1..] == rest;
      assert bytes == bytes[..n] + bytes[n..];
    }
  }

  /** The size of all scanlines due. */
  function ImageSize<S>(cfg: Config<S>, due: seq<Spot>): nat {
    if due == [] then 0 else LineSize(cfg, due[0]) + ImageSize(cfg, due[1..])
  }

  /** The rows are the successive segments of what one call of inflate would output that has
      the whole input and room for the whole image. */
  lemma {:induction false} RowsAreSegments<S>(cfg: Config<S>, f: Flow<S>, input: seq<byte>)
    requires f.Open? && Formed(cfg, f)
    ensures ImageSize(cfg, f.due) >= |f.partial|
    ensures var out := InflateRun(cfg, f.t, input, ImageSize(cfg, f.due) - |f.partial|).out;
      Eager(cfg, f, input).lines == f.lines + Cut(cfg, f.due, f.partial + out)
    decreases |input|, |f.due|, Room(cfg, f)
  {
    hide Cut, ImageSize, LineSize, Advance;
    CutShort(cfg, f);
    var room := ImageSize(cfg, f.due) - |f.partial|;
    var r := InflateRun(cfg, f.t, input, room);
    match cfg.act(f.t)
    case Emit(b, next) =>
      if f.due != [] {
        var g := Advance(cfg, f, [b], next);
        CutEmitted(cfg, f, b, InflateRun(cfg, next, input, room - 1).out, next);
        RowsAreSegments(cfg, g, input);
      } else {
        NoRoom(cfg, f.t, input);
      }
    case Read(read) =>
      if input != [] {
        RowsAreSegments(cfg, f.(t := read(input[0])), input[1..]);
        if room == 0 {
          NoRoom(cfg, f.t, input);
          NoRoom(cfg, read(input[0]), input[1..]);
        }
      }
    case _ =>
  }

  lemma {:induction false} NoRoom<S>(cfg: Config<S>, t: S, input: seq<byte>)
    ensures InflateRun(cfg, t, input, 0).out == []
  {
  }

  lemma CutShort<S>(cfg: Config<S>, f: Flow<S>)
    requires f.Open? && Formed(cfg, f)
    ensures ImageSize(cfg, f.due) >= |f.partial| && (f.due == [] ==> ImageSize(cfg, f.due) == 0)
    ensures f.due != [] ==> ImageSize(cfg, f.due) > |f.partial|
    ensures f.lines + Cut(cfg, f.due, f.partial + []) == f.lines
  {
    assert f.partial + [] == f.partial;
  }

  lemma CutEmitted<S>(cfg: Config<S>, f: Flow<S>, b: byte, out: seq<byte>, next: S)
    requires f.Open? && Formed(cfg, f) && f.due != []
    ensures var g := Advance(cfg, f, [b], next);
      && Formed(cfg, g) && g.Open? && g.t == next
      && (|g.due| < |f.due| || (|g.due| == |f.due| && Room(cfg, g) < Room(cfg, f)))
      && ImageSize(cfg, g.due) - |g.partial| == ImageSize(cfg, f.due) - |f.partial| - 1
      && g.lines + Cut(cfg, g.due, g.partial + out) == f.lines + Cut(cfg, f.due, f.partial + ([b] + out))
  {
    var row, n := f.partial + [b], LineSize(cfg, f.due[0]);
    var all := f.partial + ([b] + out);
    assert all == row + out;
    if |row| == n {
      assert all[..n] == row && all[n..] == out && [] + out == out;
      assert f.lines + ([Line(f.due[0], row)] + Cut(cfg, f.due[1..], out))
          == (f.lines + [Line(f.due[0], row)]) + Cut(cfg, f.due[1..], out);
    }
  }

  // ---------------------------------------------------------------- behind the last byte

  /** The run as far as the input forces it: up to the reading of the last byte. */
  function Lazy<S>(cfg: Config<S>, f: Flow<S>, input: seq<byte>): (g: Flow<S>)
    requires Formed(cfg, f)
    ensures Formed(cfg, g)
    decreases |input|, if f.Open? then |f.due| else 0, if f.Open? then Room(cfg, f) else 0
  {
    if !f.Open? || input == [] then f
    else
      match cfg.act(f.t)
      case Emit(b, next) =>
        if f.due == [] then Ended(f.lines) else Lazy(cfg, Advance(cfg, f, [b], next), input)
      case Read(read) => Lazy(cfg, f.(t := read(input[0])), input[1..])
      case End => Ended(f.lines)
      case Broken(data) => Broke(f.lines, f.partial, f.due, data)
  }

  lemma {:induction false} LazyAppend<S>(cfg: Config<S>, f: Flow<S>, a: seq<byte>, b: seq<byte>)
    requires Formed(cfg, f) && b != []
    ensures Lazy(cfg, f, a + b) == Lazy(cfg, Eager(cfg, f, a), b)
    decreases |a|, if f.Open? then |f.due| else 0, if f.Open? then Room(cfg, f) else 0
  {
    if f.Open? {
      match cfg.act(f.t)
      case Emit(x, next) =>
        if f.due != [] {
          LazyAppend(cfg, Advance(cfg, f, [x], next), a, b);
        }
      case Read(read) =>
        if a == [] {
          assert a + b == b;
        } else {
          assert (a + b)[1..] == a[1..] + b;
          LazyAppend(cfg, f.(t := read(a[0])), a[1..], b);
        }
      case _ =>
    }
  }

  /** Reading ahead with a full row buffer, lazily. */
  lemma {:induction false} ReadsAheadLazily<S>(cfg: Config<S>, f: Flow<S>, input: seq<byte>)
    requires f.Open? && Formed(cfg, f) && input != []
    ensures var r, l := InflateRun(cfg, f.t, input, 0), Lazy(cfg, f, input);
      if r.rest != [] then l == Lazy(cfg, f.(t := r.t), r.rest)
      else
        && cfg.lookahead && l.Open? && l == f.(t := l.t)
        && var r' := InflateRun(cfg, l.t, [], 0);
        r'.t == r.t && r'.ret == r.ret
    decreases |input|
  {
    if cfg.lookahead && cfg.act(f.t).Read? {
      var g := f.(t := cfg.act(f.t).read(input[0]));
      if |input| > 1 {
        ReadsAheadLazily(cfg, g, input[1..]);
      } else {
        assert input[1..] == [] && Lazy(cfg, g, []) == g;
      }
    }
  }

  /** Has the row that the last byte was read behind been completed in this call, with inflate
      reading on? Then there is no room for what follows that byte. */
  predicate Crowded<S>(cfg: Config<S>, f: Flow<S>, l: Flow<S>)
    requires l.Open?
  {
    cfg.lookahead && l.partial == [] && |l.lines| > |f.lines|
  }

  /** The call of inflate that reads the last byte, from that byte on. */
  function Afterwards<S>(cfg: Config<S>, f: Flow<S>, l: Flow<S>): Inflated<S>
    requires l.Open? && Formed(cfg, l)
  {
    InflateRun(cfg, l.t, [], if Crowded(cfg, f, l) then 0 else Room(cfg, l))
  }

  /** A call that reads the last byte ends as its part behind that byte does. */
  ghost predicate EndsAs<S>(cfg: Config<S>, f: Flow<S>, l: Flow<S>, r: Inflated<S>)
    requires f.Open? && Formed(cfg, l)
  {
    && l.Open?
    && (Crowded(cfg, f, l) || (l.lines == f.lines && l.due == f.due))
    && var r' := Afterwards(cfg, f, l);
    r.t == r'.t && r.ret == r'.ret && Advance(cfg, f, r.out, r.t) == Advance(cfg, l, r'.out, r'.t)
  }

  /** The byte that fills the row. */
  lemma FillLazily<S>(cfg: Config<S>, f: Flow<S>, input: seq<byte>)
    requires f.Open? && Formed(cfg, f) && f.due != [] && input != []
    requires Room(cfg, f) == 1 && cfg.act(f.t).Emit?
    ensures var r, l := InflateRun(cfg, f.t, input, 1), Lazy(cfg, f, input);
      var g := Advance(cfg, f, r.out, r.t);
      && Formed(cfg, g)
      && (if r.rest != [] then l == Lazy(cfg, g, r.rest) else EndsAs(cfg, f, l, r))
  {
    hide LineSize;
    var b, next := cfg.act(f.t).b, cfg.act(f.t).emitted;
    var g, r := Advance(cfg, f, [b], next), InflateRun(cfg, next, input, 0);
    ReadsAhead(cfg, g, input);
    ReadsAheadLazily(cfg, g, input);
    assert InflateRun(cfg, f.t, input, 1) == r.(out := [b]) && Lazy(cfg, f, input) == Lazy(cfg, g, input);
    AdvanceTwice(cfg, f, b, [], next, r.t);
    assert [b] + [] == [b];
    if r.rest == [] {
      var l := Lazy(cfg, g, input);
      NotFull(cfg, l, InflateRun(cfg, l.t, [], 0));
    }
  }

  lemma AdvanceFrom<S>(cfg: Config<S>, f: Flow<S>, t: S, out: seq<byte>, t': S)
    requires f.Open?
    ensures Advance(cfg, f.(t := t), out, t') == Advance(cfg, f, out, t')
  {
  }

  /** One byte earlier: a byte read, a byte emitted, and the last byte itself. */
  lemma EndsAsRead<S>(cfg: Config<S>, f: Flow<S>, t: S, l: Flow<S>, r: Inflated<S>)
    requires f.Open? && Formed(cfg, l) && EndsAs(cfg, f.(t := t), l, r)
    ensures EndsAs(cfg, f, l, r)
  {
  }

  lemma EndsAsEmitted<S>(cfg: Config<S>, f: Flow<S>, b: byte, next: S, l: Flow<S>, r: Inflated<S>)
    requires f.Open? && Formed(cfg, f) && f.due != [] && Room(cfg, f) > 1 && |r.out| < Room(cfg, f)
    requires Formed(cfg, l) && EndsAs(cfg, Advance(cfg, f, [b], next), l, r)
    ensures EndsAs(cfg, f, l, r.(out := [b] + r.out))
  {
    hide LineSize, InflateRun;
    AdvanceTwice(cfg, f, b, r.out, next, r.t);
  }

  lemma EndsAsLast<S>(cfg: Config<S>, f: Flow<S>, t: S)
    requires f.Open? && Formed(cfg, f)
    ensures EndsAs(cfg, f, f.(t := t), InflateRun(cfg, t, [], Room(cfg, f)))
  {
  }

  lemma {:induction false} InflateLazily<S>(cfg: Config<S>, f: Flow<S>, input: seq<byte>)
    requires f.Open? && Formed(cfg, f) && f.due != [] && input != []
    ensures var r, l := InflateRun(cfg, f.t, input, Room(cfg, f)), Lazy(cfg, f, input);
      var g := Advance(cfg, f, r.out, r.t);
      && Formed(cfg, g)
      && (if r.rest != [] then l == Lazy(cfg, g, r.rest) else EndsAs(cfg, f, l, r))
    decreases |input|, Room(cfg, f)
  {
    hide LineSize, EndsAs, Advance;
    InflateIsEager(cfg, f, input);
    match cfg.act(f.t)
    case Emit(b, next) =>
      if Room(cfg, f) == 1 {
        FillLazily(cfg, f, input);
      } else {
        var g, r := Advance(cfg, f, [b], next), InflateRun(cfg, next, input, Room(cfg, f) - 1);
        AdvanceTwice(cfg, f, b, r.out, next, r.t);
        InflateLazily(cfg, g, input);
        if r.rest == [] {
          EndsAsEmitted(cfg, f, b, next, Lazy(cfg, g, input), r);
        }
      }
    case Read(read) =>
      var g := f.(t := read(input[0]));
      if |input| > 1 {
        InflateLazily(cfg, g, input[1..]);
        var r := InflateRun(cfg, g.t, input[1..], Room(cfg, f));
        AdvanceFrom(cfg, f, g.t, r.out, r.t);
        if r.rest == [] {
          EndsAsRead(cfg, f, g.t, Lazy(cfg, g, input[1..]), r);
        }
      } else {
        assert input[1..] == [] && Lazy(cfg, g, []) == g;
        EndsAsLast(cfg, f, g.t);
        EmptyRest(cfg, g.t, Room(cfg, f));
      }
    case _ =>
      assert f.partial + [] == f.partial;
      NotFull(cfg, f, InflateRun(cfg, f.t, input, Room(cfg, f)));
  }

  /** Behind the last row. */
  lemma {:induction false} ExtraLazily<S>(cfg: Config<S>, f: Flow<S>, input: seq<byte>)
    requires f.Open? && Formed(cfg, f) && f.due == [] && input != []
    ensures var r, l := InflateRun(cfg, f.t, input, 1), Lazy(cfg, f, input);
      if r.rest != [] && r.out == [] then l == Lazy(cfg, f.(t := r.t), r.rest)
      else || (r.out != [] && l == Ended(f.lines))
           || (r.rest == [] && l.Open? && l == f.(t := l.t) && r == InflateRun(cfg, l.t, [], 1))
    decreases |input|
  {
    if cfg.act(f.t).Read? {
      var g := f.(t := cfg.act(f.t).read(input[0]));
      if |input| > 1 {
        ExtraLazily(cfg, g, input[1..]);
      } else {
        assert input[1..] == [] && Lazy(cfg, g, []) == g;
        EmptyRest(cfg, g.t, 1);
      }
    }
  }

  lemma {:induction false} EmptyRest<S>(cfg: Config<S>, t: S, room: nat)
    ensures InflateRun(cfg, t, [], room).rest == []
    decreases room
  {
    if cfg.act(t).Emit? && room > 0 {
      EmptyRest(cfg, cfg.act(t).emitted, room - 1);
    }
  }

  /** Where a call ends, in closed form: the lazy run, and then one more call of inflate without
      input. */
  function Behind<S>(cfg: Config<S>, f: Flow<S>, input: seq<byte>): Flow<S>
    requires Formed(cfg, f)
  {
    var l := Lazy(cfg, f, input);
    if l.Open? then Judge(cfg, l, Afterwards(cfg, f, l)) else l
  }

  lemma {:induction false} LazyGrows<S>(cfg: Config<S>, f: Flow<S>, input: seq<byte>)
    requires f.Open? && Formed(cfg, f)
    ensures var l := Lazy(cfg, f, input);
      l.Open? ==> |l.lines| >= |f.lines| && (|l.lines| == |f.lines| ==> |l.partial| >= |f.partial|)
    ensures var l := Lazy(cfg, f, input);
      l.Open? && input != [] && cfg.act(f.t).Emit? ==> |l.lines| > |f.lines| || l.partial != []
    decreases |input|, |f.due|, Room(cfg, f)
  {
    if input != [] {
      match cfg.act(f.t)
      case Emit(b, next) =>
        if f.due != [] {
          LazyGrows(cfg, Advance(cfg, f, [b], next), input);
        }
      case Read(read) => LazyGrows(cfg, f.(t := read(input[0])), input[1..]);
      case _ =>
    }
  }

  /** One turn of the loop that leaves input: the closed form stays. */
  lemma TurnAhead<S>(cfg: Config<S>, f: Flow<S>, input: seq<byte>)
    requires f.Open? && Formed(cfg, f) && input != []
    ensures var r, l := InflateRun(cfg, f.t, input, Room(cfg, f)), Lazy(cfg, f, input);
      var g := Judge(cfg, f, r);
      && Formed(cfg, g)
      && (r.rest != [] && !r.ret.Bad? ==>
            if g.Open? then l == Lazy(cfg, g, r.rest) && (l.Open? ==> (Crowded(cfg, f, l) <==> Crowded(cfg, g, l)))
            else l == g)
      && (r.rest != [] && r.ret.Bad? ==> if f.due == [] then l == Ended(f.lines) || l.Broke? else l.Broke?)
  {
    Progress(cfg, f, input);
    var r := InflateRun(cfg, f.t, input, Room(cfg, f));
    if r.rest == [] {
      return;
    }
    InflateStops(cfg, f.t, input, Room(cfg, f));
    if f.due == [] {
      ExtraLazily(cfg, f, input);
      InflateExtra(cfg, f, input, 1);
      assert f.partial + [] == f.partial;
    } else {
      InflateLazily(cfg, f, input);
      InflateIsEager(cfg, f, input);
      LazyGrows(cfg, Advance(cfg, f, r.out, r.t), r.rest);
    }
  }

  /** One turn that uses up the input. */
  lemma TurnLast<S>(cfg: Config<S>, f: Flow<S>, input: seq<byte>)
    requires f.Open? && Formed(cfg, f) && input != []
    ensures var r, l := InflateRun(cfg, f.t, input, Room(cfg, f)), Lazy(cfg, f, input);
      r.rest == [] ==>
        && (l.Open? ==> Afterwards(cfg, f, l).ret == r.ret)
        && (!l.Open? ==> f.due == [] && l == Ended(f.lines))
        && (!r.ret.Bad? || f.due == [] ==> Judge(cfg, f, r) == Behind(cfg, f, input))
  {
    var r, l := InflateRun(cfg, f.t, input, Room(cfg, f)), Lazy(cfg, f, input);
    if r.rest == [] {
      if f.due == [] {
        ExtraLazily(cfg, f, input);
      } else {
        InflateLazily(cfg, f, input);
        if !r.ret.Bad? {
          LastJudgement(cfg, f, l, r);
        }
      }
    }
  }

  lemma LastJudgement<S>(cfg: Config<S>, f: Flow<S>, l: Flow<S>, r: Inflated<S>)
    requires f.Open? && f.due != [] && Formed(cfg, l) && EndsAs(cfg, f, l, r) && !r.ret.Bad?
    ensures Judge(cfg, f, r) == Judge(cfg, l, Afterwards(cfg, f, l))
  {
    hide LineSize;
    EmptyRest(cfg, l.t, Room(cfg, l));
    if Crowded(cfg, f, l) {
      assert |Afterwards(cfg, f, l).out| == 0;
    }
  }

  /** A call of png_process_IDAT_data on a stream without errors ends at the closed form. */
  lemma {:induction false} ProcessIsBehind<S>(cfg: Config<S>, f: Flow<S>, input: seq<byte>)
    requires f.Open? && Formed(cfg, f) && input != [] && !Eager(cfg, f, input).Broke?
    ensures Process(cfg, f, input) == Behind(cfg, f, input)
    decreases |input|, |f.due| + 1
  {
    hide InflateRun, Eager, Lazy, Judge;
    var r := InflateRun(cfg, f.t, input, Room(cfg, f));
    var g := Judge(cfg, f, r);
    Progress(cfg, f, input);
    TurnIsEager(cfg, f, input);
    TurnAhead(cfg, f, input);
    TurnLast(cfg, f, input);
    BadTurn(cfg, f, input);
    if g.Open? && r.rest != [] {
      ProcessIsBehind(cfg, g, r.rest);
    }
  }

  /** Without an error of the stream inflate fails only behind the last row. */
  lemma BadTurn<S>(cfg: Config<S>, f: Flow<S>, input: seq<byte>)
    requires f.Open? && Formed(cfg, f) && !Eager(cfg, f, input).Broke?
    ensures var r := InflateRun(cfg, f.t, input, Room(cfg, f));
      r.ret.Bad? ==>
        && f.due == [] && Judge(cfg, f, r) == Ended(f.lines)
        && (input != [] && r.rest != [] ==> Lazy(cfg, f, input) == Ended(f.lines))
  {
    if f.due == [] {
      InflateExtra(cfg, f, input, 1);
      if input != [] {
        ExtraLazily(cfg, f, input);
      }
    } else {
      InflateIsEager(cfg, f, input);
    }
  }

  /** Is there nothing inside the decompressor? */
  predicate Settled<S>(cfg: Config<S>, f: Flow<S>) {
    f.Open? ==> cfg.act(f.t).Read?
  }

  /** A buffer is worked off completely exactly when the closed form leaves nothing inside. */
  lemma CompleteIff<S>(cfg: Config<S>, f: Flow<S>, input: seq<byte>)
    requires f.Open? && Formed(cfg, f) && input != [] && !Eager(cfg, f, input).Broke?
    ensures Process(cfg, f, input) == Eager(cfg, f, input) <==> Settled(cfg, Behind(cfg, f, input))
  {
    ProcessIsBehind(cfg, f, input);
    ProcessIsEager(cfg, f, input);
    EagerSettles(cfg, f, input);
    if Settled(cfg, Behind(cfg, f, input)) {
      SettledStays(cfg, Process(cfg, f, input));
    }
  }

  // ---------------------------------------------------------------- independence of the cut

  /** The state in front of the last of a list of calls. */
  function BeforeLast<S>(cfg: Config<S>, f: Flow<S>, buffers: seq<seq<byte>>): (p: Flow<S>)
    requires Formed(cfg, f) && buffers != []
    ensures Formed(cfg, p)
  {
    ProcessAll(cfg, f, buffers[..|buffers| - 1])
  }

  /** The closed form for a list of calls: the lazy run depends on all the bytes alone, and of the
      calls only the rows in front of the last one matter. */
  lemma ProcessAllIsBehind<S>(cfg: Config<S>, f: Flow<S>, buffers: seq<seq<byte>>)
    requires Formed(cfg, f) && NonEmpty(buffers) && buffers != [] && !Eager(cfg, f, Concat(buffers)).Broke?
    ensures var p, last := BeforeLast(cfg, f, buffers), buffers[|buffers| - 1];
      && Lazy(cfg, p, last) == Lazy(cfg, f, Concat(buffers))
      && ProcessAll(cfg, f, buffers) == Behind(cfg, p, last)
  {
    hide Eager, Lazy;
    var n := |buffers| - 1;
    var before, last, p := Concat(buffers[..n]), buffers[n], BeforeLast(cfg, f, buffers);
    EagerAppend(cfg, f, before, last);
    EagerAbsorbs(cfg, Eager(cfg, f, before), last);
    ProcessAllIsEager(cfg, f, buffers[..n]);
    LazyAppend(cfg, f, before, last);
    LazyAppend(cfg, p, [], last);
    EagerAppend(cfg, p, [], last);
    assert [] + last == last;
    if p.Open? {
      ProcessIsBehind(cfg, p, last);
    } else {
      LazyAbsorbs(cfg, p, last);
    }
  }

  lemma EagerAbsorbs<S>(cfg: Config<S>, f: Flow<S>, input: seq<byte>)
    requires Formed(cfg, f)
    ensures !f.Open? ==> Eager(cfg, f, input) == f
  {
  }

  lemma LazyAbsorbs<S>(cfg: Config<S>, f: Flow<S>, input: seq<byte>)
    requires Formed(cfg, f)
    ensures !f.Open? ==> Lazy(cfg, f, input) == f
  {
  }

  /** Whether there is room behind the last byte matters exactly if something is emitted there. */
  lemma RoomMatters<S>(cfg: Config<S>, l: Flow<S>)
    requires l.Open? && Formed(cfg, l) && cfg.lookahead
    ensures Judge(cfg, l, InflateRun(cfg, l.t, [], 0)) == Judge(cfg, l, InflateRun(cfg, l.t, [], Room(cfg, l)))
            <==> !cfg.act(l.t).Emit?
  {
    assert l.partial + [] == l.partial;
    var r := InflateRun(cfg, l.t, [], Room(cfg, l));
    if cfg.act(l.t).Emit? {
      assert InflateRun(cfg, l.t, [], 0) == Inflated(l.t, [], [], Ok);
      assert Advance(cfg, l, [], l.t) == l;
      assert r.out != [];
    }
  }

  /** Exactly when two cuts of the same stream leave different states: when something is emitted
      behind the last byte, and in one of them the last call has also completed the row in
      front of that byte, with inflate reading on. */
  lemma CutsAgreeIff<S>(cfg: Config<S>, f: Flow<S>, a: seq<seq<byte>>, b: seq<seq<byte>>)
    requires Formed(cfg, f) && NonEmpty(a) && NonEmpty(b) && a != [] && b != [] && Concat(a) == Concat(b)
    requires !Eager(cfg, f, Concat(a)).Broke?
    ensures var l := Lazy(cfg, f, Concat(a));
      ProcessAll(cfg, f, a) == ProcessAll(cfg, f, b) <==>
        !(&& l.Open? && cfg.act(l.t).Emit?
          && Crowded(cfg, BeforeLast(cfg, f, a), l) != Crowded(cfg, BeforeLast(cfg, f, b), l))
  {
    hide Eager, Lazy, ProcessAll, BeforeLast, Judge, InflateRun;
    ProcessAllIsBehind(cfg, f, a);
    ProcessAllIsBehind(cfg, f, b);
    var l := Lazy(cfg, f, Concat(a));
    if l.Open? && cfg.lookahead {
      RoomMatters(cfg, l);
    }
  }

  /** An inflate that stops reading with its output full makes every cut equal. */
  lemma NoLookahead<S>(cfg: Config<S>, f: Flow<S>, a: seq<seq<byte>>, b: seq<seq<byte>>)
    requires Formed(cfg, f) && NonEmpty(a) && NonEmpty(b) && a != [] && b != [] && Concat(a) == Concat(b)
    requires !Eager(cfg, f, Concat(a)).Broke? && !cfg.lookahead
    ensures ProcessAll(cfg, f, a) == ProcessAll(cfg, f, b)
  {
    CutsAgreeIff(cfg, f, a, b);
  }

  lemma {:induction false} ProcessGrows<S>(cfg: Config<S>, f: Flow<S>, input: seq<byte>)
    requires Formed(cfg, f)
    ensures |Process(cfg, f, input).lines| >= |f.lines|
    decreases |input|, if f.Open? then |f.due| + 1 else 0
  {
    if input != [] && f.Open? {
      var r := InflateRun(cfg, f.t, input, Room(cfg, f));
      Progress(cfg, f, input);
      ProcessGrows(cfg, Judge(cfg, f, r), r.rest);
    }
  }

  /** The same for one buffer cut in two. */
  lemma OneCutIff<S>(cfg: Config<S>, f: Flow<S>, a: seq<byte>, b: seq<byte>)
    requires f.Open? && Formed(cfg, f) && a != [] && b != [] && !Eager(cfg, f, a + b).Broke?
    ensures var p, l := Process(cfg, f, a), Lazy(cfg, f, a + b);
      && Formed(cfg, p)
      && (Process(cfg, p, b) != Process(cfg, f, a + b) <==>
            && cfg.lookahead && p.Open? && l.Open? && l.partial == []
            && |f.lines| < |l.lines| == |p.lines| && cfg.act(l.t).Emit?)
  {
    hide Eager, Lazy, Judge, InflateRun;
    ProcessTwo(cfg, f, a, b);
    ProcessOne(cfg, f, a);
    ProcessOne(cfg, f, a + b);
    ConcatTwo(a, b);
    var p, l := Process(cfg, f, a), Lazy(cfg, f, a + b);
    CutsAgreeIff(cfg, f, [a, b], [a + b]);
    ProcessAllIsBehind(cfg, f, [a, b]);
    assert [a, b][..1] == [a] && [a + b][..0] == [];
    ProcessGrows(cfg, f, a);
    if p.Open? {
      LazyGrows(cfg, p, b);
    } else {
      LazyAbsorbs(cfg, p, b);
    }
  }

  lemma ConcatTwo(a: seq<byte>, b: seq<byte>)
    ensures Concat([a, b]) == a + b && Concat([a + b]) == a + b
  {
    var two := [a, b];
    assert two[..|two| - 1] == [a] && two[|two| - 1] == b;
    ConcatOne(a);
    ConcatOne(a + b);
  }

  lemma ConcatOne(a: seq<byte>)
    ensures Concat([a]) == a
  {
    var one := [a];
    assert one[..|one| - 1] == [] && one[|one| - 1] == a;
    var nothing: seq<byte> := [];
    assert Concat([]) == nothing && nothing + a == a;
  }

  /** A list of buffers is worked off completely exactly when its closed form leaves nothing
      inside the decompressor. */
  lemma CutIndependent<S>(cfg: Config<S>, f: Flow<S>, buffers: seq<seq<byte>>)
    requires Formed(cfg, f) && NonEmpty(buffers) && buffers != [] && !Eager(cfg, f, Concat(buffers)).Broke?
    ensures ProcessAll(cfg, f, buffers) == Eager(cfg, f, Concat(buffers)) <==>
              Settled(cfg, Behind(cfg, BeforeLast(cfg, f, buffers), buffers[|buffers| - 1]))
  {
    hide Eager, Lazy, Behind;
    ProcessAllIsBehind(cfg, f, buffers);
    ProcessAllIsEager(cfg, f, buffers);
    EagerSettles(cfg, f, Concat(buffers));
    if Settled(cfg, ProcessAll(cfg, f, buffers)) {
      SettledStays(cfg, ProcessAll(cfg, f, buffers));
    }
  }

  /** Nothing is emitted behind the last byte, as with a stream that ends in a checksum. */
  predicate Quiet<S>(cfg: Config<S>, f: Flow<S>, input: seq<byte>)
    requires Formed(cfg, f)
  {
    var l := Lazy(cfg, f, input);
    l.Open? ==> cfg.act(l.t).Read? || cfg.act(l.t).End?
  }

  /** Then every cut works the stream off completely. */
  lemma QuietIsComplete<S>(cfg: Config<S>, f: Flow<S>, buffers: seq<seq<byte>>)
    requires Formed(cfg, f) && NonEmpty(buffers) && buffers != [] && !Eager(cfg, f, Concat(buffers)).Broke?
    requires Quiet(cfg, f, Concat(buffers))
    ensures ProcessAll(cfg, f, buffers) == Eager(cfg, f, Concat(buffers))
  {
    CutIndependent(cfg, f, buffers);
    ProcessAllIsBehind(cfg, f, buffers);
    var l := Lazy(cfg, f, Concat(buffers));
    if l.Open? {
      assert l.partial + [] == l.partial;
      var r := Afterwards(cfg, BeforeLast(cfg, f, buffers), l);
      assert r.t == l.t && r.out == [];
      NotFull(cfg, l, r);
    }
  }

  lemma SettledStays<S>(cfg: Config<S>, f: Flow<S>)
    requires Formed(cfg, f) && Settled(cfg, f)
    ensures Eager(cfg, f, []) == f
  {
  }

  // ---------------------------------------------------------------- streams with errors

  /** Rows are only ever added, and without a new row the unfinished one only grows. */
  lemma {:induction false} EagerGrows<S>(cfg: Config<S>, f: Flow<S>, input: seq<byte>)
    requires f.Open? && Formed(cfg, f) && Eager(cfg, f, input).Broke?
    ensures var g := Eager(cfg, f, input);
      |g.lines| >= |f.lines| && (|g.lines| == |f.lines| ==> |g.partial| >= |f.partial|)
    decreases |input|, |f.due|, Room(cfg, f)
  {
    match cfg.act(f.t)
    case Emit(b, next) => EagerGrows(cfg, Advance(cfg, f, [b], next), input);
    case Read(read) => EagerGrows(cfg, f.(t := read(input[0])), input[1..]);
    case Broken(_) =>
  }

  /** Does this call drop a complete row? It does if inflate fills the row and meets the error in
      one go, because the test for the error comes first. */
  predicate LosesRow<S>(cfg: Config<S>, f: Flow<S>, broke: Flow<S>)
    requires broke.Broke?
  {
    cfg.lookahead && broke.partial == [] && |broke.lines| > |f.lines|
  }

  /** What a call that meets an error leaves: all rows of the eager run, or all but the last. */
  ghost predicate Survives<S>(cfg: Config<S>, f: Flow<S>, broke: Flow<S>, g: Flow<S>)
    requires broke.Broke?
  {
    var lost := LosesRow(cfg, f, broke);
    && !g.Open? && !g.Broke?
    && (lost ==> broke.lines != [])
    && g.lines == (if lost then broke.lines[..|broke.lines| - 1] else broke.lines)
    && (g.Aborted? <==> !broke.data && (lost || broke.due != []))
  }

  /** How inflate stops when it does not stop for good. */
  lemma {:induction false} InflateStops<S>(cfg: Config<S>, t: S, input: seq<byte>, room: nat)
    ensures var r := InflateRun(cfg, t, input, room);
      && (r.ret == Ok && |r.out| == room && cfg.lookahead ==> cfg.act(r.t).Emit? || (cfg.act(r.t).Read? && r.rest == []))
      && (r.ret == Ok && |r.out| < room ==> r.rest == [])
      && (r.ret.Bad? && |r.out| == room > 0 ==> cfg.lookahead)
    decreases |input| + room
  {
    if room > 0 || cfg.lookahead {
      match cfg.act(t)
      case Emit(_, next) =>
        if room > 0 {
          InflateStops(cfg, next, input, room - 1);
        }
      case Read(read) =>
        if input != [] {
          InflateStops(cfg, read(input[0]), input[1..], room);
        }
      case _ =>
    }
  }

  /** The turn in which the error is met. */
  lemma BrokenTurn<S>(cfg: Config<S>, f: Flow<S>, input: seq<byte>)
    requires f.Open? && Formed(cfg, f) && Eager(cfg, f, input).Broke?
    ensures var r := InflateRun(cfg, f.t, input, Room(cfg, f));
      var g, broke := Judge(cfg, f, r), Eager(cfg, f, input);
      && Formed(cfg, g)
      && (r.ret.Bad? ==> Survives(cfg, f, broke, g))
      && (!r.ret.Bad? ==> g.Open? && Eager(cfg, g, r.rest) == broke)
      && (!r.ret.Bad? && r.rest != [] ==> (LosesRow(cfg, f, broke) <==> LosesRow(cfg, g, broke)))
  {
    var r := InflateRun(cfg, f.t, input, Room(cfg, f));
    InflateStops(cfg, f.t, input, Room(cfg, f));
    assert f.partial + [] == f.partial;
    if f.due == [] {
      InflateExtra(cfg, f, input, 1);
    } else {
      InflateIsEager(cfg, f, input);
      var g := Advance(cfg, f, r.out, r.t);
      if r.ret == Ok && r.rest != [] {
        EagerGrows(cfg, g, r.rest);
        if cfg.lookahead {
          EmitGrows(cfg, g, r.rest);
        }
      }
    }
  }

  /** An emitted byte ends up in a row or in the unfinished one. */
  lemma EmitGrows<S>(cfg: Config<S>, f: Flow<S>, input: seq<byte>)
    requires f.Open? && Formed(cfg, f) && cfg.act(f.t).Emit? && Eager(cfg, f, input).Broke?
    ensures var g := Eager(cfg, f, input);
      |g.lines| > |f.lines| || g.partial != []
  {
    EagerGrows(cfg, Advance(cfg, f, [cfg.act(f.t).b], cfg.act(f.t).emitted), input);
  }

  /** Exactly when a call loses a row: when the stream breaks at a row boundary that the same
      call has reached. Otherwise nothing is lost, or the error has not been met yet. */
  lemma {:induction false} BrokenStream<S>(cfg: Config<S>, f: Flow<S>, input: seq<byte>)
    requires f.Open? && Formed(cfg, f) && Eager(cfg, f, input).Broke?
    ensures var g, broke, l := Process(cfg, f, input), Eager(cfg, f, input), Lazy(cfg, f, input);
      && Formed(cfg, g)
      && (g.Open? <==> input == [] || (l.Open? && !Afterwards(cfg, f, l).ret.Bad?))
      && (if g.Open? then Eager(cfg, g, []) == broke else Survives(cfg, f, broke, g))
    decreases |input|, |f.due| + 1
  {
    hide InflateRun, Judge, LosesRow;
    ProcessKeepsForm(cfg, f, input);
    if input != [] {
      var r := InflateRun(cfg, f.t, input, Room(cfg, f));
      Progress(cfg, f, input);
      BrokenTurn(cfg, f, input);
      TurnAhead(cfg, f, input);
      TurnLast(cfg, f, input);
      if !r.ret.Bad? {
        BrokenStream(cfg, Judge(cfg, f, r), r.rest);
      }
    }
  }

  /** Two bytes for one row, then an error. */
  function BreaksBehindRow(t: int): Action<int> {
    match t
    case 0 => Read(_ => 1)
    case 1 => Emit(0, 2)
    case 2 => Emit(9, 3)
    case 3 => Read(_ => 4)
    case _ => Broken(true)
  }

  /** Two rows, one for each byte of input. */
  function TwoRows(t: int): Action<int> {
    match t
    case 0 => Read(_ => 1)
    case 1 => Emit(0, 2)
    case 2 => Emit(9, 3)
    case 3 => Read(_ => 4)
    case 4 => Emit(0, 5)
    case 5 => Emit(9, 6)
    case _ => Read(_ => 7)
  }

  /** An image of one 8-bit column. */
  function OneColumn(act: int -> Action<int>): Config<int> {
    Config(act, true, 8, Plain, 1)
  }

  /** The cut matters for a stream with an error: in one buffer the row is lost, in two it is
      delivered. */
  lemma RowLost()
    ensures var cfg, f := OneColumn(BreaksBehindRow), Open(0, [], [Spot(0, 0)], []);
      && Formed(cfg, f)
      && ProcessAll(cfg, f, [[5, 6]]) == Ended([])
      && ProcessAll(cfg, f, [[5], [6]]) == Ended([Line(Spot(0, 0), [0, 9])])
  {
    var cfg, f := OneColumn(BreaksBehindRow), Open(0, [], [Spot(0, 0)], []);
    assert LineSize(cfg, Spot(0, 0)) == 2 && f.due[1..] == [];
    var row: seq<byte> := [0, 9];
    var empty: seq<byte>, none: seq<Line> := [], [];
    assert empty + row == row && forall x: Line :: none + [x] == [x];
    var both: seq<byte>, five: seq<byte>, six: seq<byte> := [5, 6], [5], [6];
    assert both[1..] == six && six[1..] == [] && five[1..] == [];
    assert InflateRun(cfg, 0, both, 2) == Inflated(4, [0, 9], [], Bad(true));
    OneTurn(cfg, f, both);
    assert Process(cfg, f, both) == Ended([]);
    ProcessOne(cfg, f, both);
    var g := Open(3, [], [], [Line(Spot(0, 0), [0, 9])]);
    assert InflateRun(cfg, 0, five, 2) == Inflated(3, [0, 9], [], Ok);
    OneTurn(cfg, f, five);
    assert Process(cfg, f, five) == g;
    assert InflateRun(cfg, 3, six, 1) == Inflated(4, [], [], Bad(true));
    OneTurn(cfg, g, six);
    assert Process(cfg, g, six) == Ended(g.lines);
    ProcessTwo(cfg, f, five, six);
  }

  /** ... and for a stream that stops with output pending: in one buffer the second row stays
      inside inflate until more input comes. */
  lemma RowDelayed()
    ensures var cfg, f := OneColumn(TwoRows), Open(0, [], [Spot(0, 0), Spot(0, 1)], []);
      && Formed(cfg, f)
      && |ProcessAll(cfg, f, [[5, 6]]).lines| == 1
      && |ProcessAll(cfg, f, [[5], [6]]).lines| == 2
  {
    var cfg, f := OneColumn(TwoRows), Open(0, [], [Spot(0, 0), Spot(0, 1)], []);
    assert LineSize(cfg, Spot(0, 0)) == 2 && LineSize(cfg, Spot(0, 1)) == 2;
    assert f.due[1..] == [Spot(0, 1)] && [Spot(0, 1)][1..] == [];
    var row: seq<byte> := [0, 9];
    var empty: seq<byte>, none: seq<Line> := [], [];
    assert empty + row == row && forall x: Line :: none + [x] == [x];
    var both: seq<byte>, five: seq<byte>, six: seq<byte> := [5, 6], [5], [6];
    assert both[1..] == six && six[1..] == [] && five[1..] == [];
    var rows := [Line(Spot(0, 0), [0, 9])];
    assert InflateRun(cfg, 0, both, 2) == Inflated(4, [0, 9], [], Ok);
    OneTurn(cfg, f, both);
    assert Process(cfg, f, both) == Open(4, [], [Spot(0, 1)], rows);
    ProcessOne(cfg, f, both);
    var g := Open(3, [], [Spot(0, 1)], rows);
    assert InflateRun(cfg, 0, five, 2) == Inflated(3, [0, 9], [], Ok);
    OneTurn(cfg, f, five);
    assert Process(cfg, f, five) == g;
    assert InflateRun(cfg, 3, six, 2) == Inflated(6, [0, 9], [], Ok);
    OneTurn(cfg, g, six);
    assert Process(cfg, g, six) == Open(6, [], [], rows + [Line(Spot(0, 1), [0, 9])]);
    ProcessTwo(cfg, f, five, six);
  }

  /** A call that uses up its input in one turn. */
  lemma OneTurn<S>(cfg: Config<S>, f: Flow<S>, input: seq<byte>)
    requires f.Open? && Formed(cfg, f) && input != []
    requires InflateRun(cfg, f.t, input, Room(cfg, f)).rest == []
    ensures Process(cfg, f, input) == Judge(cfg, f, InflateRun(cfg, f.t, input, Room(cfg, f)))
  {
    Progress(cfg, f, input);
  }

  lemma ProcessOne<S>(cfg: Config<S>, f: Flow<S>, a: seq<byte>)
    requires Formed(cfg, f)
    ensures ProcessAll(cfg, f, [a]) == Process(cfg, f, a)
  {
    assert [a][..0] == [];
  }

  lemma ProcessTwo<S>(cfg: Config<S>, f: Flow<S>, a: seq<byte>, b: seq<byte>)
    requires Formed(cfg, f)
    ensures Formed(cfg, Process(cfg, f, a))
    ensures ProcessAll(cfg, f, [a, b]) == Process(cfg, Process(cfg, f, a), b)
  {
    ProcessKeepsForm(cfg, f, a);
    ProcessOne(cfg, f, a);
    assert [a, b][..1] == [a];
  }

  // ---------------------------------------------------------------- below the chunk framer

  /** One byte of IDAT data for the framer; None is the png_error. */
  function InflateByte<S>(cfg: Config<S>, f: Flow<S>, b: byte): Option<Flow<S>> {
    if !Formed(cfg, f) then None
    else
      var g := Eager(cfg, f, [b]);
      if g.Broke? && g.due != [] && !g.data then None else Some(g)
  }

  /** A framer whose image data goes to the rows. */
  function RowDecoder<S>(cfg: Config<S>, dec: Decoder<Flow<S>>): Decoder<Flow<S>> {
    dec.(inflate := (f: Flow<S>, b: byte) => InflateByte(cfg, f, b), ended := (f: Flow<S>) => !f.Open?)
  }

  lemma {:induction false} FoldIsEager<S>(cfg: Config<S>, dec: Decoder<Flow<S>>, f: Flow<S>, bytes: seq<byte>)
    requires Formed(cfg, f) && Settled(cfg, f) && !Eager(cfg, f, bytes).Broke?
    ensures InflateAll(RowDecoder(cfg, dec), f, bytes) == Some(Eager(cfg, f, bytes))
    decreases |bytes|
  {
    if bytes == [] {
      SettledStays(cfg, f);
    } else {
      var b, rest := bytes[0], bytes[1..];
      assert bytes == [b] + rest;
      EagerAppend(cfg, f, [b], rest);
      EagerSettles(cfg, f, [b]);
      FoldIsEager(cfg, dec, Eager(cfg, f, [b]), rest);
    }
  }

  lemma {:induction false} EagerSettles<S>(cfg: Config<S>, f: Flow<S>, input: seq<byte>)
    requires Formed(cfg, f)
    ensures Settled(cfg, Eager(cfg, f, input))
    decreases |input|, if f.Open? then |f.due| else 0, if f.Open? then Room(cfg, f) else 0
  {
    if f.Open? {
      match cfg.act(f.t)
      case Emit(b, next) =>
        if f.due != [] {
          EagerSettles(cfg, Advance(cfg, f, [b], next), input);
        }
      case Read(read) =>
        if input != [] {
          EagerSettles(cfg, f.(t := read(input[0])), input[1..]);
        }
      case _ =>
    }
  }

  /** The byte-wise fold the framer is proved with is what png_process_IDAT_data does on a list of
      buffers, exactly when nothing is left inside the decompressor. */
  lemma FoldIsProcess<S>(cfg: Config<S>, dec: Decoder<Flow<S>>, f: Flow<S>, buffers: seq<seq<byte>>)
    requires Formed(cfg, f) && Settled(cfg, f) && NonEmpty(buffers) && buffers != []
    requires !Eager(cfg, f, Concat(buffers)).Broke?
    ensures InflateAll(RowDecoder(cfg, dec), f, Concat(buffers)) == Some(ProcessAll(cfg, f, buffers)) <==>
              Settled(cfg, Behind(cfg, BeforeLast(cfg, f, buffers), buffers[|buffers| - 1]))
  {
    FoldIsEager(cfg, dec, f, Concat(buffers));
    CutIndependent(cfg, f, buffers);
  }

  /** From the chunks of a file to its rows: after any IDAT chunks with good CRCs the rows
      handed on are the segments of the output for the data of all of them. */
  lemma ChunksToRows<S>(cfg: Config<S>, dec: Decoder<Flow<S>>, core: Core<Flow<S>>, cs: seq<Chunk>)
    requires core.mode == ReadIDAT && IntactIDAT(RowDecoder(cfg, dec), cs)
    requires core.d.Open? && Formed(cfg, core.d) && Settled(cfg, core.d)
    requires !Eager(cfg, core.d, DataOf(cs)).Broke?
    ensures ImageSize(cfg, core.d.due) >= |core.d.partial|
    ensures var s := Effects(RowDecoder(cfg, dec), Running(core, []), cs);
      var out := InflateRun(cfg, core.d.t, DataOf(cs), ImageSize(cfg, core.d.due) - |core.d.partial|).out;
      s.Running? && s.core.d.lines == core.d.lines + Cut(cfg, core.d.due, core.d.partial + out)
  {
    hide Effects, InflateAll, Eager, InflateRun, Cut, ImageSize, RowDecoder;
    ImageDataInOnePiece(RowDecoder(cfg, dec), core, cs);
    FoldIsEager(cfg, dec, core.d, DataOf(cs));
    RowsAreSegments(cfg, core.d, DataOf(cs));
  }

  /** The whole way of a file: cut into buffers in any way, it is read chunk by chunk; the framer
      hands the IDAT data on in non-empty buffers, which png_process_IDAT_data cuts into rows in
      turn. Together with what is still inside inflate, the rows are the segments of the output
      for the data of all IDAT chunks. The calls for the rows follow the framer here, because
      nothing else touches the rows. */
  method ReadRows<D, S>(dec: Decoder<D>, d: D, sigBytes: nat, buffers: seq<seq<byte>>, ghost cs: seq<Chunk>,
                        rows: IdatRows<S>)
    returns (exhausted: bool, ghost outcome: Spec<D>, handed: seq<seq<byte>>)
    requires sigBytes <= 8 && forall c :: c in cs ==> PushChunks.WellFormed(c)
    requires Concat(buffers) == SIGNATURE[sigBytes..] + EncodeAll(cs)
    requires rows.Valid() && rows.View().Open?
    modifies rows, rows.rows
    ensures rows.Valid()
    ensures !exhausted ==> outcome == FileEffect(dec, InitialCore(d, sigBytes), cs)
    ensures !exhausted && outcome.Running? ==>
              && NonEmpty(handed) && Concat(handed) == IdatOf(cs)
              && rows.View() == ProcessAll(rows.cfg, old(rows.View()), handed)
    ensures !exhausted && outcome.Running? && !Eager(rows.cfg, old(rows.View()), IdatOf(cs)).Broke? ==>
              Delivered(rows.cfg, old(rows.View()), rows.View(), IdatOf(cs))
    ensures old(rows.lines) == [] && IsDepth(rows.cfg.depth) ==> PixelRows(rows.cfg, rows.lines)
  {
    hide Eager, ProcessAll, Delivered, FileEffect, IdatOf, PixelRows;
    ghost var f, data := rows.View(), IdatOf(cs);
    var failed;
    exhausted, failed, outcome, handed := HandOver(dec, d, sigBytes, buffers, cs);
    NoPixelRows(rows.cfg);
    if !failed {
      if rows.lines == [] && IsDepth(rows.cfg.depth) {
        RowsHoldPixels(rows.cfg, f, handed);
      }
      DriveRows(handed, rows);
      if !exhausted && !Eager(rows.cfg, f, data).Broke? {
        RowsDelivered(rows.cfg, f, handed);
      }
    }
  }

  /** The framer's part: the buffers it hands on. */
  method HandOver<D>(dec: Decoder<D>, d: D, sigBytes: nat, buffers: seq<seq<byte>>, ghost cs: seq<Chunk>)
    returns (exhausted: bool, failed: bool, ghost outcome: Spec<D>, handed: seq<seq<byte>>)
    requires sigBytes <= 8 && forall c :: c in cs ==> PushChunks.WellFormed(c)
    requires Concat(buffers) == SIGNATURE[sigBytes..] + EncodeAll(cs)
    ensures !exhausted ==> outcome == FileEffect(dec, InitialCore(d, sigBytes), cs)
    ensures failed <==> outcome.Failed?
    ensures !exhausted && !failed ==> NonEmpty(handed) && Concat(handed) == IdatOf(cs)
  {
    hide FileEffect, IdatOf, Feed;
    var r := ReadFile(dec, d, sigBytes, buffers, cs);
    exhausted, failed, outcome, handed := r.exhausted, r.failed, r.View(), r.handed;
  }

  /** png_process_IDAT_data on one buffer after the other */
  method DriveRows<S>(buffers: seq<seq<byte>>, rows: IdatRows<S>)
    requires rows.Valid()
    modifies rows, rows.rows
    ensures rows.Valid() && rows.View() == ProcessAll(rows.cfg, old(rows.View()), buffers)
  {
    hide Process;
    ghost var f := rows.View();
    var i := 0;
    while i < |buffers|
      invariant i <= |buffers| && rows.Valid() && rows.View() == ProcessAll(rows.cfg, f, buffers[..i])
    {
      rows.ProcessIdatData(buffers[i]);
      assert buffers[..i + 1][..i] == buffers[..i];
      i := i + 1;
    }
    assert buffers[..i] == buffers;
  }

  /** The rows of g and those still inside the decompressor are the segments of the output. */
  ghost predicate Delivered<S>(cfg: Config<S>, f: Flow<S>, g: Flow<S>, data: seq<byte>)
    requires f.Open? && Formed(cfg, f) && Formed(cfg, g)
  {
    && ImageSize(cfg, f.due) >= |f.partial|
    && var out := InflateRun(cfg, f.t, data, ImageSize(cfg, f.due) - |f.partial|).out;
    && Eager(cfg, g, []).lines == f.lines + Cut(cfg, f.due, f.partial + out)
    && (Settled(cfg, g) ==> g.lines == f.lines + Cut(cfg, f.due, f.partial + out))
  }

  lemma RowsDelivered<S>(cfg: Config<S>, f: Flow<S>, buffers: seq<seq<byte>>)
    requires f.Open? && Formed(cfg, f) && !Eager(cfg, f, Concat(buffers)).Broke?
    ensures Delivered(cfg, f, ProcessAll(cfg, f, buffers), Concat(buffers))
  {
    ProcessAllIsEager(cfg, f, buffers);
    RowsAreSegments(cfg, f, Concat(buffers));
    if Settled(cfg, ProcessAll(cfg, f, buffers)) {
      SettledStays(cfg, ProcessAll(cfg, f, buffers));
    }
  }
}
