/** The push reader of pngpread.c: a two-part byte buffer (bytes saved from earlier
    calls, then the caller's current buffer) and the re-entrant chunk framer on
    top of it, proved to do what the byte-at-a-time machine does. */
module PushReader {
  import opened Arithmetic
  import opened PushSpec

  const SIZE_MAX: nat := 0xffff_ffff_ffff_ffff

  class Reader<D> {
    const dec: Decoder<D>
    var core: Core<D>
    var failed: bool          // a png_error has been raised
    var exhausted: bool       // ... by the size check in png_push_save_buffer
    var saveBuffer: array<byte>
    var savePtr: nat
    var saveSize: nat
    var current: seq<byte>
    var currentPtr: nat
    var currentSize: nat
    var bufferSize: nat
    var handed: seq<seq<byte>>  // the buffers png_process_IDAT_data has been called with
    ghost var start: Spec<D>
    ghost var fed: seq<byte>       // everything passed to png_process_data
    ghost var consumed: seq<byte>  // what the framer has taken out of the buffer

    // -------------------------------------------------------------- the buffer

    ghost predicate Bounds()
      reads this`saveBuffer, this`savePtr, this`saveSize, this`current, this`currentPtr, this`currentSize
    {
      savePtr + saveSize <= saveBuffer.Length && currentPtr + currentSize <= |current|
    }

    ghost function Saved(): (bytes: seq<byte>)
      requires Bounds()
      ensures |bytes| == saveSize
      reads this`saveBuffer, this`savePtr, this`saveSize, this`current, this`currentPtr, this`currentSize,
            saveBuffer
    {
      saveBuffer[savePtr..savePtr + saveSize]
    }

    ghost function Current(): (bytes: seq<byte>)
      requires Bounds()
      ensures |bytes| == currentSize
      reads this`saveBuffer, this`savePtr, this`saveSize, this`current, this`currentPtr, this`currentSize,
            saveBuffer
    {
      current[currentPtr..currentPtr + currentSize]
    }

    /** The FIFO that the two parts stand for. */
    ghost function Pending(): seq<byte>
      requires Bounds()
      reads this`saveBuffer, this`savePtr, this`saveSize, this`current, this`currentPtr, this`currentSize,
            saveBuffer
    {
      Saved() + Current()
    }

    /** png_push_restore_buffer */
    method RestoreBuffer(buffer: seq<byte>)
      requires Bounds()
      modifies this`current, this`currentPtr, this`currentSize, this`bufferSize
      ensures Bounds() && Saved() == old(Saved()) && Current() == buffer
      ensures bufferSize == saveSize + currentSize && currentSize == |buffer|
    {
      current := buffer;
      currentSize := |buffer|;
      bufferSize := |buffer| + saveSize;
      currentPtr := 0;
    }

    /** The first n saved bytes. */
    method TakeSaved(n: nat) returns (out: seq<byte>)
      requires Bounds() && bufferSize == saveSize + currentSize && n <= saveSize
      modifies this`savePtr, this`saveSize, this`bufferSize, this`consumed
      ensures Bounds() && bufferSize == saveSize + currentSize && saveSize == old(saveSize) - n
      ensures out + Saved() == old(Saved()) && Current() == old(Current())
      ensures |out| == n && consumed == old(consumed) + out
    {
      out := saveBuffer[savePtr..savePtr + n];
      bufferSize := bufferSize - n;
      saveSize := saveSize - n;
      savePtr := savePtr + n;
      consumed := consumed + out;
    }

    /** The first n bytes of the current buffer. */
    method TakeCurrent(n: nat) returns (out: seq<byte>)
      requires Bounds() && bufferSize == saveSize + currentSize && n <= currentSize
      modifies this`currentPtr, this`currentSize, this`bufferSize, this`consumed
      ensures Bounds() && bufferSize == saveSize + currentSize && currentSize == old(currentSize) - n
      ensures out + Current() == old(Current()) && Saved() == old(Saved())
      ensures |out| == n && consumed == old(consumed) + out
    {
      out := current[currentPtr..currentPtr + n];
      bufferSize := bufferSize - n;
      currentSize := currentSize - n;
      currentPtr := currentPtr + n;
      consumed := consumed + out;
    }

    /** png_push_fill_buffer: takes the next bytes, as far as there are any, from
        the saved part first. */
    method FillBuffer(length: nat) returns (out: seq<byte>)
      requires Bounds() && bufferSize == saveSize + currentSize
      modifies this`savePtr, this`saveSize, this`currentPtr, this`currentSize, this`bufferSize, this`consumed
      ensures Bounds() && bufferSize == saveSize + currentSize
      ensures out + Pending() == old(Pending()) && consumed == old(consumed) + out
      ensures |out| == if length < old(bufferSize) then length else old(bufferSize)
      ensures |Pending()| == bufferSize == old(bufferSize) - |out|
      ensures saveSize <= old(saveSize) && currentSize <= old(currentSize)
    {
      hide Saved, Current;
      out := [];
      var left := length;
      if saveSize != 0 {
        out := TakeSaved(if left < saveSize then left else saveSize);
        left := left - |out|;
      }
      assert out + Saved() == old(Saved()) && consumed == old(consumed) + out;
      if left != 0 && currentSize != 0 {
        assert Saved() == [];
        var more := TakeCurrent(if left < currentSize then left else currentSize);
        assert (out + more) + Pending() == out + (more + Current());
        out := out + more;
      } else {
        assert out + Pending() == (out + Saved()) + Current();
      }
    }

    /** The in-place move of the saved bytes to the front of the save buffer. */
    method MoveDown()
      requires Bounds()
      modifies saveBuffer, this`savePtr
      ensures Bounds() && savePtr == 0 && Saved() == old(Saved())
    {
      ghost var saved := Saved();
      if saveSize != 0 && savePtr != 0 {
        var i := 0;
        while i < saveSize
          invariant i <= saveSize && savePtr == old(savePtr)
          invariant forall k :: 0 <= k < i ==> saveBuffer[k] == saved[k]
          invariant forall k :: i <= k < saveSize ==> saveBuffer[savePtr + k] == saved[k]
        {
          saveBuffer[i] := saveBuffer[savePtr + i];
          i := i + 1;
        }
      }
      savePtr := 0;
      assert Saved() == saved;
    }

    /** The growth of the save buffer: a larger one with the same contents. */
    method Grow(newMax: nat)
      requires Bounds() && savePtr == 0 && saveSize <= newMax
      modifies this`saveBuffer
      ensures Bounds() && fresh(saveBuffer) && saveBuffer.Length == newMax
      ensures Saved() == old(Saved())
    {
      var fill: byte := 0;
      var bigger := new byte[newMax](_ => fill);
      forall k | 0 <= k < saveSize {
        bigger[k] := saveBuffer[k];
      }
      ghost var saved := Saved();
      saveBuffer := bigger;
      assert Saved() == saved;
    }

    /** png_push_save_buffer: all pending bytes end up in the save buffer, in order,
        which grows when they do not fit. */
    method SaveBuffer()
      requires Bounds() && !failed && !exhausted
      modifies this`saveBuffer, this`savePtr, this`saveSize, this`currentSize, this`bufferSize,
               this`failed, this`exhausted, saveBuffer
      ensures Bounds() && (saveBuffer == old(saveBuffer) || fresh(saveBuffer))
      ensures failed == exhausted
      ensures exhausted <==> old(saveSize) + old(currentSize) > old(saveBuffer.Length)
                             && old(saveSize) + old(currentSize) + 256 > SIZE_MAX
      ensures exhausted ==> saveSize == old(saveSize) && currentSize == old(currentSize)
      ensures !failed ==>
                && Saved() == old(Pending()) && savePtr == 0 && currentSize == 0 && bufferSize == 0
                && saveBuffer.Length >= old(saveBuffer.Length)
    {
      MoveDown();
      if saveSize + currentSize > saveBuffer.Length {
        if currentSize + 256 > SIZE_MAX || saveSize > SIZE_MAX - (currentSize + 256) {
          failed, exhausted := true, true;
          return;
        }
        Grow(saveSize + currentSize + 256);
      }
      Append();
      bufferSize := 0;
    }

    /** The copy of the current bytes behind the saved ones. */
    method Append()
      requires Bounds() && savePtr == 0 && saveSize + currentSize <= saveBuffer.Length
      modifies this`saveSize, this`currentSize, saveBuffer
      ensures Bounds() && currentSize == 0 && Saved() == old(Pending())
    {
      ghost var pending := Pending();
      forall k | 0 <= k < currentSize {
        saveBuffer[saveSize + k] := current[currentPtr + k];
      }
      saveSize := saveSize + currentSize;
      currentSize := 0;
      assert Saved() == pending;
    }

    // -------------------------------------------------------------- the framer

    predicate Active()
      reads this
    {
      !failed && core.mode != ReadDone
    }

    /** What the reader has become is what the byte-at-a-time machine becomes on
        everything fed so far; nothing is lost, repeated or reordered. */
    ghost predicate Linked()
      reads this, saveBuffer
      requires Bounds()
    {
      if failed then exhausted || Feed(dec, start, fed) == Failed
      else if core.mode == ReadDone then Feed(dec, start, fed) == Running(core, []) && Handed()
      else
        && Handed()
        && Feed(dec, Running(core, []), Pending()) == Feed(dec, start, fed)
        && consumed + Pending() == fed
        && Sane(core)
    }

    /** The buffers handed on are not empty, and together they are the IDAT data. */
    ghost predicate Handed()
      reads this
    {
      NonEmpty(handed) && Concat(handed) == core.idat
    }

    /** All pending bytes are saved, and too few to do anything with. */
    ghost predicate Rested()
      reads this, saveBuffer
    {
      bufferSize == 0 && currentSize == 0 && saveSize < Need(core)
    }

    /** The invariant of the loop in png_process_data. */
    ghost predicate Looping()
      reads this, saveBuffer
    {
      && Bounds() && Linked()
      && (exhausted ==> failed)
      && (Active() ==> bufferSize == saveSize + currentSize || Rested())
    }

    /** Between two calls of png_process_data. */
    ghost predicate Valid()
      reads this, saveBuffer
    {
      Looping() && (Active() ==> Rested())
    }

    /** The state an observer sees between two calls. */
    ghost function View(): Spec<D>
      requires Valid()
      reads this, saveBuffer
    {
      if failed then Failed
      else if core.mode == ReadDone then Running(core, [])
      else Running(core, Saved())
    }

    /** One step: the loop invariant is kept and the byte count goes down. */
    twostate predicate Stepped()
      reads this, saveBuffer
    {
      && Looping()
      && (saveBuffer == old(saveBuffer) || fresh(saveBuffer))
      && (failed || bufferSize < old(bufferSize))
      && (exhausted ==> old(saveSize) + old(currentSize) + 256 > SIZE_MAX)
      && saveSize + currentSize <= old(saveSize) + old(currentSize)
    }

    /** The state in which the framer's routines are called. */
    ghost predicate Called()
      reads this, saveBuffer
    {
      Bounds() && Linked() && Active() && bufferSize == saveSize + currentSize && !exhausted
    }

    constructor (dec: Decoder<D>, d: D, sigBytes: nat)
      requires sigBytes <= 8
      ensures Valid() && fresh(saveBuffer) && !failed && !exhausted
      ensures this.dec == dec && start == Running(InitialCore(d, sigBytes), []) && fed == []
    {
      this.dec := dec;
      core := InitialCore(d, sigBytes);
      failed, exhausted := false, false;
      var fill: byte := 0;
      saveBuffer := new byte[0](_ => fill);
      savePtr, saveSize, currentPtr, currentSize, bufferSize := 0, 0, 0, 0, 0;
      handed := [];
      current := [];
      start := Running(InitialCore(d, sigBytes), []);
      fed, consumed := [], [];
    }

    /** Saves what is pending when it is too little: PNG_PUSH_SAVE_BUFFER_IF_LT and
        PNG_PUSH_SAVE_BUFFER_IF_FULL, taken. */
    method SaveAndWait()
      requires Called() && bufferSize < Need(core)
      modifies this`saveBuffer, this`savePtr, this`saveSize, this`currentSize, this`bufferSize,
               this`failed, this`exhausted, saveBuffer
      ensures Looping() && (saveBuffer == old(saveBuffer) || fresh(saveBuffer))
      ensures failed || bufferSize == 0
      ensures exhausted ==> old(saveSize) + old(currentSize) + 256 > SIZE_MAX
      ensures saveSize + currentSize <= old(saveSize) + old(currentSize)
    {
      hide Feed;
      SaveBuffer();
      if !failed {
        assert Pending() == old(Pending());
      }
    }

    /** Takes the bytes the framer has asked for and checked the presence of. */
    method Take(n: nat) returns (out: seq<byte>)
      requires Called() && n == Need(core) <= bufferSize
      modifies this`savePtr, this`saveSize, this`currentPtr, this`currentSize, this`bufferSize, this`consumed
      ensures Bounds() && |out| == n && bufferSize == saveSize + currentSize == old(bufferSize) - n
      ensures Feed(dec, Fire(dec, core, out), Pending()) == Feed(dec, start, fed)
      ensures consumed + Pending() == fed
      ensures saveSize <= old(saveSize) && currentSize <= old(currentSize)
    {
      hide Feed, Fire, Saved, Current, Pending;
      out := FillBuffer(n);
      FeedStep(dec, core, out, Pending());
      assert consumed + Pending() == old(consumed) + (out + Pending());
    }

    /** png_push_read_sig */
    method ReadSignature()
      requires Called() && core.mode == ReadSig && 0 < bufferSize
      modifies this`savePtr, this`saveSize, this`currentPtr, this`currentSize, this`bufferSize, this`consumed,
               this`core, this`failed
      ensures Stepped()
    {
      hide Feed, Need, Saved, Current, Pending, SigMatches;
      var checked := core.sigBytes;
      var n := 8 - checked;
      if bufferSize < n {
        n := bufferSize;
      }
      var bytes := FillBuffer(n);
      assert consumed + Pending() == old(consumed) + (bytes + Pending());
      CheckSignature(bytes);
    }

    /** The comparison of the bytes taken */
    method CheckSignature(bytes: seq<byte>)
      requires Bounds() && !failed && core.mode == ReadSig && Sane(core) && Handed() && core.sigBytes + |bytes| <= 8
      requires bytes == [] ==> core.sigBytes == 8 && Pending() != []
      requires Feed(dec, Running(core, []), bytes + Pending()) == Feed(dec, start, fed)
      requires consumed + Pending() == fed
      modifies this`core, this`failed
      ensures Linked() && (!failed ==> bytes != [] && core.mode in {ReadSig, ReadChunk})
    {
      hide Feed, Saved, Current, Pending, SigMatches;
      var checked := core.sigBytes;
      FeedSigStep(dec, core, bytes, Pending());
      core := core.(sigBytes := checked + |bytes|);
      if !SigMatches(checked, bytes) {
        failed := true;
      } else if core.sigBytes >= 8 {
        core := core.(mode := ReadChunk);
      }
    }
  
    /** A step that neither saves nor grows anything. */
    twostate predicate Kept()
      reads this, saveBuffer
    {
      && Bounds() && Linked() && exhausted == old(exhausted)
      && bufferSize == saveSize + currentSize
      && saveSize <= old(saveSize) && currentSize <= old(currentSize)
    }

    /** The decoding of a chunk header and of the IDAT start that may follow. */
    method DecodeHeader(h: seq<byte>) returns (ok: bool)
      requires core.mode in {ReadChunk, ReadIDAT} && |h| == 8
      modifies this`core
      ensures FireHeader(dec, old(core), h) == if ok then Running(core, []) else Failed
    {
      hide StartIDAT, CrcAll, BigEndian;
      var length := BigEndian(h[..4]);
      if length > UINT_31_MAX {
        return false;
      }
      core := core.(length := length);
      core := core.(name := h[4..], crc := CrcAll(dec, dec.crcInit, h[4..]));
      core := core.(haveHeader := true);
      if core.mode == ReadIDAT {
        if core.name != IDAT {
          core := core.(mode := ReadChunk);
          return dec.ended(core.d);
        }
        core := core.(idatLeft := core.length);
        return true;
      }
      if !dec.headerAccepted(core.d, core.name, core.length) {
        return false;
      }
      if core.name == IDAT {
        ok := BeginIDAT();
        return;
      }
      return !(core.name == IHDR && core.length != 13);
    }

    /** The IDAT branches of png_push_read_chunk. */
    method BeginIDAT() returns (ok: bool)
      modifies this`core
      ensures StartIDAT(dec, old(core)) == if ok then Running(core, []) else Failed
    {
      if core.afterIDAT {
        core := core.(chunkAfterIDAT := true);
      }
      if !dec.haveIHDR(core.d) || dec.missingPLTE(core.d) {
        return false;
      }
      core := core.(mode := ReadIDAT);
      if core.haveIDAT && !core.chunkAfterIDAT && core.length == 0 {
        return true;
      }
      core := core.(haveIDAT := true);
      core := core.(idatLeft := core.length);
      core := core.(d := dec.info(core.d));
      return true;
    }

    /** The common start of png_push_read_chunk and png_push_read_IDAT. */
    method ReadHeader()
      requires Called() && core.mode in {ReadChunk, ReadIDAT} && !core.haveHeader && bufferSize >= 8
      modifies this`savePtr, this`saveSize, this`currentPtr, this`currentSize, this`bufferSize, this`consumed,
               this`core, this`failed
      ensures Kept() && bufferSize == old(bufferSize) - 8
      ensures !failed ==>
                && core.haveHeader && core.mode in {ReadChunk, ReadIDAT}
                && (old(core.mode) == core.mode == ReadChunk ==> !(core.name == IHDR && core.length != 13))
    {
      hide Feed, Fire, FireHeader, Saved, Current;
      ghost var c := core;
      var h := Take(8);
      FireCases(dec, c, h);
      var ok := DecodeHeader(h);
      if ok {
        HeaderKeepsSane(dec, c, h);
      } else {
        FeedFailed(dec, Pending());
        failed := true;
      }
    }
  
    /** A chunk handler: it reads the data and the CRC of the chunk. */
    method HandleChunk(data: seq<byte>, stored: seq<byte>) returns (ok: bool)
      modifies this`core
      ensures FireChunk(dec, old(core), data, stored) == if ok then Running(core, []) else Failed
    {
      var r := dec.handle(core.d, core.name, data, stored);
      if r.None? {
        return false;
      }
      core := core.(d := r.value);
      if core.name == IEND {
        core := core.(mode := ReadDone);
        core := core.(d := dec.end(core.d));
      }
      core := core.(haveHeader := false);
      return true;
    }

    /** The handler part of png_push_read_chunk, with the whole chunk pending. */
    method ReadBody()
      requires Called() && core.mode == ReadChunk && core.haveHeader && core.length + 4 <= bufferSize
      requires !(core.name == IHDR && core.length != 13)
      modifies this`savePtr, this`saveSize, this`currentPtr, this`currentSize, this`bufferSize, this`consumed,
               this`core, this`failed
      ensures Kept() && bufferSize < old(bufferSize)
    {
      hide Feed, Fire, FireChunk, Saved, Current, Pending;
      ghost var c := core;
      var p := Take(core.length + 4);
      FireCases(dec, c, p);
      var ok := HandleChunk(p[..core.length], p[core.length..]);
      if !ok {
        FeedFailed(dec, Pending());
        failed := true;
      } else {
        FireKeepsSane(dec, c, p);
        if core.mode == ReadDone {
          FeedDone(dec, core, Pending());
        }
      }
    }

    /** png_push_read_chunk */
    method ReadChunkStep()
      requires Called() && core.mode == ReadChunk && 0 < bufferSize
      modifies this`savePtr, this`saveSize, this`currentPtr, this`currentSize, this`bufferSize, this`consumed,
               this`core, this`failed, this`saveBuffer, this`exhausted, saveBuffer
      ensures Stepped()
    {
      assert |Pending()| == bufferSize;
      hide Feed, Saved, Current, Pending;
      if !core.haveHeader {
        if bufferSize < 8 {
          SaveAndWait();
          return;
        }
        ReadHeader();
        if failed || core.mode == ReadIDAT {
          return;
        }
      } else if core.name == IHDR && core.length != 13 {
        FeedBadIHDR(dec, core, Pending());
        failed := true;
        return;
      }
      if core.length + 4 > bufferSize {
        SaveAndWait();
      } else {
        ReadBody();
      }
    }

    /** png_process_IDAT_data and the CRC, on the next n bytes of IDAT data. */
    method InflateBytes(bytes: seq<byte>)
      requires Bounds() && !failed && core.mode == ReadIDAT && core.haveHeader && |bytes| <= core.idatLeft && Sane(core)
      requires Feed(dec, Running(core, []), bytes + Pending()) == Feed(dec, start, fed)
      requires consumed + Pending() == fed && bytes != [] && Handed()
      modifies this`core, this`failed, this`handed
      ensures Linked()
      ensures !failed ==> core.mode == ReadIDAT && core.haveHeader && core.idatLeft == old(core.idatLeft) - |bytes|
    {
      hide Feed, Saved, Current, Pending;
      FeedIDATStep(dec, core, bytes, Pending());
      core := core.(crc := CrcAll(dec, core.crc, bytes));
      handed := handed + [bytes];
      ConcatSnoc(old(handed), bytes);
      var r := InflateAll(dec, core.d, bytes);
      if r.None? {
        failed := true;
        return;
      }
      core := core.(d := r.value, idat := core.idat + bytes);
      core := core.(idatLeft := core.idatLeft - |bytes|);
    }

    /** The first half of png_push_read_IDAT's data phase: the saved bytes. */
    method InflateSaved()
      requires Called() && core.mode == ReadIDAT && core.haveHeader
      modifies this`savePtr, this`saveSize, this`bufferSize, this`consumed, this`core, this`failed, this`handed
      ensures Kept()
      ensures !failed ==> core.mode == ReadIDAT && core.haveHeader
      ensures bufferSize <= old(bufferSize) && (!failed && core.idatLeft > 0 ==> saveSize == 0)
      ensures !failed && bufferSize == old(bufferSize) ==> core == old(core)
    {
      hide Feed;
      if core.idatLeft != 0 && saveSize != 0 {
        var bytes := TakeSaved(if core.idatLeft < saveSize then core.idatLeft else saveSize);
        assert bytes + Pending() == old(Pending());
        assert consumed + Pending() == old(consumed) + (bytes + Pending());
        InflateBytes(bytes);
      }
    }

    /** The second half: the bytes of the current buffer. */
    method InflateCurrent()
      requires Called() && core.mode == ReadIDAT && core.haveHeader && (core.idatLeft > 0 ==> saveSize == 0)
      modifies this`currentPtr, this`currentSize, this`bufferSize, this`consumed, this`core, this`failed, this`handed
      ensures Kept()
      ensures !failed ==> core.mode == ReadIDAT && core.haveHeader
      ensures bufferSize <= old(bufferSize) && (!failed && core.idatLeft > 0 ==> bufferSize == 0)
      ensures !failed && bufferSize == old(bufferSize) ==> core == old(core)
    {
      hide Feed;
      if core.idatLeft != 0 && currentSize != 0 {
        var bytes := TakeCurrent(if core.idatLeft < currentSize then core.idatLeft else currentSize);
        assert bytes + Pending() == old(Pending());
        assert consumed + Pending() == old(consumed) + (bytes + Pending());
        InflateBytes(bytes);
      }
    }

    /** png_crc_finish at the end of an IDAT chunk */
    method FinishIDAT()
      requires Called() && core.mode == ReadIDAT && core.haveHeader && core.idatLeft == 0 && 4 <= bufferSize
      modifies this`savePtr, this`saveSize, this`currentPtr, this`currentSize, this`bufferSize, this`consumed,
               this`core, this`failed
      ensures Kept() && bufferSize < old(bufferSize)
    {
      hide Feed, Fire, Saved, Current, Pending;
      ghost var c := core;
      var stored := Take(4);
      FireCases(dec, c, stored);
      if dec.crcAccepted(core.crc, stored) {
        core := core.(haveHeader := false);
        core := core.(afterIDAT := true);
      } else {
        FeedFailed(dec, Pending());
        failed := true;
      }
    }

    /** png_push_read_IDAT */
    method ReadIDATStep()
      requires Called() && core.mode == ReadIDAT && 0 < bufferSize
      modifies this`savePtr, this`saveSize, this`currentPtr, this`currentSize, this`bufferSize, this`consumed,
               this`core, this`failed, this`saveBuffer, this`exhausted, this`handed, saveBuffer
      ensures Stepped()
    {
      hide Feed, Saved, Current, Pending;
      if !core.haveHeader {
        if bufferSize < 8 {
          SaveAndWait();
          return;
        }
        ReadHeader();
        if failed || core.mode == ReadChunk {
          return;
        }
      }
      InflateSaved();
      if failed {
        return;
      }
      InflateCurrent();
      if failed || core.idatLeft > 0 {
        return;
      }
      if bufferSize < 4 {
        SaveAndWait();
      } else {
        FinishIDAT();
      }
    }

    /** png_process_some_data */
    method ProcessSomeData()
      requires Looping() && !failed && 0 < bufferSize
      modifies this`savePtr, this`saveSize, this`currentPtr, this`currentSize, this`bufferSize, this`consumed,
               this`core, this`failed, this`saveBuffer, this`exhausted, this`handed, saveBuffer
      ensures Stepped()
    {
      hide Feed, Need, Saved, Current, Pending;
      match core.mode
      case ReadSig => ReadSignature();
      case ReadChunk => ReadChunkStep();
      case ReadIDAT => ReadIDATStep();
      case ReadDone => bufferSize := 0;
    }

    /** The start of png_process_data: the new bytes join the queue. */
    method Refed(buffer: seq<byte>)
      requires Valid()
      modifies this`current, this`currentPtr, this`currentSize, this`bufferSize, this`fed
      ensures Looping() && fed == old(fed) + buffer
      ensures !failed ==> saveSize == old(saveSize) && currentSize == |buffer|
    {
      hide Feed;
      FeedAppend(dec, start, fed, buffer);
      FeedFailed(dec, buffer);
      fed := fed + buffer;
      if failed {
        return;
      }
      if core.mode == ReadDone {
        FeedDone(dec, core, buffer);
      } else {
        FeedAppend(dec, Running(core, []), Pending(), buffer);
        assert old(Pending()) == Saved();
      }
      RestoreBuffer(buffer);
      assert Pending() == old(Saved()) + buffer;
      assert consumed + (old(Saved()) + buffer) == (consumed + old(Saved())) + buffer;
    }

    /** png_process_data: however the stream is cut into buffers, the reader is where
        the byte-at-a-time machine is after all the bytes fed so far. The only other
        outcome is the size check on the save buffer. */
    method ProcessData(buffer: seq<byte>)
      requires Valid()
      modifies this, saveBuffer
      ensures Valid() && (saveBuffer == old(saveBuffer) || fresh(saveBuffer))
      ensures start == old(start) && fed == old(fed) + buffer
      ensures !exhausted ==> View() == Feed(dec, start, fed)
      ensures exhausted && !old(exhausted) ==> old(saveSize) + |buffer| + 256 > SIZE_MAX
    {
      hide Feed;
      Refed(buffer);
      if failed {
        return;
      }
      while bufferSize > 0 && !failed
        invariant Looping() && start == old(start) && fed == old(fed) + buffer
        invariant saveBuffer == old(saveBuffer) || fresh(saveBuffer)
        invariant exhausted && !old(exhausted) ==> old(saveSize) + |buffer| + 256 > SIZE_MAX
        invariant saveSize + currentSize <= old(saveSize) + |buffer|
        decreases !failed, bufferSize
      {
        ProcessSomeData();
      }
      if Active() {
        assert Pending() == Saved();
        FeedWaits(dec, core, [], Saved());
        assert [] + Saved() == Saved();
      }
    }
  }

  function InitialCore<D>(d: D, sigBytes: nat): Core<D> {
    Core(ReadSig, sigBytes, false, [], 0, 0, 0, false, false, false, [], d)
  }

  /** A fresh reader fed a list of buffers. */
  method Run<D>(dec: Decoder<D>, d: D, sigBytes: nat, buffers: seq<seq<byte>>) returns (r: Reader<D>)
    requires sigBytes <= 8
    ensures r.Valid() && r.dec == dec
    ensures r.start == Running(InitialCore(d, sigBytes), []) && r.fed == Concat(buffers)
    ensures !r.exhausted ==> r.View() == Feed(dec, r.start, r.fed)
  {
    r := new Reader(dec, d, sigBytes);
    var i := 0;
    while i < |buffers|
      invariant 0 <= i <= |buffers|
      invariant r.Valid() && r.dec == dec && fresh(r) && fresh(r.saveBuffer)
      invariant r.start == Running(InitialCore(d, sigBytes), [])
      invariant r.fed == Concat(buffers[..i])
      invariant !r.exhausted ==> r.View() == Feed(dec, r.start, r.fed)
    {
      r.ProcessData(buffers[i]);
      assert buffers[..i + 1][..i] == buffers[..i];
      i := i + 1;
    }
    assert buffers[..i] == buffers;
  }

  /** Split independence: two readers that get the same bytes, cut into buffers in
      any two ways, end up in the same state: both failed, or the same chunks
      handled, the same IDAT data inflated and the same bytes waiting. */
  method RunTwice<D>(dec: Decoder<D>, d: D, sigBytes: nat, a: seq<seq<byte>>, b: seq<seq<byte>>)
    returns (ra: Reader<D>, rb: Reader<D>)
    requires sigBytes <= 8 && Concat(a) == Concat(b)
    ensures ra.Valid() && rb.Valid()
    ensures !ra.exhausted && !rb.exhausted ==> ra.View() == rb.View()
  {
    ra := Run(dec, d, sigBytes, a);
    rb := Run(dec, d, sigBytes, b);
  }
}
