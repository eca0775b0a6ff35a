# Proofs about the PNG reader of CubikOS

CubikOS carries libpng 1.6.37 in `Thirdparty/libpng`. This project models the parts of it
that are state machines, schedules and bounded arithmetic, and proves what they promise
for all inputs. `dafny verify dfyconfig.toml` checks everything.

| file | models |
|---|---|
| `PushSpec.dfy`, `PushReader.dfy`, `PushChunks.dfy` | the push reader (`pngpread.c`): two-part byte buffer, re-entrant chunk framer, a byte-at-a-time machine as its specification, and the chunk grammar |
| `RowStream.dfy` | `png_process_IDAT_data` over any decompressor: from compressed bytes to rows |
| `RowSchedule.dfy` | the interlaced row counters and callback expansion of the push reader, and the row switch of the sequential reader |
| `Adam7.dfy` | the interlace macros of `png.h` |
| `ImageWalker.dfy` | size checks and the compositing pixel walker of the simplified API |
| `Arithmetic.dfy` | machine words and the integer lemmas shared by the rest |
| `FixedPoint.dfy` | `png_muldiv` and `png_reciprocal` |
| `Chromaticity.dfy`, `Luminance.dfy`, `ColorSpace.dfy` | cHRM/XYZ conversion, how bright accepted end points are, the colour-space setters, RGB-to-gray coefficients |
| `FloatText.dfy`, `FixedText.dfy` | the number recogniser, the fixed-point printer, and sCAL as their client |
| `GammaTable.dfy` | the segmented 16-to-8-bit gamma table |
| `UnknownChunks.dfy`, `Keyword.dfy`, `Composite.dfy` | the keep-unknown list, keyword normalisation, division-free compositing |

## How the model reads

- A `png_error` is a `Failed`, `None` or `Internal` result, and `Failed` is absorbing. Warnings
  and benign errors are calls that return.
- Every 32-bit operation that can wrap or overflow is explicit: `Wrap32` and `WrapU32` for
  words, `Undefined` for signed overflow in the colour conversions, which C leaves undefined.
  Inside `png_muldiv` the signed words wrap, which its sign test relies on.
- The CRC, the chunk handlers and the application's callbacks are function-valued parameters, and
  inflate is any machine that reads and emits bytes; the theorems hold for all of them.
- The chunk handlers see exactly the data and CRC bytes of their chunk.
- Below the chunk framer inflate is a byte-wise fold; `RowStream.dfy` proves when the calls of
  inflate are that fold.
- Objects the source updates in place are classes whose methods give the whole new state;
  loops and in-place arrays stay loops and arrays.

## Where the code does not do what its text says

- `png_muldiv` promises the nearest integer. Its test is `remainder >= D / 2` in integers, so an
  odd divisor rounds up too early and a divisor of 1 always adds one: 3\*1/1 is 4. `NearestIff`
  is the exact condition.
- `png_muldiv` promises to report overflow. A quotient of 2^32 - 1 that is rounded up wraps to 0
  and is reported as success. `FailsExactlyOnOverflow` is the exact condition. It reaches
  `png_XYZ_normalize`, where it can turn a large X value into 0 (`NormalizeLosesX`).
- `png_XYZ_normalize` means to prevent signed overflow, but its guards test green X and blue X
  in front of adding green Y and blue Y. `NormalizeOverflowIff` is the exact condition. The sums of
  `png_xy_from_XYZ` that follow can overflow as well (`SumsOverflowCounterexample`);
  `CheckXyzOverflowIff` is the exact condition for the two together.
- A push reader told that all eight signature bytes were checked compares zero bytes, which
  never match, and so rejects every stream (`AllCheckedRejects`).
- `png_push_read_IDAT` decodes the header that follows the image data itself, so the name and
  length checks of `png_push_read_chunk` are never made for that chunk (`UncheckedHeader`);
  `UnacceptableHeader` is the exact condition for its rejection.
- `png_process_IDAT_data` says that it processes all the data it is given before it returns. It stops
  when its input is used up, even with output left inside inflate, so how many rows have been
  delivered can depend on the cut of the input (`RowDelayed`). `CompleteIff` says exactly when
  nothing is left, `CutsAgreeIff` and `OneCutIff` exactly when the cut matters.
- It also looks for an error of inflate before it looks for a complete row, so a broken stream can
  lose a row in one cut and not in another (`RowLost`); `BrokenStream` is the exact condition.

Three "cannot happen" comments are right, and the branches behind them are dead code: the overflow
of the subtractions and the internal error of `png_XYZ_from_xy` (`XyzFromXyTotal`, `CheckXyTotal`;
inside `png_muldiv` a signed word can overflow, see `InverseWordOverflows` and `Muldiv`), the two
errors of `png_colorspace_set_rgb_coefficients` (`GrayNeverFails`; a Y total of 1 would reach one,
but no sequence of setters stores it), and the test for a pass above 7 in
`png_read_push_finish_row` (`NextPass`).

## Model

| member | source | states |
|---|---|---|
| `PushReader.Reader.ProcessData` | Thirdparty/libpng/pngpread.c:36-48 | Whatever buffer arrives and however many came before, the reader ends where a byte-at-a-time machine is after all bytes fed so far; the loop terminates because every step lowers the byte count or fails; the only other outcome is the size check on the save buffer, reached only when saved + fed + 256 bytes exceed the address space. |
| `PushReader.RunTwice` | Thirdparty/libpng/pngpread.c:36-48 | Split independence: the same bytes cut into buffers in any two ways leave two readers in the same state (same failure, same chunks handled, same IDAT data inflated, same bytes waiting). |
| `PushReader.Run` | Thirdparty/libpng/pngpread.c:36-48 | A fresh reader fed any list of buffers is the machine run on their concatenation. |
| `PushReader.Reader.constructor` | Thirdparty/libpng/pngpread.c:1073-1086 | A new progressive reader holds no bytes and is at the start of the machine, with 0 to 8 signature bytes already checked. |
| `PushReader.Reader.RestoreBuffer` | Thirdparty/libpng/pngpread.c:523-531 | The new buffer becomes the current part, behind the saved bytes, and buffer_size counts both. |
| `PushReader.Reader.FillBuffer` | Thirdparty/libpng/pngpread.c:420-461 | Takes exactly the first min(length, buffer_size) bytes of the FIFO, saved part first, across the seam; what remains is the rest of the FIFO. |
| `PushReader.Reader.MoveDown` | Thirdparty/libpng/pngpread.c:466-481 | The in-place move of the saved bytes to the front of the save buffer keeps them, although source and target overlap. |
| `PushReader.Reader.Grow` | Thirdparty/libpng/pngpread.c:482-511 | The larger save buffer holds the same saved bytes. |
| `PushReader.Reader.Append` | Thirdparty/libpng/pngpread.c:512-518 | The current bytes go behind the saved ones, in order. |
| `PushReader.Reader.SaveBuffer` | Thirdparty/libpng/pngpread.c:463-521 | All pending bytes end up saved, in order; the capacity never shrinks; it fails exactly when the bytes do not fit the buffer and, with the 256 spare bytes, not the address space either, and then loses nothing. |
| `PushReader.Reader.SaveAndWait` | Thirdparty/libpng/pngpread.c:28-33 | Taken only when fewer bytes are pending than the next step needs; the loop invariant survives and no byte is lost. |
| `PushReader.Reader.ReadSignature` | Thirdparty/libpng/pngpread.c:133-164 | Comparing any number of signature bytes at once is comparing them one by one; failure and the change to chunk mode happen at the same byte. |
| `PushReader.Reader.DecodeHeader` | Thirdparty/libpng/pngpread.c:180-198 | Length, name and CRC of a header and the branches on them, field by field, are one step of the machine. |
| `PushReader.Reader.BeginIDAT` | Thirdparty/libpng/pngpread.c:198-272 | The order and missing-chunk checks at the first IDAT, the zero-length special case, and the start of the image data. |
| `PushReader.Reader.ReadHeader` | Thirdparty/libpng/pngpread.c:180-194 | Eight pending bytes are consumed as a header and the reader stays tied to the machine. |
| `PushReader.Reader.ReadBody` | Thirdparty/libpng/pngpread.c:227-418 | A chunk whose data and CRC are all pending is handed over whole, consuming exactly length + 4 bytes; IEND ends the reading. |
| `PushReader.Reader.ReadChunkStep` | Thirdparty/libpng/pngpread.c:166-418 | One call of png_push_read_chunk, re-entered at any point, keeps the loop invariant and lowers the byte count. |
| `PushReader.Reader.InflateSaved` | Thirdparty/libpng/pngpread.c:562-588 | The IDAT bytes of the saved part go through CRC and inflate in order. |
| `PushReader.Reader.InflateCurrent` | Thirdparty/libpng/pngpread.c:590-614 | ... then those of the current buffer. |
| `PushReader.Reader.FinishIDAT` | Thirdparty/libpng/pngpread.c:616-623 | Four bytes are consumed as the CRC of the chunk; only then the next header is awaited. |
| `PushReader.Reader.ReadIDATStep` | Thirdparty/libpng/pngpread.c:533-624 | One call of png_push_read_IDAT keeps the loop invariant and lowers the byte count. |
| `PushReader.Reader.ProcessSomeData` | Thirdparty/libpng/pngpread.c:93-125 | The switch on the mode: every branch is one step of the loop. |
| `PushSpec.FeedAppend` | Thirdparty/libpng/pngpread.c:36-48 | Feeding a concatenation is feeding the parts in turn. |
| `PushSpec.FeedSig` | Thirdparty/libpng/png.c:73-91 | A run of signature bytes is accepted by the machine exactly when png_sig_cmp accepts it as a block. |
| `PushSpec.FeedIDAT` | Thirdparty/libpng/pngpread.c:562-614 | A run of IDAT bytes is one CRC update and one byte-wise inflate fold on the whole run; RowStream.FoldIsProcess says exactly when that fold is what the calls of inflate do. |
| `PushSpec.FeedFires` | Thirdparty/libpng/pngpread.c:180-194 | Exactly the needed bytes make a step. |
| `PushSpec.FeedWaits` | Thirdparty/libpng/pngpread.c:28-33 | Fewer bytes than needed change nothing. |
| `PushSpec.FireKeepsSane` | Thirdparty/libpng/pngpread.c:166-418 | An IDAT header never waits outside IDAT mode and the signature count never exceeds 8. |
| `PushChunks.FeedChunks` | Thirdparty/libpng/pngpread.c:166-418 | Framing theorem: the machine fed any serialised chunk list does exactly what handling the chunks one by one does, with failure at the same chunk and everything behind IEND ignored. |
| `PushChunks.FeedFile` | Thirdparty/libpng/pngpread.c:133-418 | The same for a whole file, for a reader that takes the first 0 to 8 signature bytes as checked and is fed the rest. |
| `PushChunks.BadSignature` | Thirdparty/libpng/pngpread.c:133-164 | A byte that differs from the signature rejects the stream, whatever follows. |
| `PushChunks.AllCheckedRejects` | Thirdparty/libpng/pngpread.c:133-164 | A reader told that all eight signature bytes were checked rejects every stream at its first byte. |
| `PushChunks.ReadFile` | Thirdparty/libpng/pngpread.c:36-48 | The imperative reader, with 0 to 8 signature bytes already checked, fed the rest of a file of any chunks cut in any way, reads exactly these chunks (or rejects them all, for 8): it fails exactly when the fold of the handlers, info, inflate and end over the chunks up to IEND does, and ends with that decoder; the buffers it hands to png_process_IDAT_data are not empty and concatenate to the data of the IDAT chunks. |
| `PushChunks.FeedIDATChunk` | Thirdparty/libpng/pngpread.c:533-624 | A whole IDAT chunk: inflated once, CRC over name and data, then checked. |
| `PushChunks.FeedOtherChunk` | Thirdparty/libpng/pngpread.c:167-418 | Any other whole chunk: after IDAT data it needs the end of the zlib stream and, unlike elsewhere, its name and length are not checked. |
| `PushChunks.HandlerKept` | Thirdparty/libpng/pngpread.c:227-417 | What the handler of a chunk has done is kept, through the end callback for IEND. |
| `PushChunks.EffectsDecode` | Thirdparty/libpng/pngpread.c:167-624 | Reading chunks, seen from the decoder, is a fold of its own over the chunks, with every condition for an error written out. |
| `PushChunks.LongChunkRejected` | Thirdparty/libpng/pngpread.c:186-187 | A length above 2^31 - 1 is rejected with its header. |
| `PushChunks.EncodeLayout` | Thirdparty/libpng/pngpread.c:180-190 | The layout of a chunk: length, most significant byte first, name, data, CRC. |
| `PushChunks.FoldsTakeEveryByte` | Thirdparty/libpng/pngrutil.c:196-203 | The CRC and inflate take every byte, in order. |
| `PushChunks.UnacceptableHeader` | Thirdparty/libpng/pngpread.c:533-624 | A header that the name and length checks refuse is rejected exactly outside IDAT mode, before the end of the zlib stream, for an IHDR of the wrong length, or by its handler. |
| `PushChunks.UncheckedHeader` | Thirdparty/libpng/pngpread.c:536-561 | A chunk with a refused header that is read behind image data and rejected without. |
| `PushChunks.ImageDataInOnePiece` | Thirdparty/libpng/pngpread.c:533-624 | The data of successive IDAT chunks goes through inflate in one piece, wherever the chunk boundaries are. |
| `PushChunks.EffectsCollect` | Thirdparty/libpng/pngpread.c:533-624 | A list of chunks read without an error has had the data of all its IDAT chunks in front of IEND inflated, and nothing else. |
| `PushChunks.U32RoundTrip` | Thirdparty/libpng/pngpread.c:186-187 | Decoding inverts the encoding of a chunk length, whose value is positional, most significant byte first. |
| `RowStream.IdatRows.ProcessIdatData` | Thirdparty/libpng/pngpread.c:626-736 | The loop, with the row buffer and the row counters updated in place, leaves exactly the state of its functional form; it terminates because every turn reads a byte, completes a row or stops. |
| `RowStream.IdatRows.constructor` | Thirdparty/libpng/pngpread.c:262-272 | The row buffer has the size of the first scanline. |
| `RowStream.IdatRows.Inflate` | Thirdparty/libpng/pngpread.c:656-671 | A call of inflate reads and emits until it runs out of input or room, ends or breaks. |
| `RowStream.IdatRows.Tests` | Thirdparty/libpng/pngpread.c:673-726 | The tests for errors, extra data, a complete row and the end, in this order. |
| `RowStream.IdatRows.ProcessRow` | Thirdparty/libpng/pngpread.c:720-722 | A full row buffer is the scanline at the row counters, and the next scanline sets the next size. |
| `RowStream.Progress` | Thirdparty/libpng/pngpread.c:626-736 | Every turn of the loop reads a byte, completes a row or stops. |
| `RowStream.RowsAreSegments` | Thirdparty/libpng/pngpread.c:626-736 | The rows are the successive segments, sized by iwidth, of what one call of inflate with all the input and room for the whole image would output. |
| `RowStream.CutIs` | Thirdparty/libpng/pngpread.c:656-722 | Segments: the first scanlines due, in order, each of its size; no byte lost, repeated or moved; less than a scanline left. |
| `RowStream.LineHoldsPixels` | Thirdparty/libpng/pngpriv.h:738-741 | For every depth of the format a scanline is a filter byte and the least number of bytes that holds its pixels. |
| `RowStream.RowsHoldPixels` | Thirdparty/libpng/pngpread.c:656-657 | So is every row handed on, over any list of buffers. |
| `RowStream.ProcessIsEager` | Thirdparty/libpng/pngpread.c:626-736 | Without errors a buffer is worked off completely, up to output still inside inflate. |
| `RowStream.ProcessAllIsEager` | Thirdparty/libpng/pngpread.c:626-736 | For any list of buffers, what is delivered together with what is inside inflate depends only on the bytes. |
| `RowStream.ProcessIsBehind` | Thirdparty/libpng/pngpread.c:626-736 | Where a call on a stream without errors ends, in closed form: the lazy run up to the reading of the last byte, then inflate without input, with no room if this call has completed the row in front of that byte and inflate reads on. |
| `RowStream.ProcessAllIsBehind` | Thirdparty/libpng/pngpread.c:626-736 | The same for a list of calls: the lazy run depends on all the bytes alone, and of the calls only the number of rows in front of the last one matters. |
| `RowStream.CompleteIff` | Thirdparty/libpng/pngpread.c:626-736 | One buffer is worked off completely exactly when its closed form leaves nothing inside inflate. |
| `RowStream.CutsAgreeIff` | Thirdparty/libpng/pngpread.c:626-736 | Two cuts of the same stream without errors leave different states exactly when something is emitted behind the last byte and in just one of them the last call has completed the row in front of it, with inflate reading on. |
| `RowStream.OneCutIff` | Thirdparty/libpng/pngpread.c:626-736 | The same for one buffer and its two halves, as a condition on rows delivered, unfinished row and next action. |
| `RowStream.NoLookahead` | Thirdparty/libpng/pngpread.c:626-736 | An inflate that stops reading with its output full makes every cut equal. |
| `RowStream.CutIndependent` | Thirdparty/libpng/pngpread.c:626-736 | A list of buffers without errors is worked off completely, like the eager run on all the bytes, exactly when its closed form leaves nothing inside inflate. |
| `RowStream.QuietIsComplete` | Thirdparty/libpng/pngpread.c:626-736 | A stream that emits nothing behind its last byte, such as one that ends in a checksum, is worked off completely by every cut. |
| `RowStream.RowDelayed` | Thirdparty/libpng/pngpread.c:634-653 | The same two bytes give one row in one buffer and two rows in two. |
| `RowStream.BrokenStream` | Thirdparty/libpng/pngpread.c:673-700 | At an error of the stream: exactly when the call meets it; a complete row is lost exactly when inflate reads on with its output full, the error comes at a row boundary, and the same call has completed a row; and when a png_error is raised. |
| `RowStream.RowLost` | Thirdparty/libpng/pngpread.c:673-700 | An erroneous stream whose only row is lost in one buffer and delivered in two. |
| `RowStream.FoldIsProcess` | Thirdparty/libpng/pngpread.c:562-614 | The byte-wise fold below the chunk framer is what png_process_IDAT_data does on a list of buffers, exactly when nothing is left inside inflate. |
| `RowStream.ChunksToRows` | Thirdparty/libpng/pngpread.c:533-736 | From chunks to rows: after any intact IDAT chunks the rows handed on are the segments of the output for the data of all of them. |
| `RowStream.ReadRows` | Thirdparty/libpng/pngpread.c:36-736 | The whole way of a file cut in any way: chunks, non-empty buffers for png_process_IDAT_data, rows. The rows delivered and those still inside inflate are the segments of the output for the data of all IDAT chunks; with nothing inside, the rows delivered are; and each is a filter byte and the least number of bytes for its pixels. |
| `RowSchedule.PushRows.ProcessImage` | Thirdparty/libpng/pngpread.c:738-966 | For every width and height at least 1, in all three modes: the callbacks are the schedule, each (pass, row) once and in order, each with a row exactly when there are new pixels; the scanlines entered are exactly those of the schedule; interlaced images end at pass 7. |
| `RowSchedule.PushRows.ProcessRow` | Thirdparty/libpng/pngpread.c:738-966 | Every entry before the end is at a row of the pass and the counters stay in range; the expansion stops at the next scanline. |
| `RowSchedule.PushRows.DueHere` | Thirdparty/libpng/pngpread.c:700-721 | The test on row_number, num_rows and pass says exactly whether a scanline is due; pass, row_number and iwidth say which. |
| `RowSchedule.PushRows.ExpandRow` | Thirdparty/libpng/pngpread.c:786-958 | Each of the seven cases emits exactly the callbacks up to the next scanline, across pass changes. |
| `RowSchedule.PushRows.ExpandPass0` | Thirdparty/libpng/pngpread.c:795-829 | Case 0, with the extra blocks for narrow and low images. |
| `RowSchedule.PushRows.EmitBlock` | Thirdparty/libpng/pngpread.c:798-806 | A counted callback loop that also ends when the pass changes: where it stops and which scanline it covers. |
| `RowSchedule.PushRows.FinishRow` | Thirdparty/libpng/pngpread.c:968-1032 | One spot leaves the head of the schedule; the row counters are those of the new pass. |
| `RowSchedule.PushRows.NextPass` | Thirdparty/libpng/pngpread.c:1002-1029 | The search for the next pass with rows and columns stops inside 7 passes; the test for a pass above 7 never fires. |
| `RowSchedule.PushRows.constructor` | Thirdparty/libpng/pngrutil.c:4391-4434 | The initial counters belong to the head of the schedule. |
| `RowSchedule.RestMembers` | Thirdparty/libpng/pngpread.c:968-1032 | The schedule lists exactly the rows of the passes that have columns ... |
| `RowSchedule.RestIncreasing` | Thirdparty/libpng/pngpread.c:968-1032 | ... in strictly increasing order, so none twice. |
| `RowSchedule.ScanlinesFrom` | Thirdparty/libpng/pngpread.c:786-958 | From any position on, the scanlines of the expanded schedule are the remaining sub-image rows, placed in the image. |
| `RowSchedule.ScanlinesAreSubImageRows` | Thirdparty/libpng/pngpread.c:786-958 | With row expansion, scanlines are decoded exactly at the rows of the seven sub-images, in order. |
| `RowSchedule.EntriesPerPass` | Thirdparty/libpng/pngpread.c:786-966 | Pass p is entered exactly PNG_PASS_ROWS(height, p) times, or never if it has no columns. |
| `RowSchedule.SubImageSize` | Thirdparty/libpng/pngpread.c:1002-1029 | The table formulas count rows and columns one by one, agree with the macros, and the width tests say exactly when a pass has no columns. |
| `RowSchedule.OnRowIff` | Thirdparty/libpng/png.h:2486-2491 | A scanline is due exactly at the rows PNG_ROW_IN_INTERLACE_PASS selects. |
| `RowSchedule.HasDataIff` | Thirdparty/libpng/pngpread.c:786-958 | A callback carries a row exactly from a row of the pass to the end of its interlace block. |
| `RowSchedule.PlaceIsMacro` | Thirdparty/libpng/png.h:2475-2491 | The placement is PNG_ROW_FROM_PASS_ROW and lands in the pass. |
| `RowSchedule.SequentialRows.Skips` | Thirdparty/libpng/pngread.c:456-535 | The row switch skips exactly the rows outside the pass or passes without columns, and combines the display row exactly when there are new pixels. |
| `RowSchedule.SequentialRows.FinishRow` | Thirdparty/libpng/pngrutil.c:4326-4387 | In all three modes: one spot leaves the head of the schedule (with row expansion: one row on, then one pass on), the counters are those of the new row, and the image data is finished exactly at the end. |
| `RowSchedule.SequentialRows.NextPass` | Thirdparty/libpng/pngrutil.c:4356-4380 | The search for the next pass skips exactly the sub-images without rows or columns, and skips nothing with row expansion. |
| `RowSchedule.SequentialRows.constructor` | Thirdparty/libpng/pngrutil.c:4391-4434 | The initial counters belong to the first scanline. |
| `RowSchedule.SequentialRows.ReadRow` | Thirdparty/libpng/pngread.c:383-616 | Each call decodes the scanline at the reader's own counters, if one is due there, with iwidth pixels. |
| `RowSchedule.SequentialRows.ReadImage` | Thirdparty/libpng/pngread.c:700-757 | For plain and interlaced images, the pass-by-row loops decode exactly the scanline sequence of the push reader and then finish the image data. |
| `RowSchedule.DrawsAreScanlines` | Thirdparty/libpng/pngread.c:456-535 | From any position on, the two readers have the same scanlines to decode. |
| `Adam7.MacrosAreTables` | Thirdparty/libpng/png.h:2443-2459 | Starts, offsets and shifts of the macros are the pass tables of the readers. |
| `Adam7.Counts` | Thirdparty/libpng/png.h:2466-2469 | Closed forms of PNG_PASS_ROWS and PNG_PASS_COLS. |
| `Adam7.CountsAreTables` | Thirdparty/libpng/pngpread.c:1016-1027 | The formulas of the row counters give the counts of the macros. |
| `Adam7.RowInPassIff` | Thirdparty/libpng/png.h:2486-2491 | The bits of the two packed constants select exactly the arithmetic progression of the pass (rows). |
| `Adam7.ColInPassIff` | Thirdparty/libpng/png.h:2486-2493 | The same for columns. |
| `Adam7.Partition` | Thirdparty/libpng/png.h:2486-2493 | Every pixel is in exactly one pass, the one its low bits determine. |
| `Adam7.RowEnumeration` | Thirdparty/libpng/png.h:2466-2476 | PNG_ROW_FROM_PASS_ROW stays in the pass, is inside the image exactly for the first PNG_PASS_ROWS indices, and is injective. |
| `Adam7.RowEnumerationOnto` | Thirdparty/libpng/png.h:2475-2491 | ... and reaches every row of the pass. |
| `Adam7.ColEnumeration` | Thirdparty/libpng/png.h:2468-2478 | The same for columns. |
| `Adam7.ColEnumerationOnto` | Thirdparty/libpng/png.h:2477-2493 | ... and onto. |
| `Adam7.PassRowsCounts` | Thirdparty/libpng/png.h:2466-2467 | PNG_PASS_ROWS is the cardinality of the set of rows in the pass. |
| `Adam7.TallyIsQuotient` | Thirdparty/libpng/png.h:2466-2469 | Counting members of a progression one by one gives the rounded quotient. |
| `Adam7.PassesCoverImage` | Thirdparty/libpng/png.h:2466-2469 | The seven sub-image sizes add up to width * height. |
| `ImageWalker.ReadComposite` | Thirdparty/libpng/pngread.c:3262-3376 | For both stride signs, interlaced or not: every component of the image keeps its value under alpha 0, is replaced by its own pixel of the file under alpha 255, and is blended with it otherwise, exactly once, in its own place inside the buffer; padding is untouched; the reader's counters run through every scanline of the file, in order, to the end. |
| `ImageWalker.NextLine` | Thirdparty/libpng/pngread.c:3320-3331 | The row the walker is at is the row the reader's counters are at: sub-image row j lands in image row y, and its pixels in the columns of the pass. |
| `ImageWalker.ReadRow` | Thirdparty/libpng/pngread.c:383-616 | The packed scanline at the reader's counters. |
| `ImageWalker.PassRead` | Thirdparty/libpng/pngrutil.c:4343-4386 | When the walker leaves a pass, the reader stands at the next one. |
| `ImageWalker.PassSkipped` | Thirdparty/libpng/pngread.c:3302-3304 | A pass without columns is skipped by walker and reader alike. |
| `ImageWalker.WalkRow` | Thirdparty/libpng/pngread.c:3326-3370 | The pointer loop over one row blends exactly the columns of the pass and never reads past the packed scanline. |
| `ImageWalker.WalkPass` | Thirdparty/libpng/pngread.c:3297-3371 | The row loop of one pass. |
| `ImageWalker.BlendPixel` | Thirdparty/libpng/pngread.c:3337-3367 | The component loop on one pixel, with its three alpha cases. |
| `ImageWalker.AcceptedIsUsable` | Thirdparty/libpng/pngread.c:4116-4160 | Sizes that pass the 32-bit checks give rows that do not overlap and a buffer whose byte size fits in 32 bits. |
| `ImageWalker.AcceptedIff` | Thirdparty/libpng/pngread.c:4116-4160 | The checks pass exactly when a row fits in 31 bits, the stride is at least a row, and the byte size fits in 32 bits. |
| `ImageWalker.AddressLayout` | Thirdparty/libpng/pngread.c:4040-4059 | Components are next to each other, pixels one after the other, rows a stride apart, and the lowest row in memory starts the buffer, for either stride sign. |
| `ImageWalker.AddressInBounds` | Thirdparty/libpng/pngread.c:4040-4059 | Every component lies inside height * abs(row_stride), for either stride sign. |
| `ImageWalker.AddressInjective` | Thirdparty/libpng/pngread.c:4040-4059 | Different components have different places. |
| `ImageWalker.PaintedAt` | Thirdparty/libpng/pngread.c:3337-3367 | Painting a pixel changes its own components and nothing else. |
| `ImageWalker.PixelStep` | Thirdparty/libpng/pngread.c:3335-3370 | A step of stepx adds exactly one pixel to the walk. |
| `ImageWalker.RowStep` | Thirdparty/libpng/pngread.c:3320-3331 | A step of stepy skips no pixel of the pass. |
| `ImageWalker.PassStep` | Thirdparty/libpng/pngread.c:3295-3318 | A finished pass leaves nothing of it behind. |
| `ImageWalker.EmptyPassStep` | Thirdparty/libpng/pngread.c:3302-3304 | Skipping a pass without columns skips no pixel. |
| `FixedPoint.Muldiv` | Thirdparty/libpng/png.c:3348-3461 | The integer branch, for every triple of 32-bit arguments and wrapping words: success, failure and value are those of the rounded rational; and exactly when a signed operation in it overflows. |
| `FixedPoint.Product` | Thirdparty/libpng/png.c:3394-3409 | The pair of words is the exact 64-bit product of the magnitudes; only the intended carry wraps. |
| `FixedPoint.CarryLimbs` | Thirdparty/libpng/png.c:3402-3409 | The middle limb is added without loss. |
| `FixedPoint.TrialSubtract` | Thirdparty/libpng/png.c:3430-3438 | The two-word comparison and subtraction with borrow. |
| `FixedPoint.ShiftDivisor` | Thirdparty/libpng/png.c:3422-3428 | The two words are divisor << bitshift, also for bitshift 0. |
| `FixedPoint.Divide` | Thirdparty/libpng/png.c:3411-3439 | The shift-subtract loop gives floor(P/D) and P mod D, and its signed additions overflow exactly when the quotient reaches 2^31. |
| `FixedPoint.Finish` | Thirdparty/libpng/png.c:3441-3454 | Rounding, negation and sign test: what is accepted, with which value, and when a signed operation overflows. |
| `FixedPoint.SignCheck` | Thirdparty/libpng/png.c:3441-3454 | The sign tests accept exactly the values that fit, and 2^32. |
| `FixedPoint.RoundedError` | Thirdparty/libpng/png.c:3441-3443 | The rounded quotient is off by less than a half unit downwards and at most (D+1)/2 upwards. |
| `FixedPoint.NearestIff` | Thirdparty/libpng/png.c:3334-3338 | The promised nearest integer is returned exactly when the divisor is even or the remainder is not floor(D/2). |
| `FixedPoint.RoundingCounterexample` | Thirdparty/libpng/png.c:3334-3338 | 3*1/1 gives 4 and 1*4/3 gives 2. |
| `FixedPoint.FailsExactlyOnOverflow` | Thirdparty/libpng/png.c:3334-3338 | Failure is reported exactly when the rounded value does not fit, unless the increment wraps. |
| `FixedPoint.IncrementWrapsCounterexample` | Thirdparty/libpng/png.c:3441-3454 | 65535*65537/1 reports success with 0. |
| `FixedPoint.MulDivNonNegative` | Thirdparty/libpng/png.c:3348-3461 | Non-negative arguments whose quotient fits: success, with a two-sided error bound. |
| `FixedPoint.ReciprocalBound` | Thirdparty/libpng/png.c:3487-3503 | The reciprocal of any value of at least 5 exists, is at most 2*10^9, and is within (a+1)/2 of exact. |
| `Chromaticity.XyzFromXyTotal` | Thirdparty/libpng/png.c:1275-1539 | For every input: none of its own subtractions overflows, no internal error, and on success nine non-negative values whose grand total fits. |
| `Chromaticity.XyzFromXyIff` | Thirdparty/libpng/png.c:1275-1539 | Exactly when the conversion succeeds, and its nine values, as rounded quotients of integers: chromaticities in the triangle, both inverse scales positive, fitting and above whitey, blue scale positive. |
| `Chromaticity.InverseWordOverflows` | Thirdparty/libpng/png.c:1486-1493 | Accepted chromaticities for which the signed word inside png_muldiv overflows in the red inverse. |
| `Chromaticity.XyzFromXySolves` | Thirdparty/libpng/png.c:1295-1538 | On success the nine values solve the white-point equations within explicit rounding: determinants within 8/7, inverse scales within half a unit, scales adding up to 1/whitey, every component its chromaticity times its scale. |
| `Chromaticity.WeightsMixToWhite` | Thirdparty/libpng/png.c:1295-1450 | Cramer's rule: the three determinants are the weights with which the end points mix to white. |
| `Chromaticity.DeterminantBound` | Thirdparty/libpng/png.c:1444-1450 | A determinant of points of the chromaticity triangle is at most 10^10 in size. |
| `Chromaticity.DeterminantsFit` | Thirdparty/libpng/png.c:1471-1500 | None of the three differences overflows and none of the six divisions fails. |
| `Chromaticity.InversesExceedWhite` | Thirdparty/libpng/png.c:1480-1502 | The two inverse scales are rejected or exceed whitey. |
| `Chromaticity.ReciprocalAntitone` | Thirdparty/libpng/png.c:1504-1510 | A larger value has no larger a reciprocal, up to one unit. |
| `Chromaticity.BlueScaleFits` | Thirdparty/libpng/png.c:1504-1510 | Both subtractions of the blue scale fit. |
| `Chromaticity.EndPointFits` | Thirdparty/libpng/png.c:1514-1536 | The three components exist, are non-negative, near exact, and add up to the scale within three units. |
| `Chromaticity.AssembleTotal` | Thirdparty/libpng/png.c:1507-1538 | The nine results together. |
| `Chromaticity.XyFromTameXyz` | Thirdparty/libpng/png.c:1232-1273 | On such values no sum overflows; it succeeds exactly when no end point is black, and every result is its quotient, white included. |
| `Chromaticity.CheckXyTotal` | Thirdparty/libpng/png.c:1617-1638 | The check returns only 0 or 1, and on 0 the values map back within 5. |
| `Chromaticity.CheckXyIff` | Thirdparty/libpng/png.c:1617-1638 | Chromaticities are accepted exactly when they convert, no end point is black, and the eight projected quotients are within 5 of them. |
| `Chromaticity.MatchIsSlip` | Thirdparty/libpng/png.c:1591-1605 | End points match exactly when the largest of the eight differences is at most delta. |
| `Chromaticity.CheckXyzIff` | Thirdparty/libpng/png.c:1643-1659 | End points are accepted exactly when they can be normalised and projected and the chromaticities pass the check; these are the result. |
| `Luminance.CheckedIsBright` | Thirdparty/libpng/png.c:1617-1638 | Whatever passes the check has non-negative Y values with a total of at least 2. |
| `Luminance.BrightWhite` | Thirdparty/libpng/png.c:1630-1637 | With whitey above 5 the round trip within 5 forces it. |
| `Luminance.BlueScaleLarge` | Thirdparty/libpng/png.c:1507-1510 | With whitey 5, a blue scale that is positive is at least 200000: 1/5 - 1/u - 1/v has a gap above 0. |
| `Luminance.DarkOnAxis` | Thirdparty/libpng/png.c:1474-1502 | With whitey 5 and blue on the axis, dark red and green end points contradict Cramer's rule. |
| `Luminance.GrandTotal` | Thirdparty/libpng/png.c:1504-1538 | The nine values together reach the reciprocal of whitey, less five. |
| `Chromaticity.NormalizeOverflowIff` | Thirdparty/libpng/png.c:1551-1562 | The signed addition overflows exactly when the X values pass the guards and the Y values do not fit. |
| `Chromaticity.NormalizeOverflowCounterexample` | Thirdparty/libpng/png.c:1551-1562 | red Y = 2^31-1, green Y = 1 overflows. |
| `Chromaticity.XyFromXyzOverflowIff` | Thirdparty/libpng/png.c:1232-1273 | On non-negative values the conversion overflows exactly when a sum that is reached does not fit; a black end point ends it before. |
| `Chromaticity.CheckXyzOverflowIff` | Thirdparty/libpng/png.c:1643-1659 | The whole check overflows exactly when the normalisation does or a sum of the normalised end points does, and never reports an internal error. |
| `Chromaticity.SumsOverflowCounterexample` | Thirdparty/libpng/png.c:1232-1240 | End points with a Y total of 1.0 whose first sum overflows. |
| `Chromaticity.NormalizeScales` | Thirdparty/libpng/png.c:1541-1589 | Every one of the nine values is divided by the sum of the Y values, within rounding, except exactly where the increment of png_muldiv wraps and gives 0. |
| `Chromaticity.NormalizeLosesX` | Thirdparty/libpng/png.c:1564-1586 | An X value of 6828998 over a Y total of 159 becomes 0. |
| `Chromaticity.NormalizeTotal` | Thirdparty/libpng/png.c:1541-1589 | The normalised Y values add up to 1.0 within one unit, or two above when the total was at most 3, and nothing is negative. |
| `ColorSpace.RunKeepsInv` | Thirdparty/libpng/png.c:1069-1957 | Over every sequence of setter calls, ICC profiles included: a recorded gamma is in 16..625000000, the sRGB-match flag is exact, stored chromaticities pass the check, stored XYZ map back to them within 5 and have a Y total of at least 2, and the flags imply each other. |
| `ColorSpace.StepKeepsInv` | Thirdparty/libpng/png.c:1069-1957 | One call of any setter keeps that invariant. |
| `ColorSpace.InvalidFreezes` | Thirdparty/libpng/png.c:1671-1717 | INVALID is never cleared and freezes gamma and end points over every further run. |
| `ColorSpace.GammaHistory` | Thirdparty/libpng/png.c:1069-1166 | Over every run from a fresh colour space a recorded gamma is the argument of the last accepted gAMA call, or 45455 from sRGB information accepted later. |
| `ColorSpace.StepGamma` | Thirdparty/libpng/png.c:1069-1957 | Which calls set gamma, and to what; all others leave it. |
| `ColorSpace.OnlyEndpointsOverflow` | Thirdparty/libpng/png.c:1719-1781 | A run is defined exactly when no call passes XYZ end points that overflow; every other setter is total. |
| `ColorSpace.SRGBConsistent` | Thirdparty/libpng/png.c:1872-1957 | The built-in sRGB XYZ values map back to the built-in sRGB chromaticities. |
| `ColorSpace.SRGBAccepted` | Thirdparty/libpng/png.c:1617-1638 | The sRGB chromaticities pass the check, with the nine values they convert to. |
| `ColorSpace.SRGBStoredFromFresh` | Thirdparty/libpng/png.c:1719-1754 | A fresh colour space stores them. |
| `ColorSpace.ReciprocalKeepsGammaRange` | Thirdparty/libpng/png.c:3487-3503 | png_reciprocal maps the gamma range into itself. |
| `ColorSpace.Colorspace.constructor` | Thirdparty/libpng/pngstruct.h:102-140 | A new colour space is valid and says nothing. |
| `ColorSpace.Colorspace.SetGamma` | Thirdparty/libpng/png.c:1069-1166 | gAMA is stored exactly when it is in range, not a second one while reading, the space is not INVALID, and its ratio to the gamma of sRGB is within the threshold; otherwise gamma is unchanged; when INVALID is set. |
| `ColorSpace.Colorspace.SetXyAndXyz` | Thirdparty/libpng/png.c:1671-1717 | New state and return code, written out: nothing when INVALID, INVALID for a slip above 100 unless forced, kept, or stored with the comparison with sRGB. |
| `ColorSpace.Colorspace.SetChromaticities` | Thirdparty/libpng/png.c:1719-1754 | Taken in this way when they pass the check, INVALID otherwise; the internal-error branch is dead. |
| `ColorSpace.Colorspace.SetEndpoints` | Thirdparty/libpng/png.c:1756-1781 | Taken in this way when they can be normalised, projected and checked, INVALID otherwise; and exactly when normalising or adding them up overflows. |
| `ColorSpace.Colorspace.SetSRGB` | Thirdparty/libpng/png.c:1872-1957 | Exactly when the sRGB values are stored, when INVALID is set, and that nothing else changes. |
| `ColorSpace.Colorspace.SetICC` | Thirdparty/libpng/png.c:2427-2464 | New state for a refused, an accepted and a known sRGB profile. |
| `ColorSpace.Colorspace.RgbCoefficients` | Thirdparty/libpng/png.c:2469-2530 | On any valid colour space neither png_error is reached, and the stored coefficients leave a non-negative blue share. |
| `ColorSpace.GrayNeverFails` | Thirdparty/libpng/png.c:2469-2530 | Over every run of setters from a fresh colour space the coefficients can be computed: both png_error calls are dead code. |
| `ColorSpace.CoefficientsExact` | Thirdparty/libpng/png.c:2469-2530 | The three gray coefficients are non-negative, add up to 32768 and are within two units of their shares. |
| `ColorSpace.CoefficientsIff` | Thirdparty/libpng/png.c:2469-2530 | On any three Y values both png_error calls are avoided exactly when they are non-negative and total at least 2 and below 2^31. |
| `ColorSpace.ComputeCoefficients` | Thirdparty/libpng/png.c:2478-2529 | On any Y values whose sum fits: it fails exactly where the specification does, and otherwise gives its red and green coefficients. |
| `ColorSpace.SharesSum` | Thirdparty/libpng/png.c:2478-2487 | The rounded shares add up to 32767, 32768 or 32769. |
| `ColorSpace.FixUpExact` | Thirdparty/libpng/png.c:2489-2514 | The fix-up makes the sum exact by changing one of the largest shares by one, and no other. |
| `FloatText.RecogniserIsGrammar` | Thirdparty/libpng/png.c:2836-2849 | Accepts exactly the strings that hold a number of the grammar up to the size or a NUL, and the three sign tests tell the truth about it. |
| `FloatText.CheckFpNumber` | Thirdparty/libpng/png.c:2711-2834 | The loop is the fold of the step function, from any state and index. |
| `FloatText.ScanResumes` | Thirdparty/libpng/png.c:2711-2834 | Parsing a prefix and resuming is parsing in one go. |
| `FloatText.BitsSimulate` | Thirdparty/libpng/png.c:2748-2826 | The flag word simulates a nine-phase automaton, sticky flags included. |
| `FloatText.DriveNumber` | Thirdparty/libpng/png.c:2711-2834 | Every number of the grammar is accepted with the right flags. |
| `FloatText.Decompose` | Thirdparty/libpng/png.c:2711-2834 | Everything read can be taken apart into the parts of the grammar. |
| `FloatText.ScanDrives` | Thirdparty/libpng/png.c:2711-2834 | The scan follows the automaton and stops where it must. |
| `FloatText.ScanStops` | Thirdparty/libpng/png.c:2836-2849 | The scan stops exactly behind the number. |
| `FloatText.SignTests` | Thirdparty/libpng/pngpriv.h:1933-1940 | The mask tests read the sign and zero flags. |
| `FixedText.AsciiFromFixed` | Thirdparty/libpng/png.c:3232-3304 | Writes the specified text and a NUL; fails exactly on a buffer of at most 12 characters. |
| `FixedText.SplitDigits` | Thirdparty/libpng/png.c:3253-3268 | Digits lowest first, their number, and the first non-zero one. |
| `FixedText.PutWhole` | Thirdparty/libpng/png.c:3272 | The whole part. |
| `FixedText.PutFraction` | Thirdparty/libpng/png.c:3273-3291 | Point, leading zeros, and digits down to the last non-zero one. |
| `FixedText.PrintedValue` | Thirdparty/libpng/png.c:3232-3304 | For every 32-bit value: the text is a number whose value is exactly fp/100000, without superfluous zeros, point or sign, in 1 to 12 characters. |
| `FixedText.PrintedAccepted` | Thirdparty/libpng/png.c:3232-3304 | The recogniser accepts it in the right sign class. |
| `FixedText.ScalFixedAccepted` | Thirdparty/libpng/pngset.c:526-550 | For positive sizes the string checks of png_set_sCAL_s never fail. |
| `FixedText.ScalAcceptsIff` | Thirdparty/libpng/pngset.c:446-452 | The string checks accept exactly the texts that hold a number without a minus sign. |
| `GammaTable.Build16to8Table` | Thirdparty/libpng/png.c:4048-4109 | As many writes as slots, all inside; the two-level lookup of every 16-bit value returns 257 times the least output whose corrected midpoint, scaled and rounded, its slot is not above, or 65535. |
| `GammaTable.WriteSlot` | Thirdparty/libpng/png.c:4098 | Slot number and table position determine each other: a write changes one slot. |
| `GammaTable.FillTo` | Thirdparty/libpng/png.c:4096-4108 | The inner loops, up to a boundary. |
| `GammaTable.RoundBound` | Thirdparty/libpng/png.c:4087-4094 | The boundary, computed without 32-bit wrap. |
| `GammaTable.BoundFits` | Thirdparty/libpng/png.c:4087-4094 | No wrap, and no boundary beyond the table. |
| `GammaTable.BoundIff` | Thirdparty/libpng/png.c:4087-4094 | A boundary is the first slot above the corrected midpoint between two outputs, scaled to the inputs and rounded to the nearest slot. |
| `GammaTable.StepIs` | Thirdparty/libpng/png.c:4085-4108 | The step function in these terms. |
| `GammaTable.LeastIs` | Thirdparty/libpng/png.c:4085-4101 | The step function is the least output whose boundary is above the slot. |
| `GammaTable.TableMonotone` | Thirdparty/libpng/png.c:4048-4109 | The table never decreases, whatever the boundaries. |
| `GammaTable.LookupReadsSlot` | Thirdparty/libpng/png.c:4252-4268 | The two-level lookup of iv reads slot iv >> shift. |
| `UnknownChunks.KeepList.SetKeepUnknownChunks` | Thirdparty/libpng/pngset.c:1371-1526 | Exactly the named settings change; when it fails and when the default changes; no duplicates, no default entries, within the allocation. |
| `UnknownChunks.KeepList.HandleAsUnknown` | Thirdparty/libpng/png.c:924-956 | The backward scan returns the last setting of a name over the whole history, 0 if there was none. |
| `UnknownChunks.KeepList.Update` | Thirdparty/libpng/pngset.c:1442-1526 | The list part: copy, add, compact. |
| `UnknownChunks.KeepList.constructor` | Thirdparty/libpng/png.c:924-956 | No settings at the start. |
| `UnknownChunks.UpdateSets` | Thirdparty/libpng/pngset.c:1474-1512 | Adding names and compacting changes exactly their settings. |
| `UnknownChunks.AddOneSets` | Thirdparty/libpng/pngset.c:1343-1369 | Adding one name changes that setting alone and grows the list by at most one. |
| `UnknownChunks.AddAllSets` | Thirdparty/libpng/pngset.c:1485-1489 | The same for a list of names, with repetitions. |
| `UnknownChunks.CompactKeepsSettings` | Thirdparty/libpng/pngset.c:1491-1502 | Compaction changes no setting. |
| `UnknownChunks.AddOneChunk` | Thirdparty/libpng/pngset.c:1343-1369 | The in-place update or append on the byte array. |
| `UnknownChunks.CompactList` | Thirdparty/libpng/pngset.c:1491-1502 | The in-place compaction of five-byte entries, read and written in the same array. |
| `UnknownChunks.AddChunks` | Thirdparty/libpng/pngset.c:1485-1489 | The loop over the caller's names never leaves the allocation. |
| `UnknownChunks.NamesAt` | Thirdparty/libpng/pngset.c:1485-1489 | Name i of a caller's list is the four bytes from 5 i on. |
| `Keyword.CheckKeyword` | Thirdparty/libpng/pngset.c:1725-1800 | For every input: the output is the words of the input joined by single spaces, cut at 79, and the return value is its length. |
| `Keyword.CutPass` | Thirdparty/libpng/pngset.c:1743-1776 | The single pass with its pending-space flag computes that. |
| `Keyword.PassIsJoin` | Thirdparty/libpng/pngset.c:1743-1766 | The pass is the joined words with at most one space behind. |
| `Keyword.NormalIsLegal` | Thirdparty/libpng/pngset.c:1725-1800 | Every output is a legal keyword or empty. |
| `Keyword.MarksKept` | Thirdparty/libpng/pngset.c:1743-1776 | No printable character is lost, moved or joined to another one, unless the keyword is cut at 79. |
| `Keyword.LegalUnchanged` | Thirdparty/libpng/pngset.c:1725-1800 | Every legal keyword is returned unchanged. |
| `Keyword.NormalIdempotent` | Thirdparty/libpng/pngset.c:1725-1800 | So the check is idempotent. |
| `Composite.FormsAgree` | Thirdparty/libpng/png.h:2510-2534 | The 8-bit forms with and without division agree for all inputs; no temporary wraps. |
| `Composite.FormsAgree16` | Thirdparty/libpng/png.h:2519-2540 | The 16-bit forms agree; no temporary wraps. |
| `Composite.CompositeMeaning` | Thirdparty/libpng/png.h:2510-2517 | The nearest integer to the weighted mean, between background and foreground, equal to them at the two alpha extremes. |
| `Composite.CompositeMeaning16` | Thirdparty/libpng/png.h:2519-2526 | The same in 16 bits. |
| `Composite.Div257Rounds` | Thirdparty/libpng/pngpriv.h:734-735 | Division by 257 rounded to nearest on 0..65535. |

## Left out

- Kernel, applications, C library and tools of CubikOS: hardware access, declarations and short loops.
- zlib and crc32: parameters of the model; crc32 is any byte-wise fold. Inside the chunk framer inflate is a byte-wise fold too.
- PushSpec.FeedIDAT: inflate is a fold by assumption there; RowStream.FoldIsProcess says exactly when that is so on a stream without errors.
- RowStream.ReadRows: the calls for the rows are made after the framer's run, in their order, since only they touch the rows; the framer's own test for the end of the zlib stream is its decoder's.
- RowStream.IdatRows.ProcessIdatData: the row buffer is a sequence, its bytes are not unfiltered or transformed, the truncation of the buffer length to uInt is left out, and a benign error returns.
- The bodies of the chunk handlers in pngrutil.c, all of pngrtran.c and the writer.
- The `PNG_FLOATING_ARITHMETIC_SUPPORTED` branches, the float printer and the log/exp tables: the integer branches are modelled, and gamma correction is any function into 16 bits.
- `png_process_data_pause` and `png_process_data_skip`: a pause inside a row callback zeroes buffer_size while png_push_read_IDAT still subtracts from it.
- IDAT on the keep-unknown list, and the mode flags of png_struct that only chunk handlers read.
- Memory exhaustion: allocations succeed, except that the size check in front of the save buffer's growth is modelled.
- Null pointers of the API, except for the keyword.
- PushReader.Run: the two-part buffer is modelled with unbounded sizes, except for the save buffer's own overflow check.
- PushReader.Reader.SaveBuffer: a current buffer within 256 bytes of the whole address space, for which the source's own overflow check wraps, counts as a failure.
- ColorSpace.RunKeepsInv: says nothing about a run in which XYZ end points overflow; a gamma written directly by the transformations of pngrtran.c and by the simplified reader is outside it.
- ColorSpace.Colorspace.SetICC: the checks of an ICC profile and the comparison with the known sRGB profiles are an argument.
- ColorSpace.Colorspace.SetEndpoints: claims nothing about the state after a signed overflow, which C leaves undefined.
- FixedPoint.Muldiv: where a signed operation overflows, which C leaves undefined, the value is the one of wrapping words; the contract says exactly where that is (MulDivUndefined).
- FixedText.AsciiFromFixed: the negation of -2^31 is taken as 2^31.
- RowSchedule.SequentialRows.FinishRow: png_read_finish_IDAT is a flag.
- RowSchedule.PushRows.ProcessImage: row contents are not modelled, only which callback is made and whether it carries a row.
- ImageWalker.ReadComposite: blending through the sRGB tables is any function; the walkers png_image_read_background and png_image_read_and_map have the same loops and are not repeated.
- ImageWalker.AcceptedIsUsable: assumes a width and height of at least 1, which IHDR checking ensures; a width and stride of 0 would divide by zero.
- Keyword.CheckKeyword: warnings about bad characters and truncation are not modelled.
- FixedText.ScalFixedAccepted: the unit check and the storing of the strings are left out.
- png_free_data ownership, plain getters and setters, message formatting, stdio.
