/** The framing of a PNG byte stream (signature, chunk headers, chunk bodies and
    IDAT data) as a machine that eats one byte at a time. Chunk handlers, inflate
    and the CRC are parameters: any functions will do. */
module PushSpec {
  import opened Arithmetic

  /** What the framer calls into. D is everything else the reader remembers; None
      is a png_error. */
  datatype Decoder<!D> = Decoder(
    handle: (D, seq<byte>, seq<byte>, seq<byte>) -> Option<D>,  // name, data, stored CRC
    inflate: (D, byte) -> Option<D>,
    ended: D -> bool,                                           // PNG_FLAG_ZSTREAM_ENDED
    haveIHDR: D -> bool,
    missingPLTE: D -> bool,
    headerAccepted: (D, seq<byte>, nat) -> bool,                // name and length checks
    info: D -> D,
    end: D -> D,
    crcInit: int,
    crcStep: (int, byte) -> int,
    crcAccepted: (int, seq<byte>) -> bool)

  /** process_mode */
  datatype Mode = ReadSig | ReadChunk | ReadIDAT | ReadDone

  /** The framer's fields of png_struct, and a record of all IDAT data so far. */
  datatype Core<D> = Core(
    mode: Mode,
    sigBytes: nat,
    haveHeader: bool,
    name: seq<byte>,
    length: nat,
    idatLeft: nat,
    crc: int,
    haveIDAT: bool,
    afterIDAT: bool,
    chunkAfterIDAT: bool,
    idat: seq<byte>,
    d: D)

  /** Failed is absorbing. `acc` holds bytes that wait for more. */
  datatype Spec<D> = Failed | Running(core: Core<D>, acc: seq<byte>)

  const SIGNATURE: seq<byte> := [137, 80, 78, 71, 13, 10, 26, 10]
  const IHDR: seq<byte> := [73, 72, 68, 82]
  const IDAT: seq<byte> := [73, 68, 65, 84]
  const IEND: seq<byte> := [73, 69, 78, 68]
  const UINT_31_MAX: nat := 0x7fff_ffff

  function BigEndian(b: seq<byte>): nat
    requires |b| == 4
  {
    var b0: int, b1: int, b2: int, b3: int := b[0], b[1], b[2], b[3];
    b0 * 0x100_0000 + b1 * 0x1_0000 + b2 * 0x100 + b3
  }

  function CrcAll<D>(dec: Decoder<D>, crc: int, bytes: seq<byte>): int
    decreases |bytes|
  {
    if bytes == [] then crc else CrcAll(dec, dec.crcStep(crc, bytes[0]), bytes[1..])
  }

  function InflateAll<D>(dec: Decoder<D>, d: D, bytes: seq<byte>): Option<D>
    decreases |bytes|
  {
    if bytes == [] then Some(d)
    else
      match dec.inflate(d, bytes[0])
      case None => None
      case Some(d') => InflateAll(dec, d', bytes[1..])
  }

  /** The bytes a state needs before it can do anything. */
  function Need<D>(core: Core<D>): (n: nat)
    ensures n >= 1
  {
    match core.mode
    case ReadSig => 1
    case ReadDone => 1
    case ReadChunk =>
      if !core.haveHeader then 8
      else if core.name == IHDR && core.length != 13 then 1
      else core.length + 4
    case ReadIDAT =>
      if !core.haveHeader then 8
      else if core.idatLeft > 0 then 1
      else 4
  }

  /** The length, name and CRC of a chunk header. */
  function WithHeader<D>(dec: Decoder<D>, core: Core<D>, h: seq<byte>): Core<D>
    requires |h| == 8
  {
    core.(haveHeader := true, length := BigEndian(h[..4]), name := h[4..],
          crc := CrcAll(dec, dec.crcInit, h[4..]))
  }

  /** An IDAT header met outside IDAT mode. */
  function StartIDAT<D>(dec: Decoder<D>, core: Core<D>): Spec<D> {
    var c := core.(chunkAfterIDAT := core.chunkAfterIDAT || core.afterIDAT);
    if !dec.haveIHDR(c.d) || dec.missingPLTE(c.d) then Failed
    else if c.haveIDAT && !c.chunkAfterIDAT && c.length == 0 then Running(c.(mode := ReadIDAT), [])
    else Running(c.(mode := ReadIDAT, haveIDAT := true, idatLeft := c.length, d := dec.info(c.d)), [])
  }

  function FireHeader<D>(dec: Decoder<D>, core: Core<D>, h: seq<byte>): Spec<D>
    requires |h| == 8
  {
    var c := WithHeader(dec, core, h);
    if c.length > UINT_31_MAX then Failed
    else if core.mode == ReadIDAT then
      if c.name == IDAT then Running(c.(idatLeft := c.length), [])
      else if dec.ended(c.d) then Running(c.(mode := ReadChunk), [])
      else Failed
    else if !dec.headerAccepted(c.d, c.name, c.length) then Failed
    else if c.name == IDAT then StartIDAT(dec, c)
    else if c.name == IHDR && c.length != 13 then Failed
    else Running(c, [])
  }

  function FireChunk<D>(dec: Decoder<D>, core: Core<D>, data: seq<byte>, stored: seq<byte>): Spec<D> {
    match dec.handle(core.d, core.name, data, stored)
    case None => Failed
    case Some(d') =>
      if core.name == IEND then Running(core.(d := dec.end(d'), mode := ReadDone, haveHeader := false), [])
      else Running(core.(d := d', haveHeader := false), [])
  }

  function FireSig<D>(core: Core<D>, b: byte): Spec<D> {
    if core.sigBytes < 8 && b == SIGNATURE[core.sigBytes]
    then Running(core.(sigBytes := core.sigBytes + 1,
                       mode := if core.sigBytes == 7 then ReadChunk else ReadSig), [])
    else Failed
  }

  function FireIDAT<D>(dec: Decoder<D>, core: Core<D>, b: byte): Spec<D>
    requires core.idatLeft > 0
  {
    match dec.inflate(core.d, b)
    case None => Failed
    case Some(d') =>
      Running(core.(d := d', crc := dec.crcStep(core.crc, b), idatLeft := core.idatLeft - 1,
                    idat := core.idat + [b]), [])
  }

  function FireCrc<D>(dec: Decoder<D>, core: Core<D>, stored: seq<byte>): Spec<D> {
    if dec.crcAccepted(core.crc, stored) then Running(core.(haveHeader := false, afterIDAT := true), [])
    else Failed
  }

  /** What happens when a state has the bytes it needs. */
  function Fire<D>(dec: Decoder<D>, core: Core<D>, p: seq<byte>): Spec<D>
    requires |p| == Need(core)
  {
    match core.mode
    case ReadSig => FireSig(core, p[0])
    case ReadDone => Running(core, [])
    case ReadChunk =>
      if !core.haveHeader then FireHeader(dec, core, p)
      else if core.name == IHDR && core.length != 13 then Failed
      else FireChunk(dec, core, p[..core.length], p[core.length..])
    case ReadIDAT =>
      if !core.haveHeader then FireHeader(dec, core, p)
      else if core.idatLeft > 0 then FireIDAT(dec, core, p[0])
      else FireCrc(dec, core, p)
  }

  function Eat<D>(dec: Decoder<D>, s: Spec<D>, b: byte): Spec<D> {
    match s
    case Failed => Failed
    case Running(core, acc) =>
      if |acc| + 1 == Need(core) then Fire(dec, core, acc + [b]) else Running(core, acc + [b])
  }

  /** Feeding a byte string to the machine, one byte after the other. */
  function Feed<D>(dec: Decoder<D>, s: Spec<D>, bytes: seq<byte>): Spec<D>
    decreases |bytes|
  {
    if bytes == [] then s else Feed(dec, Eat(dec, s, bytes[0]), bytes[1..])
  }

  // ---------------------------------------------------------------- properties

  /** A signature count never exceeds 8, and an IDAT header is never left waiting
      outside IDAT mode. */
  predicate Sane<D>(core: Core<D>) {
    && (core.mode == ReadSig ==> core.sigBytes <= 8 && !core.haveHeader)
    && (core.mode == ReadChunk && core.haveHeader ==> core.name != IDAT)
  }

  lemma FireKeepsSane<D>(dec: Decoder<D>, core: Core<D>, p: seq<byte>)
    requires Sane(core) && |p| == Need(core) && Fire(dec, core, p).Running?
    ensures Sane(Fire(dec, core, p).core) && Fire(dec, core, p).acc == []
    ensures !(core.mode == ReadIDAT && core.haveHeader) ==> Fire(dec, core, p).core.idat == core.idat
  {
    if core.mode in {ReadChunk, ReadIDAT} && !core.haveHeader {
      HeaderKeepsSane(dec, core, p);
    }
  }

  lemma HeaderKeepsSane<D>(dec: Decoder<D>, core: Core<D>, h: seq<byte>)
    requires core.mode in {ReadChunk, ReadIDAT} && |h| == 8 && FireHeader(dec, core, h).Running?
    ensures Sane(FireHeader(dec, core, h).core) && FireHeader(dec, core, h).acc == []
    ensures var c := FireHeader(dec, core, h).core;
      && c.haveHeader && c.mode in {ReadChunk, ReadIDAT} && c.idat == core.idat
      && (core.mode == c.mode == ReadChunk ==> !(c.name == IHDR && c.length != 13))
  {
    var c := WithHeader(dec, core, h);
    if core.mode == ReadIDAT {
      assert c.name != IDAT ==> FireHeader(dec, core, h) == Running(c.(mode := ReadChunk), []);
    } else if c.name == IDAT {
      assert StartIDAT(dec, c).core.mode == ReadIDAT;
    } else {
      assert FireHeader(dec, core, h) == Running(c, []);
    }
  }

  /** The three multi-byte steps. */
  lemma FireCases<D>(dec: Decoder<D>, core: Core<D>, p: seq<byte>)
    requires |p| == Need(core)
    ensures core.mode in {ReadChunk, ReadIDAT} && !core.haveHeader ==>
              |p| == 8 && Fire(dec, core, p) == FireHeader(dec, core, p)
    ensures core.mode == ReadChunk && core.haveHeader && !(core.name == IHDR && core.length != 13) ==>
              |p| == core.length + 4 && Fire(dec, core, p) == FireChunk(dec, core, p[..core.length], p[core.length..])
    ensures core.mode == ReadIDAT && core.haveHeader && core.idatLeft == 0 ==>
              Fire(dec, core, p) == FireCrc(dec, core, p)
  {
  }

  /** A second IHDR of the wrong length fails on the next byte. */
  lemma FeedBadIHDR<D>(dec: Decoder<D>, core: Core<D>, p: seq<byte>)
    requires core.mode == ReadChunk && core.haveHeader && core.name == IHDR && core.length != 13 && p != []
    ensures Feed(dec, Running(core, []), p) == Failed
  {
    assert Eat(dec, Running(core, []), p[0]) == Failed;
    FeedFailed(dec, p[1..]);
  }

  /** The needed bytes in front of others fire, and the rest is fed afterwards. */
  lemma FeedStep<D>(dec: Decoder<D>, core: Core<D>, p: seq<byte>, rest: seq<byte>)
    requires |p| == Need(core)
    ensures Feed(dec, Running(core, []), p + rest) == Feed(dec, Fire(dec, core, p), rest)
  {
    FeedFires(dec, core, p);
    FeedAppend(dec, Running(core, []), p, rest);
  }

  lemma {:induction false} FeedAppend<D>(dec: Decoder<D>, s: Spec<D>, a: seq<byte>, b: seq<byte>)
    ensures Feed(dec, s, a + b) == Feed(dec, Feed(dec, s, a), b)
    decreases |a|
  {
    if a == [] {
      assert a + b == b;
    } else {
      assert (a + b)[1..] == a[1..] + b;
      FeedAppend(dec, Eat(dec, s, a[0]), a[1..], b);
    }
  }

  lemma {:induction false} FeedFailed<D>(dec: Decoder<D>, b: seq<byte>)
    ensures Feed(dec, Failed, b) == Failed
  {
    if b != [] {
      FeedFailed(dec, b[1..]);
    }
  }

  lemma {:induction false} FeedDone<D>(dec: Decoder<D>, core: Core<D>, b: seq<byte>)
    requires core.mode == ReadDone
    ensures Feed(dec, Running(core, []), b) == Running(core, [])
  {
    if b != [] {
      FeedDone(dec, core, b[1..]);
    }
  }

  /** Fewer bytes than needed just wait. */
  lemma {:induction false} FeedWaits<D>(dec: Decoder<D>, core: Core<D>, acc: seq<byte>, p: seq<byte>)
    requires |acc| + |p| < Need(core)
    ensures Feed(dec, Running(core, acc), p) == Running(core, acc + p)
    decreases |p|
  {
    if p == [] {
      assert acc + p == acc;
    } else {
      FeedWaits(dec, core, acc + [p[0]], p[1..]);
      assert acc + [p[0]] + p[1..] == acc + p;
    }
  }

  /** Exactly the needed bytes fire. */
  lemma FeedFires<D>(dec: Decoder<D>, core: Core<D>, p: seq<byte>)
    requires |p| == Need(core)
    ensures Feed(dec, Running(core, []), p) == Fire(dec, core, p)
  {
    var n := |p| - 1;
    FeedWaits(dec, core, [], p[..n]);
    assert p == p[..n] + p[n..] && [] + p[..n] == p[..n];
    FeedAppend(dec, Running(core, []), p[..n], p[n..]);
    assert p[n..][1..] == [];
    assert p[..n] + [p[n]] == p;
  }

  /** A run of signature bytes is compared as a whole. */
  lemma {:induction false} FeedSig<D>(dec: Decoder<D>, core: Core<D>, p: seq<byte>)
    requires core.mode == ReadSig && core.sigBytes + |p| <= 8 && 0 < |p|
    ensures Feed(dec, Running(core, []), p) ==
            if SigMatches(core.sigBytes, p)
            then Running(AfterSig(core, |p|), [])
            else Failed
    decreases |p|
  {
    var k := core.sigBytes;
    HeadAndTail(p, k);
    assert Feed(dec, Running(core, []), p) == Feed(dec, FireSig(core, p[0]), p[1..]);
    if p[0] != SIGNATURE[k] {
      FeedFailed(dec, p[1..]);
    } else if |p| > 1 {
      hide Feed, SigMatches;
      FeedSig(dec, AfterSig(core, 1), p[1..]);
    }
  }

  lemma HeadAndTail(p: seq<byte>, k: nat)
    requires 0 < |p| && k + |p| <= 8
    ensures SigMatches(k, p) <==> p[0] == SIGNATURE[k] && (|p| > 1 ==> SigMatches(k + 1, p[1..]))
  {
    var want := SIGNATURE[k..k + |p|];
    assert want == [SIGNATURE[k]] + want[1..] && p == [p[0]] + p[1..];
    assert want[1..] == SIGNATURE[k + 1..k + |p|];
  }

  /** png_sig_cmp on the bytes from `start` on: zero bytes never match. */
  predicate SigMatches(start: nat, bytes: seq<byte>) {
    bytes != [] && start + |bytes| <= 8 && bytes == SIGNATURE[start..start + |bytes|]
  }

  /** The state after n more matching signature bytes. */
  function AfterSig<D>(core: Core<D>, n: nat): Core<D> {
    core.(sigBytes := core.sigBytes + n,
          mode := if core.sigBytes + n == 8 then ReadChunk else ReadSig)
  }

  /** Signature bytes in front of others. A reader told that all eight were checked
      takes none of them and rejects the stream. */
  lemma FeedSigStep<D>(dec: Decoder<D>, core: Core<D>, p: seq<byte>, rest: seq<byte>)
    requires core.mode == ReadSig && core.sigBytes + |p| <= 8
    requires p == [] ==> core.sigBytes == 8 && rest != []
    ensures Feed(dec, Running(core, []), p + rest) ==
            if SigMatches(core.sigBytes, p)
            then Feed(dec, Running(AfterSig(core, |p|), []), rest)
            else Failed
    ensures SigMatches(core.sigBytes, p) ==> p != []
  {
    if p == [] {
      assert p + rest == rest && Eat(dec, Running(core, []), rest[0]) == Failed;
      FeedFailed(dec, rest[1..]);
    } else {
      FeedSig(dec, core, p);
      FeedAppend(dec, Running(core, []), p, rest);
      FeedFailed(dec, rest);
    }
  }

  /** A run of IDAT bytes goes through the CRC and inflate as a whole. */
  lemma {:induction false} FeedIDAT<D>(dec: Decoder<D>, core: Core<D>, p: seq<byte>)
    requires core.mode == ReadIDAT && core.haveHeader && |p| <= core.idatLeft
    ensures Feed(dec, Running(core, []), p) ==
            match InflateAll(dec, core.d, p)
            case None => Failed
            case Some(d') => Running(core.(d := d', crc := CrcAll(dec, core.crc, p),
                                           idatLeft := core.idatLeft - |p|, idat := core.idat + p), [])
    decreases |p|
  {
    if p != [] {
      var next := FireIDAT(dec, core, p[0]);
      assert Eat(dec, Running(core, []), p[0]) == next;
      if next.Failed? {
        FeedFailed(dec, p[1..]);
      } else {
        FeedIDAT(dec, next.core, p[1..]);
        assert (core.idat + [p[0]]) + p[1..] == core.idat + p;
      }
    }
  }

  lemma FeedIDATStep<D>(dec: Decoder<D>, core: Core<D>, p: seq<byte>, rest: seq<byte>)
    requires core.mode == ReadIDAT && core.haveHeader && |p| <= core.idatLeft
    ensures Feed(dec, Running(core, []), p + rest) ==
            match InflateAll(dec, core.d, p)
            case None => Failed
            case Some(d') => Feed(dec, Running(core.(d := d', crc := CrcAll(dec, core.crc, p),
                                                     idatLeft := core.idatLeft - |p|, idat := core.idat + p), []), rest)
  {
    FeedIDAT(dec, core, p);
    FeedAppend(dec, Running(core, []), p, rest);
    FeedFailed(dec, rest);
  }

  predicate NonEmpty(buffers: seq<seq<byte>>) {
    forall i :: 0 <= i < |buffers| ==> buffers[i] != []
  }

  lemma ConcatSnoc(buffers: seq<seq<byte>>, last: seq<byte>)
    ensures Concat(buffers + [last]) == Concat(buffers) + last
  {
    assert (buffers + [last])[..|buffers|] == buffers;
  }

  /** A sequence of buffers, one after the other. */
  function Concat(buffers: seq<seq<byte>>): seq<byte> {
    if buffers == [] then [] else Concat(buffers[..|buffers| - 1]) + buffers[|buffers| - 1]
  }
}
