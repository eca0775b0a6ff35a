/** What the byte-at-a-time machine does on a serialised list of chunks (sections 5.2
    and 5.3 of the PNG specification): exactly what handling the chunks one by one
    does, with the data of all IDAT chunks run through inflate in one piece. */
module PushChunks {
  import opened Arithmetic
  import opened PushSpec
  import opened PushReader

  datatype Chunk = Chunk(name: seq<byte>, data: seq<byte>, crc: seq<byte>)

  predicate WellFormed(c: Chunk) {
    |c.name| == 4 && |c.crc| == 4 && |c.data| <= UINT_31_MAX
  }

  function U32(n: nat): seq<byte>
    requires n <= UINT_31_MAX
  {
    [n / 0x100_0000, n / 0x1_0000 % 256, n / 0x100 % 256, n % 256]
  }

  function Encode(c: Chunk): seq<byte>
    requires WellFormed(c)
  {
    U32(|c.data|) + c.name + (c.data + c.crc)
  }

  function EncodeAll(cs: seq<Chunk>): seq<byte>
    requires forall c :: c in cs ==> WellFormed(c)
  {
    if cs == [] then [] else Encode(cs[0]) + EncodeAll(cs[1..])
  }

  /** Between two chunks. */
  predicate Boundary<D>(core: Core<D>) {
    && !core.haveHeader && core.mode in {ReadChunk, ReadIDAT}
    && (core.haveIDAT ==> core.afterIDAT)
  }

  /** A whole IDAT chunk. Outside IDAT mode it also starts the image data. */
  function IDATEffect<D>(dec: Decoder<D>, core: Core<D>, c: Chunk): Spec<D> {
    if core.mode == ReadChunk
       && (!dec.headerAccepted(core.d, IDAT, |c.data|) || !dec.haveIHDR(core.d) || dec.missingPLTE(core.d))
    then Failed
    else
      var d0 := if core.mode == ReadChunk then dec.info(core.d) else core.d;
      match InflateAll(dec, d0, c.data)
      case None => Failed
      case Some(d1) =>
        var crc := CrcAll(dec, dec.crcInit, IDAT + c.data);
        if !dec.crcAccepted(crc, c.crc) then Failed
        else Running(core.(
          mode := ReadIDAT, name := IDAT, length := |c.data|, idatLeft := 0, crc := crc,
          haveIDAT := core.haveIDAT || core.mode == ReadChunk, afterIDAT := true,
          chunkAfterIDAT := core.chunkAfterIDAT || (core.mode == ReadChunk && core.afterIDAT),
          idat := core.idat + c.data, d := d1), [])
  }

  /** Any other whole chunk. After IDAT data it needs the end of the zlib stream. */
  function OtherEffect<D>(dec: Decoder<D>, core: Core<D>, c: Chunk): Spec<D> {
    if core.mode == ReadIDAT && !dec.ended(core.d) then Failed
    else if core.mode == ReadChunk && !dec.headerAccepted(core.d, c.name, |c.data|) then Failed
    else if c.name == IHDR && |c.data| != 13 then Failed
    else
      FireChunk(dec,
        core.(mode := ReadChunk, haveHeader := true, name := c.name, length := |c.data|,
              crc := CrcAll(dec, dec.crcInit, c.name)),
        c.data, c.crc)
  }

  function Effect<D>(dec: Decoder<D>, core: Core<D>, c: Chunk): Spec<D> {
    if c.name == IDAT then IDATEffect(dec, core, c) else OtherEffect(dec, core, c)
  }

  /** Handling a list of chunks one by one; anything after IEND is ignored. */
  function Effects<D>(dec: Decoder<D>, s: Spec<D>, cs: seq<Chunk>): Spec<D>
    decreases |cs|
  {
    if cs == [] || s.Failed? || s.core.mode == ReadDone then s
    else Effects(dec, Effect(dec, s.core, cs[0]), cs[1..])
  }

  // ---------------------------------------------------------------- proofs

  /** The value of a byte string, most significant byte first. */
  function Positional(b: seq<byte>): nat {
    if b == [] then 0
    else
      var low: int := b[|b| - 1];
      256 * Positional(b[..|b| - 1]) + low
  }

  lemma PositionalIs(b: seq<byte>)
    requires |b| == 4
    ensures Positional(b) == BigEndian(b)
  {
    var b3, b2, b1, b0 := b[..3], b[..2], b[..1], b[..0];
    assert b3[..2] == b2 && b2[..1] == b1 && b1[..0] == b0;
    assert Positional(b1) == b[0] && Positional(b2) == 256 * Positional(b1) + b[1] as int;
  }

  lemma U32RoundTrip(n: nat)
    requires n <= UINT_31_MAX
    ensures |U32(n)| == 4 && BigEndian(U32(n)) == n
    ensures Positional(U32(n)) == n
  {
    PositionalIs(U32(n));
    var a := n / 256;
    var b := a / 256;
    assert n == 256 * a + n % 256 && a == 256 * b + a % 256 && b == 256 * (b / 256) + b % 256;
    assert n / 0x1_0000 == b && n / 0x100_0000 == b / 256;
  }

  lemma {:induction false} CrcAppend<D>(dec: Decoder<D>, crc: int, a: seq<byte>, b: seq<byte>)
    ensures CrcAll(dec, crc, a + b) == CrcAll(dec, CrcAll(dec, crc, a), b)
    decreases |a|
  {
    if a == [] {
      assert a + b == b;
    } else {
      assert (a + b)[1..] == a[1..] + b;
      CrcAppend(dec, dec.crcStep(crc, a[0]), a[1..], b);
    }
  }

  /** The layout of a chunk (section 5.3 of the PNG specification): four bytes of length, four of
      name, the data, four of CRC. */
  lemma EncodeLayout(c: Chunk)
    requires WellFormed(c)
    ensures var e, n := Encode(c), |c.data|;
      && |e| == n + 12 && Positional(e[..4]) == n && e[4..8] == c.name
      && e[8..8 + n] == c.data && e[8 + n..] == c.crc
  {
    U32RoundTrip(|c.data|);
    var e, n := Encode(c), |c.data|;
    assert e[..4] == U32(n);
  }

  /** The CRC and inflate take every byte, in order. */
  lemma FoldsTakeEveryByte<D>(dec: Decoder<D>, crc: int, d: D, bytes: seq<byte>, b: byte)
    ensures CrcAll(dec, crc, []) == crc
    ensures CrcAll(dec, crc, bytes + [b]) == dec.crcStep(CrcAll(dec, crc, bytes), b)
    ensures InflateAll(dec, d, []) == Some(d)
    ensures InflateAll(dec, d, bytes + [b]) ==
            match InflateAll(dec, d, bytes) { case None => None case Some(d') => dec.inflate(d', b) }
  {
    CrcAppend(dec, crc, bytes, [b]);
    InflateAppend(dec, d, bytes, [b]);
    assert [b][1..] == [];
  }

  /** The header bytes, as the machine decodes them. */
  function HeaderOf(c: Chunk): seq<byte>
    requires WellFormed(c)
  {
    U32(|c.data|) + c.name
  }

  lemma DecodesHeader<D>(dec: Decoder<D>, core: Core<D>, c: Chunk)
    requires WellFormed(c)
    ensures |HeaderOf(c)| == 8
    ensures WithHeader(dec, core, HeaderOf(c))
         == core.(haveHeader := true, length := |c.data|, name := c.name, crc := CrcAll(dec, dec.crcInit, c.name))
  {
    U32RoundTrip(|c.data|);
    assert HeaderOf(c)[..4] == U32(|c.data|) && HeaderOf(c)[4..] == c.name;
  }

  /** The state after the header of a chunk. */
  lemma FeedHeader<D>(dec: Decoder<D>, core: Core<D>, c: Chunk, rest: seq<byte>)
    requires Boundary(core) && WellFormed(c)
    ensures |HeaderOf(c)| == 8
    ensures Feed(dec, Running(core, []), HeaderOf(c) + rest)
         == Feed(dec, FireHeader(dec, core, HeaderOf(c)), rest)
  {
    hide Feed;
    DecodesHeader(dec, core, c);
    FeedStep(dec, core, HeaderOf(c), rest);
    FireCases(dec, core, HeaderOf(c));
  }

  /** IDAT data and CRC, from the state after the header. */
  lemma FeedIDATBody<D>(dec: Decoder<D>, core: Core<D>, c: Chunk)
    requires core.mode == ReadIDAT && core.haveHeader && WellFormed(c) && core.idatLeft == |c.data|
    ensures Feed(dec, Running(core, []), c.data + c.crc) ==
            match InflateAll(dec, core.d, c.data)
            case None => Failed
            case Some(d1) =>
              FireCrc(dec, core.(d := d1, crc := CrcAll(dec, core.crc, c.data), idatLeft := 0,
                                 idat := core.idat + c.data), c.crc)
  {
    hide Feed, Fire;
    FeedIDATStep(dec, core, c.data, c.crc);
    match InflateAll(dec, core.d, c.data)
    case None =>
    case Some(d1) =>
      var after := core.(d := d1, crc := CrcAll(dec, core.crc, c.data), idatLeft := 0, idat := core.idat + c.data);
      FeedFires(dec, after, c.crc);
      FireCases(dec, after, c.crc);
  }

  lemma FeedIDATChunk<D>(dec: Decoder<D>, core: Core<D>, c: Chunk)
    requires Boundary(core) && WellFormed(c) && c.name == IDAT
    ensures Feed(dec, Running(core, []), Encode(c)) == IDATEffect(dec, core, c)
  {
    hide Feed;
    FeedHeader(dec, core, c, c.data + c.crc);
    DecodesHeader(dec, core, c);
    var next := FireHeader(dec, core, HeaderOf(c));
    if next.Failed? {
      FeedFailed(dec, c.data + c.crc);
    } else {
      FeedIDATBody(dec, next.core, c);
      CrcAppend(dec, dec.crcInit, IDAT, c.data);
    }
  }

  lemma FeedOtherChunk<D>(dec: Decoder<D>, core: Core<D>, c: Chunk)
    requires Boundary(core) && WellFormed(c) && c.name != IDAT
    ensures Feed(dec, Running(core, []), Encode(c)) == OtherEffect(dec, core, c)
  {
    hide Feed, Fire;
    FeedHeader(dec, core, c, c.data + c.crc);
    DecodesHeader(dec, core, c);
    var next := FireHeader(dec, core, HeaderOf(c));
    var body := c.data + c.crc;
    if next.Failed? {
      FeedFailed(dec, body);
    } else if c.name == IHDR && |c.data| != 13 {
      FeedBadIHDR(dec, next.core, body);
    } else {
      FeedFires(dec, next.core, body);
      FireCases(dec, next.core, body);
      assert body[..|c.data|] == c.data && body[|c.data|..] == c.crc;
    }
  }

  /** Exactly when a header that the name and length checks refuse is rejected: the checks are
      made only outside IDAT mode, so behind image data that has ended such a chunk goes to its
      handler. */
  lemma UnacceptableHeader<D>(dec: Decoder<D>, core: Core<D>, c: Chunk)
    requires Boundary(core) && WellFormed(c) && c.name != IDAT
    requires !dec.headerAccepted(core.d, c.name, |c.data|)
    ensures Feed(dec, Running(core, []), Encode(c)).Failed? <==>
              || core.mode == ReadChunk || !dec.ended(core.d)
              || (c.name == IHDR && |c.data| != 13)
              || dec.handle(core.d, c.name, c.data, c.crc).None?
  {
    hide Feed;
    FeedOtherChunk(dec, core, c);
  }

  lemma EffectKeepsBoundary<D>(dec: Decoder<D>, core: Core<D>, c: Chunk)
    requires Boundary(core) && Effect(dec, core, c).Running?
    ensures Effect(dec, core, c).acc == []
    ensures var core' := Effect(dec, core, c).core;
      core'.mode == ReadDone || Boundary(core')
    ensures Effect(dec, core, c).core.mode == ReadDone ==> c.name == IEND
  {
  }

  /** The framing theorem: feeding serialised chunks, byte by byte, has exactly the
      effect of the chunks, for any list of chunks and any decoder. */
  lemma {:induction false} FeedChunks<D>(dec: Decoder<D>, core: Core<D>, cs: seq<Chunk>)
    requires Boundary(core) && forall c :: c in cs ==> WellFormed(c)
    ensures Feed(dec, Running(core, []), EncodeAll(cs)) == Effects(dec, Running(core, []), cs)
    decreases |cs|
  {
    if cs != [] {
      hide Feed, Effect;
      var c := cs[0];
      var rest := EncodeAll(cs[1..]);
      FeedAppend(dec, Running(core, []), Encode(c), rest);
      FeedOneChunk(dec, core, c);
      var next := Effect(dec, core, c);
      if next.Failed? {
        FeedFailed(dec, rest);
      } else {
        EffectKeepsBoundary(dec, core, c);
        if next.core.mode == ReadDone {
          FeedDone(dec, next.core, rest);
        } else {
          FeedChunks(dec, next.core, cs[1..]);
        }
      }
    } else {
      assert EncodeAll(cs) == [];
    }
  }

  /** The data of a list of chunks. */
  function DataOf(cs: seq<Chunk>): seq<byte> {
    if cs == [] then [] else cs[0].data + DataOf(cs[1..])
  }

  /** IDAT chunks whose CRC is accepted. */
  predicate IntactIDAT<D>(dec: Decoder<D>, cs: seq<Chunk>) {
    forall c :: c in cs ==> c.name == IDAT && dec.crcAccepted(CrcAll(dec, dec.crcInit, IDAT + c.data), c.crc)
  }

  lemma {:induction false} InflateAppend<D>(dec: Decoder<D>, d: D, a: seq<byte>, b: seq<byte>)
    ensures InflateAll(dec, d, a + b) ==
            match InflateAll(dec, d, a) { case None => None case Some(d') => InflateAll(dec, d', b) }
    decreases |a|
  {
    if a == [] {
      assert a + b == b;
    } else {
      assert (a + b)[1..] == a[1..] + b;
      match dec.inflate(d, a[0])
      case None =>
      case Some(d') => InflateAppend(dec, d', a[1..], b);
    }
  }

  /** The data of successive IDAT chunks goes through inflate in one piece, wherever the
      chunk boundaries are. */
  lemma {:induction false} ImageDataInOnePiece<D>(dec: Decoder<D>, core: Core<D>, cs: seq<Chunk>)
    requires core.mode == ReadIDAT && IntactIDAT(dec, cs)
    ensures var s := Effects(dec, Running(core, []), cs);
      match InflateAll(dec, core.d, DataOf(cs))
      case None => s.Failed?
      case Some(d) => s.Running? && s.acc == [] && s.core.d == d && s.core.mode == ReadIDAT
    decreases |cs|
  {
    if cs != [] {
      hide InflateAll, CrcAll;
      var next := IDATEffect(dec, core, cs[0]);
      InflateAppend(dec, core.d, cs[0].data, DataOf(cs[1..]));
      if next.Running? {
        ImageDataInOnePiece(dec, next.core, cs[1..]);
      } else {
        assert Effects(dec, next, cs[1..]).Failed?;
      }
    } else {
      assert InflateAll(dec, core.d, []) == Some(core.d);
    }
  }

  /** The data of all IDAT chunks in front of IEND. */
  function IdatOf(cs: seq<Chunk>): seq<byte> {
    if cs == [] || cs[0].name == IEND then []
    else (if cs[0].name == IDAT then cs[0].data else []) + IdatOf(cs[1..])
  }

  /** A list of chunks that is read without an error has had the data of all its IDAT chunks
      inflated, and nothing else. */
  lemma {:induction false} EffectsCollect<D>(dec: Decoder<D>, s: Spec<D>, cs: seq<Chunk>)
    requires s.Running? && Effects(dec, s, cs).Running?
    ensures Effects(dec, s, cs).core.idat == s.core.idat + if s.core.mode == ReadDone then [] else IdatOf(cs)
    decreases |cs|
  {
    if cs != [] && s.core.mode != ReadDone {
      var next := Effect(dec, s.core, cs[0]);
      EffectCollects(dec, s.core, cs[0]);
      assert next.Running?;
      EffectsCollect(dec, next, cs[1..]);
      if cs[0].name != IEND {
        var one := if cs[0].name == IDAT then cs[0].data else [];
        assert (s.core.idat + one) + IdatOf(cs[1..]) == s.core.idat + (one + IdatOf(cs[1..]));
      }
    }
  }

  lemma EffectCollects<D>(dec: Decoder<D>, core: Core<D>, c: Chunk)
    requires Effect(dec, core, c).Running? && core.mode != ReadDone
    ensures var core' := Effect(dec, core, c).core;
      && core'.idat == core.idat + (if c.name == IDAT then c.data else [])
      && (core'.mode == ReadDone <==> c.name == IEND)
  {
  }

  lemma FeedOneChunk<D>(dec: Decoder<D>, core: Core<D>, c: Chunk)
    requires Boundary(core) && WellFormed(c)
    ensures Feed(dec, Running(core, []), Encode(c)) == Effect(dec, core, c)
  {
    if c.name == IDAT {
      FeedIDATChunk(dec, core, c);
    } else {
      FeedOtherChunk(dec, core, c);
    }
  }

  // ---------------------------------------------------------------- what becomes of the decoder

  /** What reading chunks comes to for the decoder, on its own: image data is inflated and its CRC
      checked, after `info` where it starts; every other chunk is handled, with what the handler
      has made of the decoder kept; IEND ends it. `image`: was the chunk before this one IDAT? */
  function Decoded<D>(dec: Decoder<D>, d: D, image: bool, cs: seq<Chunk>): Option<D>
    decreases |cs|
  {
    if cs == [] then Some(d)
    else
      var c, rest := cs[0], cs[1..];
      if c.name == IDAT then
        if !image && !(dec.headerAccepted(d, IDAT, |c.data|) && dec.haveIHDR(d) && !dec.missingPLTE(d)) then None
        else
          match InflateAll(dec, if image then d else dec.info(d), c.data)
          case None => None
          case Some(d') =>
            if dec.crcAccepted(CrcAll(dec, dec.crcInit, IDAT + c.data), c.crc) then Decoded(dec, d', true, rest)
            else None
      else if (if image then !dec.ended(d) else !dec.headerAccepted(d, c.name, |c.data|)) then None
      else if c.name == IHDR && |c.data| != 13 then None
      else
        match dec.handle(d, c.name, c.data, c.crc)
        case None => None
        case Some(d') => if c.name == IEND then Some(dec.end(d')) else Decoded(dec, d', false, rest)
  }

  /** A chunk that is not image data: what its handler has done is kept. */
  lemma HandlerKept<D>(dec: Decoder<D>, core: Core<D>, c: Chunk)
    requires Boundary(core) && WellFormed(c) && c.name != IDAT
    ensures var s := Feed(dec, Running(core, []), Encode(c));
      s.Running? ==>
        && dec.handle(core.d, c.name, c.data, c.crc).Some?
        && var d := dec.handle(core.d, c.name, c.data, c.crc).value;
        s.core.d == if c.name == IEND then dec.end(d) else d
  {
    hide Feed;
    FeedOtherChunk(dec, core, c);
  }

  /** Reading chunks, seen from the decoder: it fails exactly when that fold does, and ends with
      the same decoder. */
  lemma {:induction false} EffectsDecode<D>(dec: Decoder<D>, core: Core<D>, cs: seq<Chunk>)
    requires Boundary(core)
    ensures var s, r := Effects(dec, Running(core, []), cs), Decoded(dec, core.d, core.mode == ReadIDAT, cs);
      (s.Running? <==> r.Some?) && (s.Running? ==> s.core.d == r.value)
    decreases |cs|
  {
    if cs != [] {
      hide InflateAll, CrcAll;
      var next := Effect(dec, core, cs[0]);
      if next.Running? {
        EffectKeepsBoundary(dec, core, cs[0]);
        assert next == Running(next.core, []);
        if next.core.mode == ReadDone {
          assert Effects(dec, next, cs[1..]) == next;
        } else {
          NotTheEnd(dec, core, cs[0]);
          EffectsDecode(dec, next.core, cs[1..]);
        }
      } else {
        assert Effects(dec, next, cs[1..]).Failed?;
      }
    }
  }

  lemma NotTheEnd<D>(dec: Decoder<D>, core: Core<D>, c: Chunk)
    requires Boundary(core) && Effect(dec, core, c).Running? && Effect(dec, core, c).core.mode != ReadDone
    ensures c.name != IEND
    ensures Effect(dec, core, c).core.mode == if c.name == IDAT then ReadIDAT else ReadChunk
  {
  }

  /** A length above 2^31 - 1 is rejected with its header. */
  lemma LongChunkRejected<D>(dec: Decoder<D>, core: Core<D>, h: seq<byte>)
    requires Boundary(core) && |h| == 8 && Positional(h[..4]) > 0x7fff_ffff
    ensures Feed(dec, Running(core, []), h).Failed?
  {
    hide Feed;
    FeedFires(dec, core, h);
    FireCases(dec, core, h);
    PositionalIs(h[..4]);
  }

  /** A byte that differs from the signature rejects the stream, whatever follows. */
  lemma BadSignature<D>(dec: Decoder<D>, core: Core<D>, p: seq<byte>, rest: seq<byte>, i: nat)
    requires core.mode == ReadSig && i < |p| && core.sigBytes + |p| <= 8
    requires p[i] != [137, 80, 78, 71, 13, 10, 26, 10][core.sigBytes + i]
    ensures Feed(dec, Running(core, []), p + rest).Failed?
  {
    hide Feed;
    FeedSigStep(dec, core, p, rest);
    assert SIGNATURE[core.sigBytes..core.sigBytes + |p|][i] == SIGNATURE[core.sigBytes + i];
  }

  /** A reader told that all eight signature bytes have been checked rejects every
      stream at its first byte. */
  lemma AllCheckedRejects<D>(dec: Decoder<D>, core: Core<D>, bytes: seq<byte>)
    requires core.mode == ReadSig && core.sigBytes == 8
    ensures Feed(dec, Running(core, []), bytes) == if bytes == [] then Running(core, []) else Failed
  {
    if bytes != [] {
      FeedSigStep(dec, core, [], bytes);
      assert [] + bytes == bytes;
    }
  }

  /** What a whole file does to a reader that takes the first n signature bytes as
      checked and is fed the rest. */
  function FileEffect<D>(dec: Decoder<D>, core: Core<D>, cs: seq<Chunk>): Spec<D> {
    if core.sigBytes < 8 then Effects(dec, Running(core.(mode := ReadChunk, sigBytes := 8), []), cs)
    else if cs == [] then Running(core, [])
    else Failed
  }

  /** The framing theorem for a whole file, from any number of signature bytes on. */
  lemma FeedFile<D>(dec: Decoder<D>, core: Core<D>, cs: seq<Chunk>)
    requires core.mode == ReadSig && core.sigBytes <= 8 && !core.haveHeader && !core.haveIDAT
    requires forall c :: c in cs ==> WellFormed(c)
    ensures Feed(dec, Running(core, []), SIGNATURE[core.sigBytes..] + EncodeAll(cs)) == FileEffect(dec, core, cs)
  {
    hide Feed;
    var sig, rest := SIGNATURE[core.sigBytes..], EncodeAll(cs);
    if core.sigBytes < 8 {
      assert sig == SIGNATURE[core.sigBytes..core.sigBytes + |sig|];
      FeedSigStep(dec, core, sig, rest);
      FeedChunks(dec, core.(mode := ReadChunk, sigBytes := 8), cs);
    } else {
      assert sig == [] && sig + rest == rest;
      if cs != [] {
        EncodeNonEmpty(cs[0]);
      }
      AllCheckedRejects(dec, core, rest);
    }
  }

  /** A decoder that accepts only IDAT headers. */
  function OnlyIDAT(): Decoder<int> {
    Decoder((d, _, _, _) => Some(d), (d, _) => Some(d), _ => true, _ => true, _ => false,
            (_, name, _) => name == IDAT, d => d, d => d, 0, (_, _) => 0, (_, _) => true)
  }

  /** A chunk whose header it refuses is read behind image data, and rejected elsewhere. */
  lemma UncheckedHeader()
    ensures var dec, core := OnlyIDAT(), InitialCore(0, 0);
      var idat, bad := Chunk(IDAT, [], [0, 0, 0, 0]), Chunk([0, 0, 0, 0], [], [0, 0, 0, 0]);
      FileEffect(dec, core, [idat, bad]).Running? && FileEffect(dec, core, [bad]).Failed?
  {
    var dec, core := OnlyIDAT(), InitialCore(0, 0).(mode := ReadChunk, sigBytes := 8);
    var idat, bad := Chunk(IDAT, [], [0, 0, 0, 0]), Chunk([0, 0, 0, 0], [], [0, 0, 0, 0]);
    assert [idat, bad][1..] == [bad] && [bad][1..] == [];
    var next := Effect(dec, core, idat);
    assert next.Running? && next.core.mode == ReadIDAT;
    var last, refused := Effect(dec, next.core, bad), Effect(dec, core, bad);
    assert last.Running? && refused.Failed?;
    assert Effects(dec, last, []) == last && Effects(dec, refused, []) == refused;
    assert Effects(dec, next, [bad]) == last;
    assert Effects(dec, Running(core, []), [bad]) == refused;
  }

  lemma EncodeNonEmpty(c: Chunk)
    requires WellFormed(c)
    ensures Encode(c) != []
  {
    assert |Encode(c)| == |U32(|c.data|)| + |c.name| + |c.data| + |c.crc|;
  }

  /** The whole reader: a file of any chunks, cut into buffers in any way behind any
      number of signature bytes, is read as exactly these chunks, and the buffers handed to
      png_process_IDAT_data are together the data of its IDAT chunks. */
  method ReadFile<D>(dec: Decoder<D>, d: D, sigBytes: nat, buffers: seq<seq<byte>>, ghost cs: seq<Chunk>)
    returns (r: Reader<D>)
    requires sigBytes <= 8 && forall c :: c in cs ==> WellFormed(c)
    requires Concat(buffers) == SIGNATURE[sigBytes..] + EncodeAll(cs)
    ensures r.Valid()
    ensures !r.exhausted ==> r.View() == FileEffect(dec, InitialCore(d, sigBytes), cs)
    ensures !r.exhausted && !r.failed ==> NonEmpty(r.handed) && Concat(r.handed) == IdatOf(cs)
    ensures !r.exhausted && sigBytes < 8 ==>
              && (r.failed <==> Decoded(dec, d, false, cs).None?)
              && (!r.failed ==> r.core.d == Decoded(dec, d, false, cs).value)
  {
    hide Feed, Effects, Decoded;
    r := Run(dec, d, sigBytes, buffers);
    FeedFile(dec, InitialCore(d, sigBytes), cs);
    FileCollects(dec, d, sigBytes, cs);
    if sigBytes < 8 {
      EffectsDecode(dec, InitialCore(d, sigBytes).(mode := ReadChunk, sigBytes := 8), cs);
    }
    if !r.failed {
      assert Concat(r.handed) == r.View().core.idat;
    }
  }

  lemma FileCollects<D>(dec: Decoder<D>, d: D, sigBytes: nat, cs: seq<Chunk>)
    requires sigBytes <= 8
    ensures var s := FileEffect(dec, InitialCore(d, sigBytes), cs);
      s.Running? ==> s.core.idat == IdatOf(cs)
  {
    var core := InitialCore(d, sigBytes);
    var s := FileEffect(dec, core, cs);
    if s.Running? && sigBytes < 8 {
      EffectsCollect(dec, Running(core.(mode := ReadChunk, sigBytes := 8), []), cs);
      assert [] + IdatOf(cs) == IdatOf(cs);
    }
  }
}
