/** Compressed records, after src/compress.rs. The LZ4 codec itself is a parameter. */
module Compress {
  import opened Wrappers
  import opened Format
  import opened Crc

  datatype Compression = Off | Lz4

  function FromU8(v: byte): Compression { if v == 1 then Lz4 else Off }
  function AsU8(c: Compression): byte { if c == Lz4 then 1 else 0 }

  /** A block codec: compress, and decompress given the original length. */
  datatype Codec = Codec(compress: seq<byte> -> seq<byte>, decompress: (seq<byte>, nat) -> Option<seq<byte>>)

  /** Decompression undoes compression, and compressed data is never empty. */
  ghost predicate Lossless(codec: Codec) {
    forall x: seq<byte> :: |codec.compress(x)| > 0 && codec.decompress(codec.compress(x), |x|) == Some(x)
  }

  const HEADER_SIZE: nat := 20
  const MAX_RECORD_BLOCKS: nat := 32
  const HEADER_MAGIC: seq<byte> := [76, 70, 67, 49]

  datatype RecordHeader = RecordHeader(algo: Compression, logicalBlocks: nat, payloadLen: nat, uncompressedLen: nat, crc: nat)

  function BlocksFor(bytes: nat): nat { (bytes + 4095) / 4096 }

  function PhysBlocks(h: RecordHeader): nat { BlocksFor(HEADER_SIZE + h.payloadLen) }

  function EncodeHeader(h: RecordHeader): (buf: seq<byte>)
    ensures |buf| == HEADER_SIZE
  {
    HEADER_MAGIC + [AsU8(h.algo), 0] + U16Bytes(h.logicalBlocks)
    + U32Bytes(h.payloadLen) + U32Bytes(h.uncompressedLen) + U32Bytes(h.crc)
  }

  /** The plausibility tests of `RecordHeader::parse`. */
  predicate Plausible(h: RecordHeader) {
    && 0 < h.logicalBlocks <= MAX_RECORD_BLOCKS
    && 0 < h.uncompressedLen <= h.logicalBlocks * 4096
    && 0 < h.payloadLen < h.uncompressedLen
    && PhysBlocks(h) <= h.logicalBlocks
  }

  function ParseHeader(block: seq<byte>): Option<RecordHeader> {
    if |block| < HEADER_SIZE || block[..4] != HEADER_MAGIC || block[4] != 1 then None
    else
      var h := RecordHeader(Lz4, GetU16(block, 6), GetU32(block, 8), GetU32(block, 12), GetU32(block, 16));
      if Plausible(h) then Some(h) else None
  }

  /** A plausible header reads back from the front of any buffer that starts with it. */
  lemma HeaderRoundTrip(h: RecordHeader, rest: seq<byte>)
    requires Plausible(h) && h.algo == Lz4 && h.crc < U32
    ensures ParseHeader(EncodeHeader(h) + rest) == Some(h)
  {
    var e := EncodeHeader(h);
    var b := e + rest;
    assert b[..4] == HEADER_MAGIC && b[4] == 1;
    assert b[6..8] == e[6..8] == U16Bytes(h.logicalBlocks);
    assert b[8..12] == e[8..12] == U32Bytes(h.payloadLen);
    assert b[12..16] == e[12..16] == U32Bytes(h.uncompressedLen);
    assert b[16..20] == e[16..20] == U32Bytes(h.crc);
    U16At(b, 6, h.logicalBlocks);
    U32At(b, 8, h.payloadLen);
    U32At(b, 12, h.uncompressedLen);
    U32At(b, 16, h.crc);
  }

  predicate SavesABlock(uncompressed: nat, compressed: nat) { HEADER_SIZE + compressed + 4096 <= uncompressed }

  /** The algorithm to store `src` with and its payload, or `Off` when that would save no block. */
  function TryCompress(codec: Codec, algo: Compression, src: seq<byte>): (r: (Compression, seq<byte>))
    ensures r.0 == Lz4 ==> algo == Lz4 && r.1 == codec.compress(src) && SavesABlock(|src|, |r.1|)
    ensures r.0 == Off ==> r.1 == []
  {
    if algo.Off? || |src| < 2 * 4096 then (Off, [])
    else
      assert algo.Lz4?;
      var payload := codec.compress(src);
      if SavesABlock(|src|, |payload|) then (Lz4, payload) else (Off, [])
  }

  function PayloadCrc(payload: seq<byte>): nat { Crc32(payload) }

  function HeaderOf(algo: Compression, payload: seq<byte>, uncompressed: nat): RecordHeader {
    RecordHeader(algo, BlocksFor(uncompressed), |payload|, uncompressed, PayloadCrc(payload))
  }

  /** Header and payload, padded to whole blocks. */
  function Pack(payload: seq<byte>, uncompressed: nat): (raw: seq<byte>)
    ensures |raw| == PhysBlocks(HeaderOf(Lz4, payload, uncompressed)) * 4096
  {
    var h := HeaderOf(Lz4, payload, uncompressed);
    EncodeHeader(h) + payload + Zeros(PhysBlocks(h) * 4096 - HEADER_SIZE - |payload|)
  }

  /** What `read_compressed_extent` makes of the blocks of a record. */
  function Unpack(codec: Codec, raw: seq<byte>): Result<seq<byte>> {
    var parsed := ParseHeader(raw);
    if parsed.None? then Err(EIO)
    else
      var h := parsed.value;
      var end := HEADER_SIZE + h.payloadLen;
      if end > |raw| then Err(EIO)
      else if PayloadCrc(raw[HEADER_SIZE..end]) != h.crc then Err(EIO)
      else
        match codec.decompress(raw[HEADER_SIZE..end], h.uncompressedLen)
        case None => Err(EIO)
        case Some(data) => Ok(data)
  }

  lemma WorthwhileIsPlausible(payload: seq<byte>, uncompressed: nat)
    requires |payload| > 0 && SavesABlock(uncompressed, |payload|) && uncompressed <= MAX_RECORD_BLOCKS * 4096
    ensures var h := HeaderOf(Lz4, payload, uncompressed);
      Plausible(h) && h.crc < U32 && 0 < PhysBlocks(h) < BlocksFor(uncompressed)
  {
    Crc32Bound(payload);
  }

  lemma PackParts(payload: seq<byte>, uncompressed: nat)
    requires |payload| > 0 && SavesABlock(uncompressed, |payload|) && uncompressed <= MAX_RECORD_BLOCKS * 4096
    ensures var raw := Pack(payload, uncompressed);
      && ParseHeader(raw) == Some(HeaderOf(Lz4, payload, uncompressed))
      && HEADER_SIZE + |payload| <= |raw| && raw[HEADER_SIZE..HEADER_SIZE + |payload|] == payload
  {
    var h := HeaderOf(Lz4, payload, uncompressed);
    WorthwhileIsPlausible(payload, uncompressed);
    var pad := Zeros(PhysBlocks(h) * 4096 - HEADER_SIZE - |payload|);
    var raw := Pack(payload, uncompressed);
    assert raw == EncodeHeader(h) + (payload + pad);
    HeaderRoundTrip(h, payload + pad);
  }

  lemma UnpackOk(codec: Codec, raw: seq<byte>, h: RecordHeader, payload: seq<byte>, data: seq<byte>)
    requires ParseHeader(raw) == Some(h) && h.payloadLen == |payload| && HEADER_SIZE + |payload| <= |raw|
    requires raw[HEADER_SIZE..HEADER_SIZE + |payload|] == payload && h.crc == PayloadCrc(payload)
    requires codec.decompress(payload, h.uncompressedLen) == Some(data)
    ensures Unpack(codec, raw) == Ok(data)
  {
  }

  /** A record that was worth compressing reads back exactly, and takes fewer blocks than its data. */
  lemma PackRoundTrip(codec: Codec, data: seq<byte>)
    requires Lossless(codec) && |data| <= MAX_RECORD_BLOCKS * 4096
    requires TryCompress(codec, Lz4, data).0 == Lz4
    ensures var payload := TryCompress(codec, Lz4, data).1;
      && Unpack(codec, Pack(payload, |data|)) == Ok(data)
      && 0 < PhysBlocks(HeaderOf(Lz4, payload, |data|)) < BlocksFor(|data|)
  {
    var payload := TryCompress(codec, Lz4, data).1;
    assert |codec.compress(data)| > 0 && codec.decompress(codec.compress(data), |data|) == Some(data);
    WorthwhileIsPlausible(payload, |data|);
    PackParts(payload, |data|);
    UnpackOk(codec, Pack(payload, |data|), HeaderOf(Lz4, payload, |data|), payload, data);
  }

  /** A record is packed exactly when that is asked for, it has two blocks or more, and packing it saves one. */
  lemma PackedIff(codec: Codec, algo: Compression, src: seq<byte>)
    ensures TryCompress(codec, algo, src).0 == Lz4 <==> algo == Lz4 && |src| >= 8192 && 20 + |codec.compress(src)| + 4096 <= |src|
  {
  }

  /** Any bytes: which are taken for a header, and what it says. */
  lemma HeaderIff(block: seq<byte>, h: RecordHeader)
    ensures ParseHeader(block) == Some(h) <==> (
      && |block| >= 20 && block[..4] == [76, 70, 67, 49] && block[4] == 1 && h.algo == Lz4
      && GetU16(block, 6) == h.logicalBlocks && GetU32(block, 8) == h.payloadLen
      && GetU32(block, 12) == h.uncompressedLen && GetU32(block, 16) == h.crc
      && 1 <= h.logicalBlocks <= 32 && 0 < h.payloadLen < h.uncompressedLen <= h.logicalBlocks * 4096
      && 20 + h.payloadLen <= h.logicalBlocks * 4096)
  {
    hide GetU16, GetU32;
  }

  /** A packed record with up to four consecutive bytes of its payload changed is an error. */
  lemma PayloadBurst(codec: Codec, a: seq<byte>, u: seq<byte>, v: seq<byte>, b: seq<byte>, uncompressed: nat, raw: seq<byte>)
    requires |u| == |v| <= 4 && u != v && uncompressed <= MAX_RECORD_BLOCKS * 4096
    requires |a + u + b| > 0 && SavesABlock(uncompressed, |a + u + b|)
    requires |raw| == |Pack(a + u + b, uncompressed)| && raw[..20] == Pack(a + u + b, uncompressed)[..20]
    requires 20 + |a + v + b| <= |raw| && raw[20..20 + |a + v + b|] == a + v + b
    ensures Unpack(codec, raw) == Err(EIO)
  {
    hide Crc32, Plausible;
    var payload := a + u + b;
    var h := HeaderOf(Lz4, payload, uncompressed);
    WorthwhileIsPlausible(payload, uncompressed);
    assert raw == EncodeHeader(h) + raw[20..] by { assert Pack(payload, uncompressed)[..20] == EncodeHeader(h); }
    HeaderRoundTrip(h, raw[20..]);
    BurstDetected(a, u, v, b);
  }
}
