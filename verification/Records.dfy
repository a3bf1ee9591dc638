/** The bytes of a file's records, as the extent map and the disk give them. */
module Records {
  import opened Wrappers
  import opened Format
  import opened Store
  import opened Cache
  import opened Compress
  import opened Extents

  // --- record arithmetic ----------------------------------------------------------

  /** The first logical block of record `rec`, of `rb` blocks. */
  function RecStart(rb: nat, rec: nat): nat { rec * rb }

  function RecBytes(rb: nat): (r: nat)
    ensures rb > 0 ==> r > 0
  {
    rb * 4096
  }

  lemma DivBasics(x: nat, r: nat)
    requires r > 0
    ensures x / r >= 0 && x == (x / r) * r + x % r && 0 <= x % r < r
  {
  }

  function RecIndex(rb: nat, pos: nat): nat
    requires rb > 0
  {
    DivBasics(pos, RecBytes(rb));
    pos / RecBytes(rb)
  }

  function RecWithin(rb: nat, pos: nat): (w: nat)
    requires rb > 0
    ensures w < RecBytes(rb)
  {
    DivBasics(pos, RecBytes(rb));
    pos % RecBytes(rb)
  }

  lemma MulMono(a: nat, b: nat, rb: nat)
    requires a <= b
    ensures a * rb <= b * rb
  {
  }

  lemma MulLess(a: nat, b: nat, rb: nat)
    requires a < b
    ensures a * rb + rb <= b * rb
  {
    MulMono(a + 1, b, rb);
    assert (a + 1) * rb == a * rb + rb;
  }

  lemma RecStartBytes(rb: nat, rec: nat)
    ensures rec * RecBytes(rb) == RecStart(rb, rec) * 4096
  {
  }

  /** A byte position split by records is the same position split by blocks. */
  lemma PosInRecord(rb: nat, pos: nat)
    requires rb > 0
    ensures var rec, w := RecIndex(rb, pos), RecWithin(rb, pos);
      && pos == RecStart(rb, rec) * 4096 + w
      && pos / 4096 == RecStart(rb, rec) + w / 4096
      && pos % 4096 == w % 4096
      && w / 4096 < rb
  {
    DivBasics(pos, RecBytes(rb));
    RecStartBytes(rb, RecIndex(rb, pos));
  }

  lemma QuotientUnique(x: nat, r: nat, q: nat, m: nat)
    requires r > 0 && m < r && x == q * r + m
    ensures x / r == q && x % r == m
  {
    DivBasics(x, r);
    var k := x / r;
    if k < q { MulLess(k, q, r); } else if q < k { MulLess(q, k, r); }
  }

  /** A position is determined by its record and its place in it. */
  lemma RecordOfPos(rb: nat, rec: nat, w: nat)
    requires rb > 0 && w < RecBytes(rb)
    ensures var pos := RecStart(rb, rec) * 4096 + w; RecIndex(rb, pos) == rec && RecWithin(rb, pos) == w
  {
    RecStartBytes(rb, rec);
    QuotientUnique(RecStart(rb, rec) * 4096 + w, RecBytes(rb), rec, w);
  }

  lemma RecordsApart(rb: nat, rec: nat, other: nat, l: nat)
    requires rec != other && RecStart(rb, other) <= l < RecStart(rb, other) + rb
    ensures !(RecStart(rb, rec) <= l < RecStart(rb, rec) + rb)
  {
    if rec < other { MulLess(rec, other, rb); } else { MulLess(other, rec, rb); }
  }

  lemma AlignedAt(rb: nat, x: nat) returns (k: nat)
    requires rb > 0 && Aligned(x, rb)
    ensures x == RecStart(rb, k)
  {
    DivBasics(x, rb);
    k := x / rb;
  }

  lemma RecStartAligned(rb: nat, rec: nat)
    requires rb > 0
    ensures Aligned(RecStart(rb, rec), rb)
  {
    QuotientUnique(RecStart(rb, rec), rb, rec, 0);
  }

  /** A compressed extent that reaches into a record starts where that record does. */
  lemma PackedStartsRecord(rb: nat, e: Extent, rec: nat, l: nat)
    requires rb > 0 && SoundExtent(e, rb) && e.IsCompressed() && e.Contains(l)
    requires RecStart(rb, rec) <= l < RecStart(rb, rec) + rb
    ensures e.logical == RecStart(rb, rec)
  {
    var k := AlignedAt(rb, e.logical);
    if k != rec {
      if k < rec { MulLess(k, rec, rb); } else { MulLess(rec, k, rb); }
    }
  }

  lemma RecordCutsNone(exts: seq<Extent>, rb: nat, rec: nat)
    requires rb > 0 && Sound(exts, rb)
    ensures CutsNoRecord(exts, RecStart(rb, rec), RecStart(rb, rec) + rb)
  {
    var start := RecStart(rb, rec);
    forall e | e in exts && e.IsCompressed() && Meets(e, start, start + rb)
      ensures start <= e.logical && e.LogicalEnd() <= start + rb
    {
      var l := if e.logical < start then start else e.logical;
      PackedStartsRecord(rb, e, rec, l);
    }
  }

  lemma PackedAfter(rb: nat, e: Extent, rec: nat)
    requires rb > 0 && SoundExtent(e, rb) && e.IsCompressed() && e.LogicalEnd() > RecStart(rb, rec) + rb
    ensures e.logical >= RecStart(rb, rec) + rb
  {
    var k := AlignedAt(rb, e.logical);
    if k <= rec { MulMono(k, rec, rb); } else { MulLess(rec, k, rb); }
  }

  lemma TailCutsNone(exts: seq<Extent>, rb: nat, rec: nat, end: nat)
    requires rb > 0 && Sound(exts, rb) && forall e :: e in exts ==> e.LogicalEnd() <= end
    ensures CutsNoRecord(exts, RecStart(rb, rec) + rb, end)
  {
    var start := RecStart(rb, rec) + rb;
    forall e | e in exts && e.IsCompressed() && Meets(e, start, end) ensures start <= e.logical && e.LogicalEnd() <= end {
      assert SoundExtent(e, rb);
      PackedAfter(rb, e, rec);
    }
  }

  // --- what a file stores ---------------------------------------------------------

  /** The contents of `n` consecutive blocks. */
  function Gather(d: Disk, phys: nat, n: nat): (r: seq<byte>)
    ensures |r| == n * 4096
  {
    if n == 0 then [] else Gather(d, phys, n - 1) + d.At(phys + n - 1)
  }

  lemma {:induction false} GatherSame(d: Disk, c: Disk, phys: nat, n: nat)
    requires forall b: nat :: phys <= b < phys + n ==> d.At(b) == c.At(b)
    ensures Gather(d, phys, n) == Gather(c, phys, n)
  {
    if n > 0 { GatherSame(d, c, phys, n - 1); }
  }

  /** The data of a compressed record. */
  function RecordData(codec: Codec, d: Disk, e: Extent): Result<seq<byte>> {
    Unpack(codec, Gather(d, e.physical, if e.PhysLen() > 0 then e.PhysLen() else 1))
  }

  function ByteOr0(s: seq<byte>, i: nat): byte { if i < |s| then s[i] else 0 }

  /** Byte `w` of record `rec`, from the record's compressed form where it has one and else block by block. */
  function StoredByte(codec: Codec, exts: seq<Extent>, d: Disk, rb: nat, rec: nat, w: nat): byte {
    match SpotOf(exts, RecStart(rb, rec))
    case Packed(e) =>
      (match RecordData(codec, d, e)
       case Ok(data) => ByteOr0(data, w)
       case Err(_) => 0)
    case _ =>
      match SpotOf(exts, RecStart(rb, rec) + w / 4096)
      case Raw(p) => d.At(p)[w % 4096]
      case _ => 0
  }

  /** Every compressed record of the file unpacks. */
  ghost predicate Readable(codec: Codec, exts: seq<Extent>, d: Disk) {
    forall e :: e in exts && e.IsCompressed() ==> RecordData(codec, d, e).Ok?
  }

  ghost predicate AgreeOn(exts: seq<Extent>, d: Disk, c: Disk) {
    forall b: nat :: Owns(exts, b) ==> d.At(b) == c.At(b)
  }

  lemma RecordDataSame(codec: Codec, exts: seq<Extent>, d: Disk, c: Disk, rb: nat, e: Extent)
    requires rb > 0 && Sound(exts, rb) && AgreeOn(exts, d, c) && e in exts
    ensures RecordData(codec, d, e) == RecordData(codec, c, e)
  {
    assert SoundExtent(e, rb) && e.PhysLen() > 0;
    forall b: nat | e.physical <= b < e.physical + e.PhysLen() ensures d.At(b) == c.At(b) {
      assert e.Holds(b);
      assert Owns(exts, b);
    }
    GatherSame(d, c, e.physical, e.PhysLen());
  }

  /** A file's stored bytes depend only on the blocks it owns. */
  lemma StoredSame(codec: Codec, exts: seq<Extent>, d: Disk, c: Disk, rb: nat, rec: nat, w: nat)
    requires rb > 0 && Sound(exts, rb) && AgreeOn(exts, d, c)
    ensures StoredByte(codec, exts, d, rb, rec, w) == StoredByte(codec, exts, c, rb, rec, w)
  {
    hide RecordData, RecStart;
    var f := SpotFrom(exts, RecStart(rb, rec));
    if f.Some? { RecordDataSame(codec, exts, d, c, rb, f.value); }
    var g := SpotFrom(exts, RecStart(rb, rec) + w / 4096);
    if g.Some? && !g.value.IsCompressed() { SpotOwned(exts, rb, g.value, RecStart(rb, rec) + w / 4096); }
  }

  lemma SpotOwned(exts: seq<Extent>, rb: nat, e: Extent, l: nat)
    requires rb > 0 && Sound(exts, rb) && e in exts && e.Contains(l) && !e.IsCompressed()
    ensures Owns(exts, e.physical + (l - e.logical))
  {
    assert SoundExtent(e, rb) && e.Holds(e.physical + (l - e.logical));
  }

  lemma ReadableSame(codec: Codec, exts: seq<Extent>, d: Disk, c: Disk, rb: nat)
    requires rb > 0 && Sound(exts, rb) && AgreeOn(exts, d, c) && Readable(codec, exts, d)
    ensures Readable(codec, exts, c)
  {
    hide Unpack;
    forall e | e in exts && e.IsCompressed() ensures RecordData(codec, c, e).Ok? {
      RecordDataSame(codec, exts, d, c, rb, e);
    }
  }

  // --- writing one record ------------------------------------------------------------

  /** Block `i` of `data`, zero-padded. */
  function Chunk(data: seq<byte>, i: nat): Block {
    if i * 4096 >= |data| then Zeros(BLOCK_SIZE)
    else Resize(data[i * 4096..if (i + 1) * 4096 <= |data| then (i + 1) * 4096 else |data|], BLOCK_SIZE)
  }

  lemma ChunkByte(data: seq<byte>, w: nat)
    ensures Chunk(data, w / 4096)[w % 4096] == ByteOr0(data, w)
  {
    var i := w / 4096;
    assert w == i * 4096 + w % 4096;
  }

  lemma {:induction false} GatherChunks(d: Disk, phys: nat, n: nat, data: seq<byte>)
    requires n * 4096 <= |data|
    requires forall b: nat :: phys <= b < phys + n ==> d.At(b) == Chunk(data, b - phys)
    ensures Gather(d, phys, n) == data[..n * 4096]
  {
    if n > 0 {
      GatherChunks(d, phys, n - 1, data);
      var lo := (n - 1) * 4096;
      assert Chunk(data, n - 1) == data[lo..lo + 4096];
      assert data[..n * 4096] == data[..lo] + data[lo..lo + 4096];
    }
  }

  /** The extents after record `rec` is replaced by the single extent `e`. */
  function Replaced(exts: seq<Extent>, rb: nat, rec: nat, e: Extent): seq<Extent> {
    Added(Punched(exts, RecStart(rb, rec), RecStart(rb, rec) + rb), e)
  }

  ghost predicate Replaceable(exts: seq<Extent>, rb: nat, rec: nat, e: Extent)
    requires rb > 0
  {
    && Sound(exts, rb) && SoundExtent(e, rb)
    && e.logical == RecStart(rb, rec) && e.length <= rb
    && forall b: nat :: e.Holds(b) ==> !Owns(exts, b)
  }

  lemma ReplacedAddable(exts: seq<Extent>, rb: nat, rec: nat, e: Extent)
    requires rb > 0 && Replaceable(exts, rb, rec, e)
    ensures Addable(Punched(exts, RecStart(rb, rec), RecStart(rb, rec) + rb), e, rb)
  {
    var start, end := RecStart(rb, rec), RecStart(rb, rec) + rb;
    PunchedSound(exts, start, end, rb);
    RecordCutsNone(exts, rb, rec);
    forall l: nat | e.Contains(l) ensures SpotOf(Punched(exts, start, end), l) == Hole { PunchedSpot(exts, start, end, rb, l); }
    forall b: nat | e.Holds(b) ensures !Owns(Punched(exts, start, end), b) { PunchedOwns(exts, start, end, rb, b); }
  }

  /** Replacing a record updates the logical map at that record alone. */
  lemma ReplacedSpot(exts: seq<Extent>, rb: nat, rec: nat, e: Extent, l: nat)
    requires rb > 0 && Replaceable(exts, rb, rec, e)
    ensures SpotOf(Replaced(exts, rb, rec, e), l) ==
      if e.Contains(l) then SpotIn(e, l)
      else if RecStart(rb, rec) <= l < RecStart(rb, rec) + rb then Hole
      else SpotOf(exts, l)
  {
    hide RecStart, Added, Punched, Addable, CutsNoRecord, Sound, Owns, SpotOf;
    ReplacedAddable(exts, rb, rec, e);
    RecordCutsNone(exts, rb, rec);
    AddedSpot(Punched(exts, RecStart(rb, rec), RecStart(rb, rec) + rb), e, rb, l);
    PunchedSpot(exts, RecStart(rb, rec), RecStart(rb, rec) + rb, rb, l);
  }

  /** The disk holds `data` at extent `e`, packed or block by block. */
  ghost predicate HoldsData(codec: Codec, d: Disk, e: Extent, data: seq<byte>) {
    if e.IsCompressed() then RecordData(codec, d, e) == Ok(data)
    else |data| <= e.length * 4096 && forall i: nat :: i < e.length ==> d.At(e.physical + i) == Chunk(data, i)
  }

  lemma StoredElsewhere(codec: Codec, exts: seq<Extent>, after: seq<Extent>, d: Disk, c: Disk, rb: nat, rec: nat,
          r: nat, w: nat)
    requires rb > 0 && Sound(exts, rb) && AgreeOn(exts, d, c) && r != rec && w < RecBytes(rb)
    requires forall l: nat :: !(RecStart(rb, rec) <= l < RecStart(rb, rec) + rb) ==> SpotOf(after, l) == SpotOf(exts, l)
    ensures StoredByte(codec, after, c, rb, r, w) == StoredByte(codec, exts, d, rb, r, w)
  {
    hide RecordData;
    StoredSame(codec, exts, d, c, rb, r, w);
    RecordsApart(rb, rec, r, RecStart(rb, r));
    RecordsApart(rb, rec, r, RecStart(rb, r) + w / 4096);
  }

  lemma ReplacedHere(codec: Codec, after: seq<Extent>, c: Disk, rb: nat, rec: nat, e: Extent, data: seq<byte>, w: nat)
    requires rb > 0 && e.logical == RecStart(rb, rec) && 0 < e.length <= rb && w < RecBytes(rb)
    requires HoldsData(codec, c, e, data)
    requires SpotOf(after, RecStart(rb, rec)) == SpotIn(e, e.logical)
    requires SpotOf(after, RecStart(rb, rec) + w / 4096) ==
      if e.Contains(RecStart(rb, rec) + w / 4096) then SpotIn(e, RecStart(rb, rec) + w / 4096) else Hole
    ensures StoredByte(codec, after, c, rb, rec, w) == ByteOr0(data, w)
  {
    hide RecordData;
    if !e.IsCompressed() && w / 4096 < e.length {
      assert c.At(e.physical + w / 4096) == Chunk(data, w / 4096);
      ChunkByte(data, w);
    }
  }

  /** Storing a record changes the bytes of that record alone, to the data padded with zeros. */
  lemma ReplacedStored(codec: Codec, exts: seq<Extent>, d: Disk, c: Disk, rb: nat, rec: nat, e: Extent,
          data: seq<byte>, r: nat, w: nat)
    requires rb > 0 && Replaceable(exts, rb, rec, e) && AgreeOn(exts, d, c) && HoldsData(codec, c, e, data) && w < RecBytes(rb)
    ensures StoredByte(codec, Replaced(exts, rb, rec, e), c, rb, r, w) ==
      if r == rec then ByteOr0(data, w) else StoredByte(codec, exts, d, rb, r, w)
  {
    hide RecordData, Replaced, StoredByte;
    var after := Replaced(exts, rb, rec, e);
    if r != rec {
      forall l: nat | !(RecStart(rb, rec) <= l < RecStart(rb, rec) + rb) ensures SpotOf(after, l) == SpotOf(exts, l) {
        ReplacedSpot(exts, rb, rec, e, l);
      }
      StoredElsewhere(codec, exts, after, d, c, rb, rec, r, w);
    } else {
      ReplacedSpot(exts, rb, rec, e, RecStart(rb, rec));
      ReplacedSpot(exts, rb, rec, e, RecStart(rb, rec) + w / 4096);
      ReplacedHere(codec, after, c, rb, rec, e, data, w);
    }
  }

  /** Punching a record makes its bytes zero and leaves the others. */
  lemma PunchedStored(codec: Codec, exts: seq<Extent>, d: Disk, c: Disk, rb: nat, rec: nat, r: nat, w: nat)
    requires rb > 0 && Sound(exts, rb) && AgreeOn(exts, d, c) && w < RecBytes(rb)
    ensures StoredByte(codec, Punched(exts, RecStart(rb, rec), RecStart(rb, rec) + rb), c, rb, r, w) ==
      if r == rec then 0 else StoredByte(codec, exts, d, rb, r, w)
  {
    hide RecordData, RecStart;
    var start, end := RecStart(rb, rec), RecStart(rb, rec) + rb;
    var after := Punched(exts, start, end);
    RecordCutsNone(exts, rb, rec);
    if r != rec {
      forall l: nat | !(start <= l < end) ensures SpotOf(after, l) == SpotOf(exts, l) { PunchedSpot(exts, start, end, rb, l); }
      StoredElsewhere(codec, exts, after, d, c, rb, rec, r, w);
    } else {
      PunchedSpot(exts, start, end, rb, start);
      PunchedSpot(exts, start, end, rb, start + w / 4096);
    }
  }

  lemma PunchedPacked(exts: seq<Extent>, start: nat, end: nat, rb: nat, x: Extent)
    requires rb > 0 && start < end && Sound(exts, rb) && x in Punched(exts, start, end) && x.IsCompressed()
    ensures x in exts
  {
    var f :| f in exts && x in PunchOne(f, start, end);
    PieceOf(f, start, end, rb, x);
  }

  lemma AddedPacked(exts: seq<Extent>, e: Extent, rb: nat, x: Extent)
    requires rb > 0 && Addable(exts, e, rb) && x in Added(exts, e) && x.IsCompressed()
    ensures x in exts || x == e
  {
    AddedMembers(exts, e, rb);
  }

  lemma ReplacedPacked(exts: seq<Extent>, rb: nat, rec: nat, e: Extent, x: Extent)
    requires rb > 0 && Replaceable(exts, rb, rec, e) && x in Replaced(exts, rb, rec, e) && x.IsCompressed()
    ensures x in exts || x == e
  {
    hide RecStart;
    var start, end := RecStart(rb, rec), RecStart(rb, rec) + rb;
    ReplacedAddable(exts, rb, rec, e);
    AddedPacked(Punched(exts, start, end), e, rb, x);
    if x != e { PunchedPacked(exts, start, end, rb, x); }
  }

  lemma PunchedReadable(codec: Codec, exts: seq<Extent>, d: Disk, rb: nat, start: nat, end: nat)
    requires rb > 0 && Sound(exts, rb) && Readable(codec, exts, d) && start < end
    ensures Readable(codec, Punched(exts, start, end), d)
  {
    hide Unpack;
    forall x | x in Punched(exts, start, end) && x.IsCompressed() ensures RecordData(codec, d, x).Ok? {
      PunchedPacked(exts, start, end, rb, x);
    }
  }
}
