/**
  The superblock and the inode on disk (src/format.rs). Each ends in a CRC-32 of the bytes before it,
  and decoding trusts nothing else. The writes into a zeroed buffer are given as the fields in the order
  of their offsets.
*/
module Layout {
  import opened Wrappers
  import opened Format
  import opened Crc
  import opened Extents
  import Ownership

  type DataKind = Ownership.DataKind

  const SUPERBLOCK_SIZE: nat := 4096
  const INODE_SIZE: nat := 256
  const MAGIC: seq<byte> := [76, 78, 88, 70, 73, 76, 69, 0]
  const VERSION: nat := 1
  const I63: int := 0x8000_0000_0000_0000

  datatype Timespec = Timespec(sec: int, nsec: nat) {
    predicate Fits() { -I63 <= sec < I63 && nsec < U32 }
  }

  /** An i64 as the u64 of the same bits. */
  function I64Bits(v: int): nat
    requires -I63 <= v < I63
  {
    if v >= 0 then v else v + U64
  }

  function I64Of(n: nat): int { if n >= I63 then n - U64 else n }

  function TimeBytes(t: Timespec): (r: seq<byte>)
    requires t.Fits()
    ensures |r| == 12
  {
    U64Bytes(I64Bits(t.sec)) + U32Bytes(t.nsec)
  }

  function TimeAt(buf: seq<byte>, off: nat): Timespec
    requires off + 12 <= |buf|
  {
    Timespec(I64Of(GetU64(buf, off)), GetU32(buf, off + 8))
  }

  lemma TimeStands(buf: seq<byte>, off: nat, t: Timespec)
    requires t.Fits() && At(buf, off, TimeBytes(t))
    ensures off + 12 <= |buf| && TimeAt(buf, off) == t
  {
    hide LeBytes, LeNat, At, GetU64, GetU32;
    AtConcat(buf, off, U64Bytes(I64Bits(t.sec)), U32Bytes(t.nsec));
    U64Stands(buf, off, I64Bits(t.sec));
    U32Stands(buf, off + 8, t.nsec);
  }

  /** A body and the checksum of it. */
  function Summed(body: seq<byte>): (r: seq<byte>)
    ensures |r| == |body| + 4
  {
    body + U32Bytes(Crc32(body))
  }

  /** The four bytes behind the first `n` are the checksum of those. */
  predicate SumOk(buf: seq<byte>, n: nat)
    requires n + 4 <= |buf|
  {
    GetU32(buf, n) == Crc32(buf[0..n])
  }

  lemma SummedOk(body: seq<byte>)
    ensures SumOk(Summed(body), |body|)
  {
    hide LeNat, LeBytes, Crc32;
    var buf := Summed(body);
    Crc32Bound(body);
    assert buf[0..|body|] == body;
    U32At(buf, |body|, Crc32(body));
  }

  /** A change of at most four consecutive bytes before the checksum is noticed. */
  lemma BurstNoticed(head: seq<byte>, u: seq<byte>, v: seq<byte>, tail: seq<byte>, sum: seq<byte>)
    requires |u| == |v| <= 4 && u != v && |sum| >= 4
    ensures !(SumOk(head + u + tail + sum, |head + u + tail|) && SumOk(head + v + tail + sum, |head + v + tail|))
  {
    hide LeNat, Crc32;
    BurstDetected(head, u, v, tail);
    var a, b := head + u + tail, head + v + tail;
    assert (a + sum)[0..|a|] == a && (b + sum)[0..|b|] == b;
    assert (a + sum)[|a|..|a| + 4] == sum[..4] && (b + sum)[|b|..|b| + 4] == sum[..4];
  }

  // --- extents in place ---------------------------------------------------------------------------

  predicate ExtFits(e: Extent) { e.logical < U64 && e.physical < U64 && e.length < U32 }

  function Bare(e: Extent): Extent { Extent(e.logical, e.physical, e.length, 0, 0) }

  function ExtBytes(e: Extent): (r: seq<byte>)
    ensures |r| == 20
  {
    U64Bytes(e.logical) + U64Bytes(e.physical) + U32Bytes(e.length)
  }

  function ExtsBytes(es: seq<Extent>): (r: seq<byte>)
    ensures |r| == 20 * |es|
  {
    if es == [] then [] else ExtBytes(es[0]) + ExtsBytes(es[1..])
  }

  /** What decoding keeps of an extent: the compression of a record is found in its header later. */
  function ExtAt(buf: seq<byte>, off: nat): Extent
    requires off + 20 <= |buf|
  {
    Extent(GetU64(buf, off), GetU64(buf, off + 8), GetU32(buf, off + 16), 0, 0)
  }

  function ExtsAt(buf: seq<byte>, off: nat, n: nat): (r: seq<Extent>)
    requires off + 20 * n <= |buf|
    ensures |r| == n
    decreases n
  {
    if n == 0 then [] else [ExtAt(buf, off)] + ExtsAt(buf, off + 20, n - 1)
  }

  function BareAll(es: seq<Extent>): (r: seq<Extent>)
    ensures |r| == |es| && forall i :: 0 <= i < |es| ==> r[i] == Bare(es[i])
  {
    seq(|es|, i requires 0 <= i < |es| => Bare(es[i]))
  }

  lemma ExtStands(buf: seq<byte>, off: nat, e: Extent)
    requires At(buf, off, ExtBytes(e)) && ExtFits(e)
    ensures off + 20 <= |buf| && ExtAt(buf, off) == Bare(e)
  {
    hide LeBytes, LeNat, At, GetU64, GetU32;
    AtConcat(buf, off, U64Bytes(e.logical) + U64Bytes(e.physical), U32Bytes(e.length));
    AtConcat(buf, off, U64Bytes(e.logical), U64Bytes(e.physical));
    U64Stands(buf, off, e.logical);
    U64Stands(buf, off + 8, e.physical);
    U32Stands(buf, off + 16, e.length);
  }

  lemma {:induction false} ExtsStand(buf: seq<byte>, off: nat, es: seq<Extent>)
    requires At(buf, off, ExtsBytes(es)) && off <= |buf| && forall e :: e in es ==> ExtFits(e)
    ensures off + 20 * |es| <= |buf| && ExtsAt(buf, off, |es|) == BareAll(es)
    decreases |es|
  {
    hide ExtBytes, ExtAt, At;
    if es != [] {
      AtConcat(buf, off, ExtBytes(es[0]), ExtsBytes(es[1..]));
      ExtStands(buf, off, es[0]);
      ExtsStand(buf, off + 20, es[1..]);
      assert BareAll(es) == [Bare(es[0])] + BareAll(es[1..]);
    }
  }

  // --- the inode --------------------------------------------------------------------------------------

  datatype Inode = Inode(ino: nat, mode: nat, nlink: nat, uid: nat, gid: nat, size: nat, blocks: nat,
                         atime: Timespec, mtime: Timespec, ctime: Timespec, btime: Timespec,
                         rdev: nat, flags: nat, generation: nat, kind: DataKind, compression: byte,
                         inlineData: seq<byte>, extents: seq<Extent>, extentTree: nat, xattrBlock: nat) {
    /** Every field is within the width it has in memory and on disk. */
    predicate Fits() {
      && mode < U16 && nlink < U32 && uid < U32 && gid < U32 && size < U64 && blocks < U64
      && atime.Fits() && mtime.Fits() && ctime.Fits() && btime.Fits()
      && rdev < U64 && flags < U32 && generation < U32 && extentTree < U64 && xattrBlock < U64
      && forall e :: e in extents ==> ExtFits(e)
    }
  }

  function KindByte(k: DataKind): byte { if k.Inline? then 0 else if k.Direct? then 1 else 2 }

  function KindOf(v: byte): DataKind { if v == 1 then Ownership.Direct else if v == 2 then Ownership.Tree else Ownership.Inline }

  function First<T>(s: seq<T>, n: nat): (r: seq<T>)
    ensures |r| <= n && |r| <= |s| && (|s| <= n ==> r == s) && (|s| > n ==> |r| == n)
    ensures forall x :: x in r ==> x in s
  {
    if |s| <= n then s else s[..n]
  }

  /** Bytes 104 to 240: a count, and inline bytes or extents. */
  function DataBytes(i: Inode): (r: seq<byte>)
    ensures |r| == 136
  {
    var n := if i.kind.Inline? then |First(i.inlineData, INLINE_MAX)| else |First(i.extents, MAX_DIRECT_EXTENTS)|;
    var payload := if i.kind.Inline? then First(i.inlineData, INLINE_MAX) else ExtsBytes(First(i.extents, MAX_DIRECT_EXTENTS));
    U16Bytes(n) + payload + Zeros(134 - |payload|)
  }

  function NumberBytes(i: Inode): (r: seq<byte>)
    ensures |r| == 30
  {
    U16Bytes(i.mode) + U32Bytes(i.nlink) + U32Bytes(i.uid) + U32Bytes(i.gid) + U64Bytes(i.size) + U64Bytes(i.blocks)
  }

  function TimesBytes(i: Inode): (r: seq<byte>)
    requires i.Fits()
    ensures |r| == 48
  {
    TimeBytes(i.atime) + TimeBytes(i.mtime) + TimeBytes(i.ctime) + TimeBytes(i.btime)
  }

  function MiscBytes(i: Inode): (r: seq<byte>)
    ensures |r| == 26
  {
    U64Bytes(i.rdev) + U32Bytes(i.flags) + U32Bytes(i.generation) + [KindByte(i.kind), i.compression] + U64Bytes(i.extentTree)
  }

  function InodeBody(i: Inode): (r: seq<byte>)
    requires i.Fits()
    ensures |r| == 252
  {
    NumberBytes(i) + TimesBytes(i) + MiscBytes(i) + DataBytes(i) + (U64Bytes(i.xattrBlock) + Zeros(4))
  }

  function EncodedInode(i: Inode): (r: seq<byte>)
    requires i.Fits()
    ensures |r| == INODE_SIZE
  {
    Summed(InodeBody(i))
  }

  function DecodedInode(ino: nat, buf: seq<byte>): Result<Inode> {
    if |buf| < INODE_SIZE || !SumOk(buf, 252) || GetU16(buf, 0) == 0 then Err(EIO)
    else
      var kind := KindOf(buf[94]);
      var n := GetU16(buf, 104);
      var inl := if kind.Inline? then buf[106..106 + (if n < INLINE_MAX then n else INLINE_MAX)] else [];
      var exts := if kind.Inline? then [] else ExtsAt(buf, 106, if n < MAX_DIRECT_EXTENTS then n else MAX_DIRECT_EXTENTS);
      Ok(Inode(ino, GetU16(buf, 0), GetU32(buf, 2), GetU32(buf, 6), GetU32(buf, 10), GetU64(buf, 14), GetU64(buf, 22),
               TimeAt(buf, 30), TimeAt(buf, 42), TimeAt(buf, 54), TimeAt(buf, 66),
               GetU64(buf, 78), GetU32(buf, 86), GetU32(buf, 90), kind, buf[95], inl, exts, GetU64(buf, 96), GetU64(buf, 240)))
  }

  /** What survives: 128 inline bytes or six bare extents, never both. */
  function Persisted(i: Inode): Inode {
    if i.kind.Inline? then i.(inlineData := First(i.inlineData, INLINE_MAX), extents := [])
    else i.(inlineData := [], extents := BareAll(First(i.extents, MAX_DIRECT_EXTENTS)))
  }

  lemma NumbersStand(buf: seq<byte>, i: Inode)
    requires i.Fits() && At(buf, 0, NumberBytes(i))
    ensures |buf| >= 30 && GetU16(buf, 0) == i.mode && GetU32(buf, 2) == i.nlink && GetU32(buf, 6) == i.uid
    ensures GetU32(buf, 10) == i.gid && GetU64(buf, 14) == i.size && GetU64(buf, 22) == i.blocks
  {
    hide LeBytes, LeNat, At, GetU64, GetU32, GetU16;
    var a, b, c, d, e := U16Bytes(i.mode), U32Bytes(i.nlink), U32Bytes(i.uid), U32Bytes(i.gid), U64Bytes(i.size);
    AtConcat(buf, 0, a + b + c + d + e, U64Bytes(i.blocks));
    AtConcat(buf, 0, a + b + c + d, e);
    AtConcat(buf, 0, a + b + c, d);
    AtConcat(buf, 0, a + b, c);
    AtConcat(buf, 0, a, b);
    U16Stands(buf, 0, i.mode);
    U32Stands(buf, 2, i.nlink);
    U32Stands(buf, 6, i.uid);
    U32Stands(buf, 10, i.gid);
    U64Stands(buf, 14, i.size);
    U64Stands(buf, 22, i.blocks);
  }

  lemma U16Stands(buf: seq<byte>, off: nat, v: nat)
    requires At(buf, off, U16Bytes(v)) && v < U16
    ensures off + 2 <= |buf| && GetU16(buf, off) == v
  {
    U16At(buf, off, v);
  }

  lemma TimesStand(buf: seq<byte>, i: Inode)
    requires i.Fits() && At(buf, 30, TimesBytes(i))
    ensures |buf| >= 78 && TimeAt(buf, 30) == i.atime && TimeAt(buf, 42) == i.mtime && TimeAt(buf, 54) == i.ctime && TimeAt(buf, 66) == i.btime
  {
    hide At, TimeAt, TimeBytes;
    AtConcat(buf, 30, TimeBytes(i.atime) + TimeBytes(i.mtime) + TimeBytes(i.ctime), TimeBytes(i.btime));
    AtConcat(buf, 30, TimeBytes(i.atime) + TimeBytes(i.mtime), TimeBytes(i.ctime));
    AtConcat(buf, 30, TimeBytes(i.atime), TimeBytes(i.mtime));
    TimeStands(buf, 30, i.atime);
    TimeStands(buf, 42, i.mtime);
    TimeStands(buf, 54, i.ctime);
    TimeStands(buf, 66, i.btime);
  }

  lemma MiscStands(buf: seq<byte>, i: Inode)
    requires i.Fits() && At(buf, 78, MiscBytes(i))
    ensures |buf| >= 104 && GetU64(buf, 78) == i.rdev && GetU32(buf, 86) == i.flags && GetU32(buf, 90) == i.generation
    ensures buf[94] == KindByte(i.kind) && buf[95] == i.compression && GetU64(buf, 96) == i.extentTree
  {
    hide LeBytes, LeNat, At, GetU64, GetU32;
    var a, b, c, d := U64Bytes(i.rdev), U32Bytes(i.flags), U32Bytes(i.generation), [KindByte(i.kind), i.compression];
    AtConcat(buf, 78, a + b + c + d, U64Bytes(i.extentTree));
    AtConcat(buf, 78, a + b + c, d);
    AtConcat(buf, 78, a + b, c);
    AtConcat(buf, 78, a, b);
    U64Stands(buf, 78, i.rdev);
    U32Stands(buf, 86, i.flags);
    U32Stands(buf, 90, i.generation);
    U64Stands(buf, 96, i.extentTree);
    TwoStand(buf, 94, KindByte(i.kind), i.compression);
  }

  lemma TwoStand(buf: seq<byte>, off: nat, x: byte, y: byte)
    requires At(buf, off, [x, y])
    ensures off + 2 <= |buf| && buf[off] == x && buf[off + 1] == y
  {
    assert buf[off] == buf[off..off + 2][0] && buf[off + 1] == buf[off..off + 2][1];
  }

  lemma DataStands(buf: seq<byte>, i: Inode)
    requires i.Fits() && At(buf, 104, DataBytes(i))
    ensures |buf| >= 240
    ensures i.kind.Inline? ==> (
      var p := First(i.inlineData, INLINE_MAX);
      GetU16(buf, 104) == |p| && buf[106..106 + |p|] == p)
    ensures !i.kind.Inline? ==> (
      var p := First(i.extents, MAX_DIRECT_EXTENTS);
      GetU16(buf, 104) == |p| && ExtsAt(buf, 106, |p|) == BareAll(p))
  {
    hide LeBytes, LeNat, GetU16, ExtsBytes, ExtsAt;
    var p, q := First(i.inlineData, INLINE_MAX), First(i.extents, MAX_DIRECT_EXTENTS);
    var n := if i.kind.Inline? then |p| else |q|;
    var payload := if i.kind.Inline? then p else ExtsBytes(q);
    AtConcat(buf, 104, U16Bytes(n) + payload, Zeros(134 - |payload|));
    AtConcat(buf, 104, U16Bytes(n), payload);
    U16Stands(buf, 104, n);
    if !i.kind.Inline? { ExtsStand(buf, 106, q); }
  }

  lemma InodeParts(buf: seq<byte>, i: Inode)
    requires i.Fits() && At(buf, 0, InodeBody(i))
    ensures At(buf, 0, NumberBytes(i)) && At(buf, 30, TimesBytes(i)) && At(buf, 78, MiscBytes(i)) && At(buf, 104, DataBytes(i))
    ensures |buf| >= 252 && GetU64(buf, 240) == i.xattrBlock
  {
    hide LeBytes, LeNat, At, GetU64, NumberBytes, TimesBytes, MiscBytes, DataBytes;
    var a, b, c, d := NumberBytes(i), TimesBytes(i), MiscBytes(i), DataBytes(i);
    AtConcat(buf, 0, a + b + c + d, U64Bytes(i.xattrBlock) + Zeros(4));
    AtConcat(buf, 0, a + b + c, d);
    AtConcat(buf, 0, a + b, c);
    AtConcat(buf, 0, a, b);
    AtConcat(buf, 240, U64Bytes(i.xattrBlock), Zeros(4));
    U64Stands(buf, 240, i.xattrBlock);
    EndAt(buf, 248, Zeros(4));
  }

  lemma EndAt(buf: seq<byte>, off: nat, part: seq<byte>)
    requires At(buf, off, part)
    ensures off + |part| <= |buf|
  {
  }

  lemma BodyAt(body: seq<byte>)
    ensures At(Summed(body), 0, body)
  {
    assert Summed(body)[0..|body|] == body;
  }

  /** Decoding an encoded inode gives what persists of it; one with no mode counts as unused. */
  lemma InodeRoundTrip(i: Inode)
    requires i.Fits()
    ensures DecodedInode(i.ino, EncodedInode(i)) == if i.mode == 0 then Err(EIO) else Ok(Persisted(i))
  {
    hide LeBytes, LeNat, At, GetU64, GetU32, GetU16, TimeAt, ExtsAt, InodeBody, Summed, NumberBytes, TimesBytes,
      MiscBytes, DataBytes, Crc32, SumOk, First;
    var body := InodeBody(i);
    var buf := EncodedInode(i);
    SummedOk(body);
    BodyAt(body);
    InodeParts(buf, i);
    NumbersStand(buf, i);
    TimesStand(buf, i);
    MiscStands(buf, i);
    DataStands(buf, i);
  }

  /**
    An inode comes back from its 256 bytes as it was exactly when it is in use and keeps its data where its kind says
    and within what fits there: 128 inline bytes, or six extents that carry no lengths or algorithm of their own.
  */
  lemma PersistsIff(i: Inode)
    requires i.Fits()
    ensures DecodedInode(i.ino, EncodedInode(i)) == Ok(i) <==>
      && i.mode != 0
      && (if i.kind.Inline? then |i.inlineData| <= INLINE_MAX && i.extents == []
          else i.inlineData == [] && |i.extents| <= MAX_DIRECT_EXTENTS && forall e :: e in i.extents ==> e == Bare(e))
  {
    hide DecodedInode, EncodedInode;
    InodeRoundTrip(i);
    if !i.kind.Inline? { BareIff(First(i.extents, MAX_DIRECT_EXTENTS)); }
  }

  lemma BareIff(es: seq<Extent>)
    ensures BareAll(es) == es <==> forall e :: e in es ==> e == Bare(e)
  {
    forall i | 0 <= i < |es| ensures es[i] in es && BareAll(es)[i] == Bare(es[i]) {}
    if forall e :: e in es ==> e == Bare(e) {
      forall i | 0 <= i < |es| ensures BareAll(es)[i] == es[i] { assert es[i] in es; }
    }
  }

  /** No change of at most four consecutive checksummed bytes of an accepted inode is accepted. */
  lemma InodeRejectsBurst(ino: nat, head: seq<byte>, u: seq<byte>, v: seq<byte>, tail: seq<byte>, sum: seq<byte>)
    requires |u| == |v| <= 4 && u != v && |head| + |u| + |tail| == 252 && |sum| == 4
    requires DecodedInode(ino, head + u + tail + sum).Ok?
    ensures DecodedInode(ino, head + v + tail + sum) == Err(EIO)
  {
    hide SumOk, GetU64, GetU32, GetU16, TimeAt, ExtsAt;
    BurstNoticed(head, u, v, tail, sum);
  }

  // --- the superblock -----------------------------------------------------------------------------------

  datatype Superblock = Superblock(journalBlocks: nat, firstDataBlock: nat, totalBlocks: nat, inodeCount: nat, freeInodeCount: nat,
                                   nextInode: nat, rootIno: nat, generation: nat, uuid: seq<byte>, features: nat, mtime: Timespec,
                                   defaultCompression: byte, recordBlocks: byte, allocBlock: nat, journalSeq: nat,
                                   journalHead: nat, journalTail: nat, journalCommitted: nat, inodeTable: seq<Extent>) {
    predicate Fits() {
      && journalBlocks < U32 && firstDataBlock < U32 && totalBlocks < U64 && inodeCount < U64 && freeInodeCount < U64
      && nextInode < U64 && rootIno < U64 && generation < U64 && |uuid| == 16 && features < U64 && mtime.Fits()
      && allocBlock < U64 && journalSeq < U64 && journalHead < U32 && journalTail < U32 && journalCommitted < U64
      && forall e :: e in inodeTable ==> ExtFits(e)
    }
  }

  const BLOCK_SIZE_FIELD: nat := 4096

  function SizesBytes(s: Superblock): (r: seq<byte>)
    ensures |r| == 40
  {
    MAGIC + U32Bytes(VERSION) + U32Bytes(BLOCK_SIZE_FIELD) + U32Bytes(s.journalBlocks) + U32Bytes(s.firstDataBlock)
      + U64Bytes(s.totalBlocks) + U64Bytes(s.inodeCount)
  }

  function IdBytes(s: Superblock): (r: seq<byte>)
    requires s.Fits()
    ensures |r| == 56
  {
    U64Bytes(s.freeInodeCount) + U64Bytes(s.nextInode) + U64Bytes(s.rootIno) + U64Bytes(s.generation) + s.uuid + U64Bytes(s.features)
  }

  function MarkBytes(s: Superblock): (r: seq<byte>)
    requires s.Fits()
    ensures |r| == 48
  {
    TimeBytes(s.mtime) + [s.defaultCompression, s.recordBlocks] + Zeros(2) + U64Bytes(s.allocBlock) + U64Bytes(s.journalSeq)
      + U32Bytes(s.journalHead) + U32Bytes(s.journalTail) + U64Bytes(s.journalCommitted)
  }

  function TableBytes(s: Superblock): (r: seq<byte>)
    ensures |r| == 3948
  {
    var t := First(s.inodeTable, 16);
    U32Bytes(|t|) + ExtsBytes(t) + Zeros(3944 - 20 * |t|)
  }

  function SuperBody(s: Superblock): (r: seq<byte>)
    requires s.Fits()
    ensures |r| == 4092
  {
    SizesBytes(s) + IdBytes(s) + MarkBytes(s) + TableBytes(s)
  }

  function EncodedSuper(s: Superblock): (r: seq<byte>)
    requires s.Fits()
    ensures |r| == SUPERBLOCK_SIZE
  {
    Summed(SuperBody(s))
  }

  function DecodedSuper(buf: seq<byte>): Result<Superblock> {
    if |buf| < SUPERBLOCK_SIZE || !SumOk(buf, 4092) then Err(EIO)
    else if buf[0..8] != MAGIC || GetU32(buf, 8) != VERSION || GetU32(buf, 12) != BLOCK_SIZE_FIELD then Err(EIO)
    else
      var n := GetU32(buf, 144);
      Ok(Superblock(GetU32(buf, 16), GetU32(buf, 20), GetU64(buf, 24), GetU64(buf, 32), GetU64(buf, 40), GetU64(buf, 48),
                    GetU64(buf, 56), GetU64(buf, 64), buf[72..88], GetU64(buf, 88), TimeAt(buf, 96), buf[108], buf[109],
                    GetU64(buf, 112), GetU64(buf, 120), GetU32(buf, 128), GetU32(buf, 132), GetU64(buf, 136),
                    ExtsAt(buf, 148, if n < 16 then n else 16)))
  }

  lemma SizesStand(buf: seq<byte>, s: Superblock)
    requires s.Fits() && At(buf, 0, SizesBytes(s))
    ensures |buf| >= 40 && buf[0..8] == MAGIC && GetU32(buf, 8) == VERSION && GetU32(buf, 12) == BLOCK_SIZE_FIELD
    ensures GetU32(buf, 16) == s.journalBlocks && GetU32(buf, 20) == s.firstDataBlock
    ensures GetU64(buf, 24) == s.totalBlocks && GetU64(buf, 32) == s.inodeCount
  {
    hide LeBytes, LeNat, At, GetU64, GetU32;
    var a, b, c, d, e := U32Bytes(VERSION), U32Bytes(BLOCK_SIZE_FIELD), U32Bytes(s.journalBlocks), U32Bytes(s.firstDataBlock), U64Bytes(s.totalBlocks);
    AtConcat(buf, 0, MAGIC + a + b + c + d + e, U64Bytes(s.inodeCount));
    AtConcat(buf, 0, MAGIC + a + b + c + d, e);
    AtConcat(buf, 0, MAGIC + a + b + c, d);
    AtConcat(buf, 0, MAGIC + a + b, c);
    AtConcat(buf, 0, MAGIC + a, b);
    AtConcat(buf, 0, MAGIC, a);
    SliceAt(buf, 0, MAGIC);
    U32Stands(buf, 8, VERSION);
    U32Stands(buf, 12, BLOCK_SIZE_FIELD);
    U32Stands(buf, 16, s.journalBlocks);
    U32Stands(buf, 20, s.firstDataBlock);
    U64Stands(buf, 24, s.totalBlocks);
    U64Stands(buf, 32, s.inodeCount);
  }

  lemma SliceAt(buf: seq<byte>, off: nat, part: seq<byte>)
    requires At(buf, off, part)
    ensures off + |part| <= |buf| && buf[off..off + |part|] == part
  {
  }

  lemma IdsStand(buf: seq<byte>, s: Superblock)
    requires s.Fits() && At(buf, 40, IdBytes(s))
    ensures |buf| >= 96 && GetU64(buf, 40) == s.freeInodeCount && GetU64(buf, 48) == s.nextInode && GetU64(buf, 56) == s.rootIno
    ensures GetU64(buf, 64) == s.generation && buf[72..88] == s.uuid && GetU64(buf, 88) == s.features
  {
    hide LeBytes, LeNat, At, GetU64;
    var a, b, c, d := U64Bytes(s.freeInodeCount), U64Bytes(s.nextInode), U64Bytes(s.rootIno), U64Bytes(s.generation);
    AtConcat(buf, 40, a + b + c + d + s.uuid, U64Bytes(s.features));
    AtConcat(buf, 40, a + b + c + d, s.uuid);
    AtConcat(buf, 40, a + b + c, d);
    AtConcat(buf, 40, a + b, c);
    AtConcat(buf, 40, a, b);
    U64Stands(buf, 40, s.freeInodeCount);
    U64Stands(buf, 48, s.nextInode);
    U64Stands(buf, 56, s.rootIno);
    U64Stands(buf, 64, s.generation);
    SliceAt(buf, 72, s.uuid);
    U64Stands(buf, 88, s.features);
  }

  lemma MarksStand(buf: seq<byte>, s: Superblock)
    requires s.Fits() && At(buf, 96, MarkBytes(s))
    ensures |buf| >= 144 && TimeAt(buf, 96) == s.mtime && buf[108] == s.defaultCompression && buf[109] == s.recordBlocks
    ensures GetU64(buf, 112) == s.allocBlock && GetU64(buf, 120) == s.journalSeq && GetU32(buf, 128) == s.journalHead
    ensures GetU32(buf, 132) == s.journalTail && GetU64(buf, 136) == s.journalCommitted
  {
    hide LeBytes, LeNat, At, GetU64, GetU32, TimeAt, TimeBytes;
    var a, b, z, c, d, e, f := TimeBytes(s.mtime), [s.defaultCompression, s.recordBlocks], Zeros(2), U64Bytes(s.allocBlock),
      U64Bytes(s.journalSeq), U32Bytes(s.journalHead), U32Bytes(s.journalTail);
    AtConcat(buf, 96, a + b + z + c + d + e + f, U64Bytes(s.journalCommitted));
    AtConcat(buf, 96, a + b + z + c + d + e, f);
    AtConcat(buf, 96, a + b + z + c + d, e);
    AtConcat(buf, 96, a + b + z + c, d);
    AtConcat(buf, 96, a + b + z, c);
    AtConcat(buf, 96, a + b, z);
    AtConcat(buf, 96, a, b);
    TimeStands(buf, 96, s.mtime);
    TwoStand(buf, 108, s.defaultCompression, s.recordBlocks);
    U64Stands(buf, 112, s.allocBlock);
    U64Stands(buf, 120, s.journalSeq);
    U32Stands(buf, 128, s.journalHead);
    U32Stands(buf, 132, s.journalTail);
    U64Stands(buf, 136, s.journalCommitted);
  }

  lemma TableStands(buf: seq<byte>, s: Superblock)
    requires s.Fits() && At(buf, 144, TableBytes(s))
    ensures |buf| >= 4092 && GetU32(buf, 144) == |First(s.inodeTable, 16)|
    ensures ExtsAt(buf, 148, |First(s.inodeTable, 16)|) == BareAll(First(s.inodeTable, 16))
  {
    hide LeBytes, LeNat, At, GetU32, ExtsBytes, ExtsAt;
    var t := First(s.inodeTable, 16);
    SliceAt(buf, 144, TableBytes(s));
    AtConcat(buf, 144, U32Bytes(|t|) + ExtsBytes(t), Zeros(3944 - 20 * |t|));
    AtConcat(buf, 144, U32Bytes(|t|), ExtsBytes(t));
    U32Stands(buf, 144, |t|);
    ExtsStand(buf, 148, t);
  }

  lemma SuperParts(buf: seq<byte>, s: Superblock)
    requires s.Fits() && At(buf, 0, SuperBody(s))
    ensures At(buf, 0, SizesBytes(s)) && At(buf, 40, IdBytes(s)) && At(buf, 96, MarkBytes(s)) && At(buf, 144, TableBytes(s))
  {
    hide At, SizesBytes, IdBytes, MarkBytes, TableBytes;
    AtConcat(buf, 0, SizesBytes(s) + IdBytes(s) + MarkBytes(s), TableBytes(s));
    AtConcat(buf, 0, SizesBytes(s) + IdBytes(s), MarkBytes(s));
    AtConcat(buf, 0, SizesBytes(s), IdBytes(s));
  }

  /** Decoding an encoded superblock gives it back, with at most sixteen extents of the inode table. */
  lemma SuperRoundTrip(s: Superblock)
    requires s.Fits()
    ensures DecodedSuper(EncodedSuper(s)) == Ok(s.(inodeTable := BareAll(First(s.inodeTable, 16))))
  {
    hide LeBytes, LeNat, At, GetU64, GetU32, TimeAt, ExtsAt, SuperBody, Summed, SizesBytes, IdBytes, MarkBytes,
      TableBytes, Crc32, SumOk, First;
    var body := SuperBody(s);
    var buf := EncodedSuper(s);
    SummedOk(body);
    BodyAt(body);
    SuperParts(buf, s);
    SizesStand(buf, s);
    IdsStand(buf, s);
    MarksStand(buf, s);
    TableStands(buf, s);
  }

  /** No change of at most four consecutive checksummed bytes of an accepted superblock is accepted. */
  lemma SuperRejectsBurst(head: seq<byte>, u: seq<byte>, v: seq<byte>, tail: seq<byte>, sum: seq<byte>)
    requires |u| == |v| <= 4 && u != v && |head| + |u| + |tail| == 4092 && |sum| == 4
    requires DecodedSuper(head + u + tail + sum).Ok?
    ensures DecodedSuper(head + v + tail + sum) == Err(EIO)
  {
    hide SumOk, GetU64, GetU32, TimeAt, ExtsAt;
    BurstNoticed(head, u, v, tail, sum);
  }
}
