/** What a reader sees of a file through the record cache, the block cache and the image, and what storing a record changes. */
module FileView {
  import opened Wrappers
  import opened Format
  import opened Store
  import opened Cache
  import opened Alloc
  import opened Compress
  import opened Extents
  import opened Records
  import opened Ownership

  // --- what readers see ------------------------------------------------------------------

  /** The state a file's contents depend on. */
  datatype Snap = Snap(inodes: map<nat, Inode>, rc: Option<RecordCache>, disk: Disk)

  predicate Shadows(rc: Option<RecordCache>, ino: nat, rec: nat) {
    rc.Some? && rc.value.dirty && rc.value.ino == ino && rc.value.rec == rec
  }

  predicate Caches(rc: Option<RecordCache>, ino: nat) { rc.Some? && rc.value.ino == ino }

  /** Byte `w` of record `rec`: from the record cache where that is newer, else as stored. */
  function RecordByte(codec: Codec, rb: nat, s: Snap, ino: nat, rec: nat, w: nat): byte
    requires ino in s.inodes
  {
    if Shadows(s.rc, ino, rec) then ByteOr0(s.rc.value.data, w)
    else StoredByte(codec, s.inodes[ino].extents, s.disk, rb, rec, w)
  }

  /** The byte of a file at `pos`. */
  function VisibleByte(codec: Codec, rb: nat, s: Snap, ino: nat, pos: nat): byte
    requires rb > 0 && ino in s.inodes
  {
    if s.inodes[ino].kind.Inline? then ByteOr0(s.inodes[ino].inlineData, pos)
    else RecordByte(codec, rb, s, ino, RecIndex(rb, pos), RecWithin(rb, pos))
  }

  /** The file as a plain byte sequence. */
  function Content(codec: Codec, rb: nat, s: Snap, ino: nat): (c: seq<byte>)
    requires rb > 0 && ino in s.inodes
    ensures |c| == s.inodes[ino].size
    ensures forall pos: nat :: pos < |c| ==> c[pos] == VisibleByte(codec, rb, s, ino, pos)
  {
    seq(s.inodes[ino].size, pos requires pos >= 0 => VisibleByte(codec, rb, s, ino, pos))
  }

  function BytePos(rb: nat, rec: nat, w: nat): nat { RecStart(rb, rec) * 4096 + w }

  /** Nothing but zeros is kept past the end of the file. */
  ghost predicate Clean(codec: Codec, rb: nat, s: Snap, ino: nat)
    requires rb > 0 && ino in s.inodes
  {
    forall pos: nat :: pos >= s.inodes[ino].size ==> VisibleByte(codec, rb, s, ino, pos) == 0
  }

  /** File `j` reads the same, byte for byte, past its end too, and keeps its attributes. */
  ghost predicate SameFile(codec: Codec, rb: nat, a: Snap, b: Snap, j: nat) {
    && j in a.inodes && j in b.inodes
    && var f, g := a.inodes[j], b.inodes[j];
       && g.size == f.size && g.inlineData == f.inlineData && g.compression == f.compression
       && (f.flagCompressed ==> g.flagCompressed) && (g.UsesCompression() <==> f.UsesCompression())
       && (g.kind.Inline? <==> f.kind.Inline?)
       && forall r: nat, w: nat :: w < RecBytes(rb) ==> RecordByte(codec, rb, b, j, r, w) == RecordByte(codec, rb, a, j, r, w)
  }

  lemma SameFileTransitive(codec: Codec, rb: nat, a: Snap, b: Snap, c: Snap, j: nat)
    requires SameFile(codec, rb, a, b, j) && SameFile(codec, rb, b, c, j)
    ensures SameFile(codec, rb, a, c, j)
  {
    hide RecordByte;
  }

  lemma SameByte(codec: Codec, rb: nat, a: Snap, b: Snap, j: nat, pos: nat)
    requires rb > 0 && SameFile(codec, rb, a, b, j)
    ensures VisibleByte(codec, rb, b, j, pos) == VisibleByte(codec, rb, a, j, pos)
  {
    hide RecordByte;
  }

  /** Files that read the same have the same contents, and stay clean. */
  lemma SameContent(codec: Codec, rb: nat, a: Snap, b: Snap, j: nat)
    requires rb > 0 && SameFile(codec, rb, a, b, j)
    ensures Content(codec, rb, b, j) == Content(codec, rb, a, j)
    ensures Clean(codec, rb, b, j) <==> Clean(codec, rb, a, j)
  {
    hide VisibleByte;
    forall pos: nat ensures VisibleByte(codec, rb, b, j, pos) == VisibleByte(codec, rb, a, j, pos) { SameByte(codec, rb, a, b, j, pos); }
  }

  ghost predicate SameExcept(codec: Codec, rb: nat, a: Snap, b: Snap, ino: nat) {
    a.inodes.Keys == b.inodes.Keys && forall j: nat :: j in a.inodes && j != ino ==> SameFile(codec, rb, a, b, j)
  }

  ghost predicate SameAll(codec: Codec, rb: nat, a: Snap, b: Snap) {
    a.inodes.Keys == b.inodes.Keys && forall j: nat :: j in a.inodes ==> SameFile(codec, rb, a, b, j)
  }

  lemma SameExceptTransitive(codec: Codec, rb: nat, a: Snap, b: Snap, c: Snap, ino: nat)
    requires SameExcept(codec, rb, a, b, ino) && SameExcept(codec, rb, b, c, ino)
    ensures SameExcept(codec, rb, a, c, ino)
  {
    hide SameFile;
    forall j: nat | j in a.inodes && j != ino ensures SameFile(codec, rb, a, c, j) {
      SameFileTransitive(codec, rb, a, b, c, j);
    }
  }

  lemma SameAllTransitive(codec: Codec, rb: nat, a: Snap, b: Snap, c: Snap)
    requires SameAll(codec, rb, a, b) && SameAll(codec, rb, b, c)
    ensures SameAll(codec, rb, a, c)
  {
    hide SameFile;
    forall j: nat | j in a.inodes ensures SameFile(codec, rb, a, c, j) { SameFileTransitive(codec, rb, a, b, c, j); }
  }

  // --- the effect of storing one record -----------------------------------------------------

  predicate FileFlagged(f: Inode) { forall e :: e in f.extents ==> e.IsCompressed() ==> f.flagCompressed }

  /** Record `rec` of file `ino` now holds `data` padded with zeros; no other stored byte of any file has changed. */
  ghost predicate RecordSet(codec: Codec, rb: nat, inodes0: map<nat, Inode>, d0: Disk, inodes1: map<nat, Inode>, d1: Disk,
                            ino: nat, rec: nat, data: seq<byte>)
    requires ino in inodes0
  {
    && inodes1.Keys == inodes0.Keys
    && (forall j: nat :: j in inodes0 && j != ino ==> inodes1[j] == inodes0[j] && AgreeOn(inodes0[j].extents, d0, d1))
    && var f, g := inodes0[ino], inodes1[ino];
       && g.size == f.size && g.inlineData == f.inlineData && g.compression == f.compression && !g.kind.Inline?
       && (f.flagCompressed ==> g.flagCompressed) && (g.UsesCompression() <==> f.UsesCompression())
       && (FileFlagged(f) ==> FileFlagged(g))
       && forall r: nat, w: nat :: w < RecBytes(rb) ==>
            StoredByte(codec, g.extents, d1, rb, r, w) == if r == rec then ByteOr0(data, w) else StoredByte(codec, f.extents, d0, rb, r, w)
  }

  /** Whether a record of these bytes is packed: asked for, at least two blocks, and a block saved, header included. */
  predicate Packs(codec: Codec, compression: byte, data: seq<byte>) {
    compression == 1 && |data| >= 8192 && 20 + |codec.compress(data)| + 4096 <= |data|
  }

  /** Where block `l` of a record that starts at `start` is kept: nowhere, packed with the others, or by itself. */
  predicate KeptAs(codec: Codec, compression: byte, data: seq<byte>, start: nat, l: nat, spot: Spot) {
    if AllZero(data) || l - start >= BlocksFor(|data|) then spot == Hole
    else if Packs(codec, compression, data) then
      spot.Packed? && spot.ext.logical == start && spot.ext.PhysLen() == BlocksFor(20 + |codec.compress(data)|) < BlocksFor(|data|)
    else spot.Raw?
  }

  /** The blocks of record `rec` are kept as its bytes ask for. */
  ghost predicate StoredAs(codec: Codec, rb: nat, compression: byte, g: Inode, rec: nat, data: seq<byte>) {
    forall l: nat :: RecStart(rb, rec) <= l < RecStart(rb, rec) + rb ==>
      KeptAs(codec, compression, data, RecStart(rb, rec), l, SpotOf(g.extents, l))
  }

  lemma HoleStored(codec: Codec, rb: nat, compression: byte, f: Inode, d: Disk, rec: nat, data: seq<byte>)
    requires rb > 0 && AllZero(data) && FileSound(codec, f, d, rb)
    ensures var kept := Punched(f.extents, RecStart(rb, rec), RecStart(rb, rec) + rb);
      StoredAs(codec, rb, compression, f.(extents := kept, kind := KindFor(kept)), rec, data)
  {
    hide RecStart, Sound, Punched, SpotOf, Readable;
    var start := RecStart(rb, rec);
    RecordCutsNone(f.extents, rb, rec);
    var kept := Punched(f.extents, start, start + rb);
    forall l: nat | start <= l < start + rb ensures SpotOf(kept, l) == Hole {
      PunchedSpot(f.extents, start, start + rb, rb, l);
    }
  }

  lemma PlacedStored(codec: Codec, rb: nat, compression: byte, f: Inode, rec: nat, e: Extent, data: seq<byte>, g: Inode)
    requires rb > 0 && Replaceable(f.extents, rb, rec, e) && !AllZero(data) && g.extents == Replaced(f.extents, rb, rec, e)
    requires e.logical == RecStart(rb, rec) && e.length == BlocksFor(|data|)
    requires e.IsCompressed() <==> Packs(codec, compression, data)
    requires e.IsCompressed() ==> e.PhysLen() == BlocksFor(20 + |codec.compress(data)|) < BlocksFor(|data|)
    ensures StoredAs(codec, rb, compression, g, rec, data)
  {
    hide RecStart, Replaced, SpotOf, Replaceable, AllZero, Packs;
    var start := RecStart(rb, rec);
    forall l: nat | start <= l < start + rb ensures KeptAs(codec, compression, data, start, l, SpotOf(g.extents, l)) {
      ReplacedSpot(f.extents, rb, rec, e, l);
    }
  }

  predicate AllZero(data: seq<byte>) { forall i :: 0 <= i < |data| ==> data[i] == 0 }

  lemma PunchSetsRecord(codec: Codec, rb: nat, inodes: map<nat, Inode>, d: Disk, ino: nat, rec: nat, data: seq<byte>)
    requires rb > 0 && AllZero(data) && ino in inodes && FileSound(codec, inodes[ino], d, rb)
    ensures var f := inodes[ino]; var kept := Punched(f.extents, RecStart(rb, rec), RecStart(rb, rec) + rb);
      RecordSet(codec, rb, inodes, d, inodes[ino := f.(extents := kept, kind := KindFor(kept))], d, ino, rec, data)
  {
    hide StoredByte, RecordData, RecStart, Sound;
    var f := inodes[ino];
    var start, end := RecStart(rb, rec), RecStart(rb, rec) + rb;
    var kept := Punched(f.extents, start, end);
    forall r: nat, w: nat | w < RecBytes(rb)
      ensures StoredByte(codec, kept, d, rb, r, w) == if r == rec then ByteOr0(data, w) else StoredByte(codec, f.extents, d, rb, r, w)
    {
      PunchedStored(codec, f.extents, d, d, rb, rec, r, w);
    }
    forall x | x in kept && x.IsCompressed() ensures x in f.extents { PunchedPacked(f.extents, start, end, rb, x); }
  }

  lemma PlaceSetsRecord(codec: Codec, rb: nat, inodes: map<nat, Inode>, d: Disk, c: Disk, ino: nat, rec: nat,
          e: Extent, data: seq<byte>, flag: bool)
    requires rb > 0 && ino in inodes && Replaceable(inodes[ino].extents, rb, rec, e)
    requires AllAgree(inodes, d, c) && HoldsData(codec, c, e, data)
    requires e.IsCompressed() ==> inodes[ino].compression == 1
    requires flag <==> inodes[ino].flagCompressed || e.IsCompressed()
    ensures var f := inodes[ino]; var exts := Replaced(f.extents, rb, rec, e);
      RecordSet(codec, rb, inodes, d, inodes[ino := f.(extents := exts, kind := KindFor(exts), flagCompressed := flag)], c, ino, rec, data)
  {
    hide StoredByte, RecordData, RecStart, Sound, Replaced, HoldsData, AgreeOn, Replaceable;
    var f := inodes[ino];
    var exts := Replaced(f.extents, rb, rec, e);
    assert AgreeOn(f.extents, d, c);
    forall r: nat, w: nat | w < RecBytes(rb)
      ensures StoredByte(codec, exts, c, rb, r, w) == if r == rec then ByteOr0(data, w) else StoredByte(codec, f.extents, d, rb, r, w)
    {
      ReplacedStored(codec, f.extents, d, c, rb, rec, e, data, r, w);
    }
    forall x | x in exts && x.IsCompressed() ensures x in f.extents || x == e { ReplacedPacked(f.extents, rb, rec, e, x); }
  }

  lemma PackedLengths(codec: Codec, rb: nat, data: seq<byte>, payload: seq<byte>)
    requires Lossless(codec) && rb <= MAX_RECORD_BLOCKS && |data| <= RecBytes(rb)
    requires TryCompress(codec, Lz4, data) == (Lz4, payload)
    ensures Unpack(codec, Pack(payload, |data|)) == Ok(data)
    ensures var n := PhysBlocks(HeaderOf(Lz4, payload, |data|));
      n == BlocksFor(|Pack(payload, |data|)|) > 0 && |Pack(payload, |data|)| == n * 4096
    ensures 0 < BlocksFor(|data|) <= rb
    ensures Packs(codec, 1, data) && PhysBlocks(HeaderOf(Lz4, payload, |data|)) == BlocksFor(20 + |codec.compress(data)|) < BlocksFor(|data|)
  {
    hide Unpack, Lossless, Pack, TryCompress;
    PackRoundTrip(codec, data);
    PackedIff(codec, Lz4, data);
  }

  // --- the record cache -------------------------------------------------------------------

  /**
    The cached record belongs to a compressed file. While clean it repeats what is stored, except that it may
    already read as zero past the end of the file.
  */
  ghost predicate CacheOk(codec: Codec, rb: nat, s: Snap) {
    s.rc.Some? ==>
      var c := s.rc.value;
      && c.ino in s.inodes && !s.inodes[c.ino].kind.Inline? && s.inodes[c.ino].UsesCompression()
      && |c.data| == RecBytes(rb) && RecStart(rb, c.rec) + rb <= MAX_LOGICAL
      && (!c.dirty ==> Mirrors(codec, rb, s.inodes[c.ino], s.disk, c.rec, c.data))
  }

  ghost predicate Mirrors(codec: Codec, rb: nat, f: Inode, d: Disk, rec: nat, data: seq<byte>) {
    && |data| == RecBytes(rb)
    && forall w: nat :: w < |data| ==>
         data[w] == StoredByte(codec, f.extents, d, rb, rec, w) || (BytePos(rb, rec, w) >= f.size && data[w] == 0)
  }

  ghost predicate SameDisk(d: Disk, c: Disk) { forall b: nat :: c.At(b) == d.At(b) }

  /** Reads may move blocks between the cache and the image; nothing a file holds depends on where they are. */
  lemma ReadKeeps(codec: Codec, rb: nat, inodes: map<nat, Inode>, rc: Option<RecordCache>, d: Disk, c: Disk)
    requires rb > 0 && AllSound(codec, inodes, d, rb) && SameDisk(d, c)
    ensures AllSound(codec, inodes, c, rb)
    ensures SameAll(codec, rb, Snap(inodes, rc, d), Snap(inodes, rc, c))
    ensures CacheOk(codec, rb, Snap(inodes, rc, d)) ==> CacheOk(codec, rb, Snap(inodes, rc, c))
  {
    hide StoredByte, Sound, Readable;
    forall i: nat | i in inodes
      ensures SameFile(codec, rb, Snap(inodes, rc, d), Snap(inodes, rc, c), i) && AgreeOn(inodes[i].extents, d, c)
      ensures forall r: nat, w: nat :: StoredByte(codec, inodes[i].extents, c, rb, r, w) == StoredByte(codec, inodes[i].extents, d, rb, r, w)
    {
      assert FileSound(codec, inodes[i], d, rb);
      forall r: nat, w: nat
        ensures StoredByte(codec, inodes[i].extents, c, rb, r, w) == StoredByte(codec, inodes[i].extents, d, rb, r, w)
      {
        StoredSame(codec, inodes[i].extents, d, c, rb, r, w);
      }
    }
    AllSoundSame(codec, d, c, rb, inodes);
  }

  /** Dropping a clean record changes nothing. */
  lemma DropKeeps(codec: Codec, rb: nat, inodes: map<nat, Inode>, rc: Option<RecordCache>, d: Disk)
    requires rc.None? || !rc.value.dirty
    ensures SameAll(codec, rb, Snap(inodes, rc, d), Snap(inodes, None, d))
  {
    hide StoredByte;
  }

  /** Loading a record leaves every byte as it was. */
  lemma LoadKeeps(codec: Codec, rb: nat, inodes: map<nat, Inode>, d: Disk, c: RecordCache)
    requires !c.dirty
    ensures SameAll(codec, rb, Snap(inodes, None, d), Snap(inodes, Some(c), d))
  {
    hide StoredByte;
  }

  /** Storing the dirty record changes where its bytes live and nothing else, for any file. */
  lemma FlushKeeps(codec: Codec, rb: nat, a: Snap, inodes: map<nat, Inode>, d: Disk)
    requires rb > 0 && AllSound(codec, a.inodes, a.disk, rb) && CacheOk(codec, rb, a) && a.rc.Some? && a.rc.value.dirty
    requires RecordSet(codec, rb, a.inodes, a.disk, inodes, d, a.rc.value.ino, a.rc.value.rec, a.rc.value.data)
    ensures SameAll(codec, rb, a, Snap(inodes, None, d))
  {
    hide StoredByte, Sound, Readable, AgreeOn, FileFlagged;
    var b := Snap(inodes, None, d);
    forall j: nat | j in a.inodes ensures SameFile(codec, rb, a, b, j) {
      if j != a.rc.value.ino {
        assert FileSound(codec, a.inodes[j], a.disk, rb);
        forall r: nat, w: nat ensures RecordByte(codec, rb, b, j, r, w) == RecordByte(codec, rb, a, j, r, w) {
          StoredSame(codec, a.inodes[j].extents, a.disk, d, rb, r, w);
        }
      }
    }
  }

  ghost predicate AllFlagged(inodes: map<nat, Inode>) { forall i: nat :: i in inodes ==> FileFlagged(inodes[i]) }

  lemma RecordSetFlagged(codec: Codec, rb: nat, inodes0: map<nat, Inode>, d0: Disk, inodes1: map<nat, Inode>, d1: Disk,
                         ino: nat, rec: nat, data: seq<byte>)
    requires ino in inodes0 && RecordSet(codec, rb, inodes0, d0, inodes1, d1, ino, rec, data) && AllFlagged(inodes0)
    ensures AllFlagged(inodes1)
  {
    hide StoredByte, FileFlagged;
  }

  lemma RecordSetOthers(codec: Codec, rb: nat, inodes0: map<nat, Inode>, d0: Disk, inodes1: map<nat, Inode>, d1: Disk,
                        ino: nat, rec: nat, data: seq<byte>)
    requires ino in inodes0 && RecordSet(codec, rb, inodes0, d0, inodes1, d1, ino, rec, data)
    ensures inodes1.Keys == inodes0.Keys && forall j: nat :: j in inodes0 && j != ino ==> inodes1[j] == inodes0[j]
  {
    hide StoredByte;
  }

  lemma MirrorsSame(codec: Codec, rb: nat, f: Inode, d: Disk, c: Disk, rec: nat, data: seq<byte>)
    requires rb > 0 && Sound(f.extents, rb) && SameDisk(d, c) && Mirrors(codec, rb, f, d, rec, data)
    ensures Mirrors(codec, rb, f, c, rec, data)
  {
    hide StoredByte, Sound;
    assert AgreeOn(f.extents, d, c);
    forall w: nat ensures StoredByte(codec, f.extents, c, rb, rec, w) == StoredByte(codec, f.extents, d, rb, rec, w) {
      StoredSame(codec, f.extents, d, c, rb, rec, w);
    }
  }

  /** Positions in the same record. */
  lemma SameRecord(rb: nat, pos: nat, k: nat)
    requires rb > 0 && RecWithin(rb, pos) + k < RecBytes(rb)
    ensures RecIndex(rb, pos + k) == RecIndex(rb, pos) && RecWithin(rb, pos + k) == RecWithin(rb, pos) + k
  {
    hide RecIndex, RecWithin, RecStart;
    PosInRecord(rb, pos);
    RecordOfPos(rb, RecIndex(rb, pos), RecWithin(rb, pos) + k);
  }

  lemma PosBound(rb: nat, pos: nat)
    requires 0 < rb <= MAX_RECORD_BLOCKS && pos < MAX_FILE_SIZE
    ensures RecStart(rb, RecIndex(rb, pos)) + rb <= MAX_LOGICAL
  {
    hide RecIndex, RecStart;
    PosInRecord(rb, pos);
  }

  /** The cached copy of a record gives the file's bytes: all of them if dirty, those inside the file if clean. */
  lemma CachedByte(codec: Codec, rb: nat, s: Snap, ino: nat, pos: nat)
    requires rb > 0 && ino in s.inodes && CacheOk(codec, rb, s) && s.rc.Some?
    requires s.rc.value.ino == ino && s.rc.value.rec == RecIndex(rb, pos)
    ensures var v := s.rc.value.data[RecWithin(rb, pos)];
      v == VisibleByte(codec, rb, s, ino, pos) || (!s.rc.value.dirty && pos >= s.inodes[ino].size && v == 0)
  {
    hide StoredByte, RecIndex, RecStart;
    PosInRecord(rb, pos);
    var w := RecWithin(rb, pos);
    assert BytePos(rb, s.rc.value.rec, w) == pos;
  }

  /** A piece of the cached record, read inside the file. */
  lemma CachedPiece(codec: Codec, rb: nat, s: Snap, ino: nat, pos: nat, chunk: nat, piece: seq<byte>)
    requires rb > 0 && ino in s.inodes && CacheOk(codec, rb, s) && s.rc.Some?
    requires s.rc.value.ino == ino && s.rc.value.rec == RecIndex(rb, pos)
    requires RecWithin(rb, pos) + chunk <= |s.rc.value.data| && pos + chunk <= s.inodes[ino].size
    requires piece == s.rc.value.data[RecWithin(rb, pos)..RecWithin(rb, pos) + chunk]
    ensures forall k: nat :: k < chunk ==> piece[k] == VisibleByte(codec, rb, s, ino, pos + k)
  {
    hide VisibleByte, RecIndex, RecWithin, RecBytes, Mirrors;
    forall k: nat | k < chunk ensures piece[k] == VisibleByte(codec, rb, s, ino, pos + k) {
      SameRecord(rb, pos, k);
      CachedByte(codec, rb, s, ino, pos + k);
    }
  }

  lemma SameBytes(codec: Codec, rb: nat, a: Snap, b: Snap, j: nat)
    requires rb > 0 && SameAll(codec, rb, a, b) && j in a.inodes
    ensures forall pos: nat :: VisibleByte(codec, rb, b, j, pos) == VisibleByte(codec, rb, a, j, pos)
  {
    hide VisibleByte, SameFile;
    forall pos: nat ensures VisibleByte(codec, rb, b, j, pos) == VisibleByte(codec, rb, a, j, pos) { SameByte(codec, rb, a, b, j, pos); }
  }
}
