/** Reads, cuts and extensions, whole runs over plain byte sequences, and files that come and go. */
module FileCuts {
  import opened Wrappers
  import opened Format
  import opened Store
  import opened Cache
  import opened Alloc
  import opened Compress
  import opened Extents
  import opened Records
  import opened Ownership
  import opened FileView
  import opened FileWrites

  // --- reads -------------------------------------------------------------------------------

  lemma SameAllSelf(codec: Codec, rb: nat, a: Snap)
    ensures SameAll(codec, rb, a, a)
  {
    hide RecordByte;
  }

  lemma AttributesSame(codec: Codec, rb: nat, a: Snap, b: Snap, ino: nat)
    requires SameAll(codec, rb, a, b) && ino in a.inodes
    ensures ino in b.inodes && (b.inodes[ino].kind.Inline? <==> a.inodes[ino].kind.Inline?) && b.inodes[ino].size == a.inodes[ino].size
    ensures b.inodes[ino].UsesCompression() <==> a.inodes[ino].UsesCompression()
  {
    assert SameFile(codec, rb, a, b, ino);
  }

  lemma SameDiskSelf(d: Disk)
    ensures SameDisk(d, d)
  {
  }

  lemma MirrorsLength(codec: Codec, rb: nat, f: Inode, d: Disk, rec: nat, data: seq<byte>)
    requires Mirrors(codec, rb, f, d, rec, data)
    ensures |data| == RecBytes(rb)
  {
  }

  lemma SoundFacts(codec: Codec, f: Inode, d: Disk, rb: nat)
    requires rb > 0 && FileSound(codec, f, d, rb)
    ensures f.size <= MAX_FILE_SIZE && (f.kind.Inline? ==> f.extents == [] && |f.inlineData| == f.size)
  {
  }

  /** How many of `len` bytes from `offset` lie inside a file of this size. */
  function Available(size: nat, offset: nat, len: nat): nat {
    if offset >= size then 0 else if size - offset < len then size - offset else len
  }

  /** The bytes of `c` from `offset`, at most `len` of them. */
  function SliceOf(c: seq<byte>, offset: nat, len: nat): seq<byte> {
    if offset >= |c| then [] else if |c| - offset < len then c[offset..] else c[offset..offset + len]
  }

  lemma SliceBytes(codec: Codec, rb: nat, s: Snap, ino: nat, offset: nat, len: nat, buf: seq<byte>)
    requires rb > 0 && ino in s.inodes && |buf| == Available(s.inodes[ino].size, offset, len)
    requires forall k: nat :: k < |buf| ==> buf[k] == VisibleByte(codec, rb, s, ino, offset + k)
    ensures buf == SliceOf(Content(codec, rb, s, ino), offset, len)
  {
    hide VisibleByte;
    var c := Content(codec, rb, s, ino);
    forall k: nat | k < |buf| ensures buf[k] == c[offset + k] { }
  }

  lemma InlineBytes(codec: Codec, rb: nat, s: Snap, ino: nat)
    requires rb > 0 && ino in s.inodes && s.inodes[ino].kind.Inline?
    ensures forall pos: nat :: pos < |s.inodes[ino].inlineData| ==> VisibleByte(codec, rb, s, ino, pos) == s.inodes[ino].inlineData[pos]
  {
  }

  /** Part of one block, or zeros in a hole. */
  lemma PieceBytes(f: Inode, d: Disk, pos: nat, chunk: nat, piece: seq<byte>)
    requires !f.kind.Inline? && pos % 4096 + chunk <= 4096 && |piece| == chunk
    requires var phys := MapBlock(f.extents, pos / 4096);
      piece == if phys.Some? then d.At(phys.value)[pos % 4096..pos % 4096 + chunk] else Zeros(chunk)
    ensures forall k: nat :: k < chunk ==> piece[k] == RawByte(f, d, pos + k)
  {
    hide MapBlock, Disk.At;
    forall k: nat | k < chunk ensures piece[k] == RawByte(f, d, pos + k) {
      assert (pos + k) / 4096 == pos / 4096 && (pos + k) % 4096 == pos % 4096 + k;
    }
  }

  /** A record whose first block is not compressed has no compressed block. */
  lemma RawRecordByte(codec: Codec, rb: nat, f: Inode, d: Disk, rec: nat, w: nat)
    requires rb > 0 && Sound(f.extents, rb) && !f.kind.Inline? && w < RecBytes(rb)
    requires !SpotOf(f.extents, RecStart(rb, rec)).Packed?
    ensures StoredByte(codec, f.extents, d, rb, rec, w) == RawByte(f, d, BytePos(rb, rec, w))
  {
    hide RecordData, RecStart;
    var l := RecStart(rb, rec) + w / 4096;
    assert BytePos(rb, rec, w) / 4096 == l && BytePos(rb, rec, w) % 4096 == w % 4096;
    var e := SpotFrom(f.extents, l);
    if e.Some? && e.value.IsCompressed() {
      assert SoundExtent(e.value, rb);
      PackedStartsRecord(rb, e.value, rec, l);
      SpotBy(f.extents, e.value, RecStart(rb, rec));
    }
  }

  /** Without compressed extents the whole file is read block by block. */
  lemma RawFileByte(codec: Codec, rb: nat, s: Snap, ino: nat, pos: nat)
    requires rb > 0 && ino in s.inodes && Sound(s.inodes[ino].extents, rb)
    requires FileFlagged(s.inodes[ino]) && !s.inodes[ino].UsesCompression() && CacheOk(codec, rb, s)
    ensures VisibleByte(codec, rb, s, ino, pos) == RawByte(s.inodes[ino], s.disk, pos)
  {
    hide StoredByte, RecStart, Sound;
    var f := s.inodes[ino];
    if !f.kind.Inline? {
      var rec, w := RecIndex(rb, pos), RecWithin(rb, pos);
      PosInRecord(rb, pos);
      var e := SpotFrom(f.extents, RecStart(rb, rec));
      RawRecordByte(codec, rb, f, s.disk, rec, w);
    }
  }

  lemma RawFileBytes(codec: Codec, rb: nat, s: Snap, ino: nat)
    requires rb > 0 && ino in s.inodes && Sound(s.inodes[ino].extents, rb)
    requires AllFlagged(s.inodes) && !s.inodes[ino].UsesCompression() && CacheOk(codec, rb, s)
    ensures forall pos: nat :: VisibleByte(codec, rb, s, ino, pos) == RawByte(s.inodes[ino], s.disk, pos)
  {
    hide VisibleByte, RawByte, FileFlagged, CacheOk, Sound;
    forall pos: nat ensures VisibleByte(codec, rb, s, ino, pos) == RawByte(s.inodes[ino], s.disk, pos) {
      RawFileByte(codec, rb, s, ino, pos);
    }
  }

  lemma SameAllExcept(codec: Codec, rb: nat, a: Snap, b: Snap, ino: nat)
    requires rb > 0 && SameAll(codec, rb, a, b)
    ensures SameExcept(codec, rb, a, b, ino) && (ino in a.inodes <==> ino in b.inodes)
    ensures ino in a.inodes ==> Content(codec, rb, b, ino) == Content(codec, rb, a, ino) && b.inodes[ino].size == a.inodes[ino].size
    ensures ino in a.inodes ==> (b.inodes[ino].UsesCompression() <==> a.inodes[ino].UsesCompression())
    ensures ino in a.inodes ==> (Clean(codec, rb, b, ino) <==> Clean(codec, rb, a, ino))
  {
    if ino in a.inodes {
      SameContent(codec, rb, a, b, ino);
      AttributesSame(codec, rb, a, b, ino);
    }
  }

  lemma WholeSlice(c: seq<byte>)
    ensures SliceOf(c, 0, |c|) == c
  {
  }

  // --- blocks of a file --------------------------------------------------------------------

  lemma AddableToNone(e: Extent, rb: nat)
    requires rb > 0 && SoundExtent(e, rb)
    ensures Addable([], e, rb) && Added([], e) == [e]
  {
    var none: seq<Extent> := [];
    assert Sound(none, rb);
    hide Sound, Owns;
    SortSnoc(none, e);
    assert Insert(none, e) == none + [e];
    assert none + [e] == [e] && !Continues(none, e);
    forall b: nat ensures !Owns(none, b) { NoneOwns(b); }
  }

  lemma OneExtentOwns(e: Extent)
    ensures forall b: nat :: Owns([e], b) <==> e.Holds(b)
  {
    forall b: nat | e.Holds(b) ensures Owns([e], b) { assert e in [e]; }
  }

  /** Writing into the blocks of a file without compressed extents keeps every file sound. */
  lemma RawPokeSound(codec: Codec, rb: nat, inodes: map<nat, Inode>, d: Disk, c: Disk, owner: map<nat, nat>,
          free: Runs, first: nat, total: nat, ino: nat)
    requires rb > 0 && AllSound(codec, inodes, d, rb) && Owning(inodes, owner, free, first, total) && ino in inodes && AllRaw(inodes[ino])
    requires forall b: nat :: !Owns(inodes[ino].extents, b) ==> c.At(b) == d.At(b)
    ensures AllSound(codec, inodes, c, rb)
  {
    hide Unpack, Sound, Covers;
    forall j: nat | j in inodes ensures FileSound(codec, inodes[j], c, rb) {
      assert FileSound(codec, inodes[j], d, rb);
      if j != ino {
        forall b: nat | Owns(inodes[j].extents, b) ensures c.At(b) == d.At(b) {
          assert Owns(inodes[j].extents, b) <==> b in owner && owner[b] == j;
          assert Owns(inodes[ino].extents, b) <==> b in owner && owner[b] == ino;
        }
        FileSoundSame(codec, inodes[j], d, c, rb);
      }
    }
  }

  lemma HoleAddable(exts: seq<Extent>, rb: nat, logical: nat, phys: nat, owner: map<nat, nat>, free: Runs, first: nat,
          total: nat)
    requires rb > 0 && Sound(exts, rb) && SpotOf(exts, logical) == Hole
    requires InFlight(phys, 1, owner, free, first, total) && forall b: nat :: Owns(exts, b) ==> b in owner
    ensures Addable(exts, Whole(logical, phys, 1), rb)
  {
    hide Sound, Owns, Covers;
    assert InRange(phys, 1, phys);
  }

  // --- truncation --------------------------------------------------------------------------

  lemma NoneOwns(b: nat)
    ensures !Owns([], b)
  {
  }

  /** Freeing every extent of a file keeps the invariants and loses no block. */
  lemma DropKeepsAll(codec: Codec, d: Disk, rb: nat, inodes: map<nat, Inode>, owner: map<nat, nat>, free0: Runs, free1: Runs,
                     first: nat, total: nat, ino: nat, g: Inode)
    requires rb > 0 && AllSound(codec, inodes, d, rb) && Owning(inodes, owner, free0, first, total) && ino in inodes
    requires forall b: nat :: Covers(free1, b) <==> Covers(free0, b) || Owns(inodes[ino].extents, b)
    requires g.extents == [] && g.size <= MAX_FILE_SIZE && (g.kind.Inline? ==> |g.inlineData| == g.size)
    ensures var owner1 := Release(owner, ino, []);
      && AllSound(codec, inodes[ino := g], d, rb) && Owning(inodes[ino := g], owner1, free1, first, total)
      && Conserved(free0, owner, total, free1, owner1, total)
  {
    OwnFile(codec, d, rb, inodes, owner, free0, first, total, ino);
    assert FileSound(codec, g, d, rb);
    hide FileSound, AllSound, Sound, Covers, Conserved;
    var owner1 := Release(owner, ino, []);
    AllSoundUpdate(codec, inodes, d, rb, ino, g);
    forall b: nat ensures !Owns(g.extents, b) { NoneOwns(b); }
    assert forall b: nat :: Owns(inodes[ino].extents, b) <==> b in owner && owner[b] == ino;
    hide Owning, Owns;
    ReleasedOwning(inodes, owner, free0, free1, first, total, ino, g, owner1);
  }

  /** Keeping fewer blocks of a file, with new attributes. */
  lemma PunchKeepsAs(codec: Codec, d: Disk, rb: nat, inodes: map<nat, Inode>, owner: map<nat, nat>, free0: Runs, free1: Runs,
                     first: nat, total: nat, ino: nat, start: nat, end: nat, g: Inode)
    requires rb > 0 && start < end && AllSound(codec, inodes, d, rb) && Owning(inodes, owner, free0, first, total)
    requires ino in inodes && !inodes[ino].kind.Inline? && !g.kind.Inline? && g.size <= MAX_FILE_SIZE
    requires g.extents == Punched(inodes[ino].extents, start, end)
    requires forall b: nat :: Covers(free1, b) <==> Covers(free0, b) || PunchFreesBlock(inodes[ino].extents, start, end, b)
    ensures var owner1 := Release(owner, ino, g.extents);
      && AllSound(codec, inodes[ino := g], d, rb) && Owning(inodes[ino := g], owner1, free1, first, total)
      && Conserved(free0, owner, total, free1, owner1, total)
  {
    hide AllSound, Owning, Covers, Conserved, Punched;
    PunchKeeps(codec, d, rb, inodes, owner, free0, free1, first, total, ino, start, end);
    var f := inodes[ino];
    var f1 := f.(extents := g.extents, kind := KindFor(g.extents));
    AttributesKeep(codec, d, rb, inodes[ino := f1], Release(owner, ino, g.extents), free1, first, total, ino, g);
    assert inodes[ino := f1][ino := g] == inodes[ino := g];
  }

  /** Punching everything after a record leaves the records up to it and clears the rest. */
  lemma TailPunchedStored(codec: Codec, exts: seq<Extent>, d: Disk, rb: nat, rec: nat, end: nat, r: nat, w: nat)
    requires rb > 0 && Sound(exts, rb) && (forall e :: e in exts ==> e.LogicalEnd() <= end) && w < RecBytes(rb)
    requires RecStart(rb, rec) + rb < end
    ensures StoredByte(codec, Punched(exts, RecStart(rb, rec) + rb, end), d, rb, r, w) ==
      if r <= rec then StoredByte(codec, exts, d, rb, r, w) else 0
  {
    hide RecordData, Sound, Punched;
    var start := RecStart(rb, rec) + rb;
    TailCutsNone(exts, rb, rec, end);
    var l0, l := RecStart(rb, r), RecStart(rb, r) + w / 4096;
    PunchedSpot(exts, start, end, rb, l0);
    PunchedSpot(exts, start, end, rb, l);
    if r <= rec {
      MulMono(r, rec, rb);
    } else {
      MulLess(rec, r, rb);
      HolePast(exts, end, l0);
      HolePast(exts, end, l);
    }
  }

  lemma HolePast(exts: seq<Extent>, end: nat, l: nat)
    requires forall e :: e in exts ==> e.LogicalEnd() <= end
    ensures l >= end ==> SpotOf(exts, l) == Hole
  {
    if l >= end { SpotNone(exts, l); }
  }

  /** A compressed file cut to `size`: the last record shortened, the later ones gone. */
  lemma CutBytes(codec: Codec, rb: nat, a: Snap, s: Snap, t: Snap, ino: nat, size: nat, data: seq<byte>, end: nat)
    requires rb > 0 && ino in a.inodes && ino in s.inodes && ino in t.inodes
    requires a.rc.None? && s.rc.None? && t.rc.None? && !a.inodes[ino].kind.Inline? && !t.inodes[ino].kind.Inline?
    requires 0 < size < a.inodes[ino].size && t.inodes[ino].size == size && Sound(s.inodes[ino].extents, rb)
    requires var rec := RecIndex(rb, size - 1); var keep := size - RecStart(rb, rec) * 4096;
      && RecStart(rb, rec) + rb < end && RecStart(rb, rec) * 4096 <= size && |data| == keep
      && (forall w: nat :: w < |data| ==> data[w] == StoredByte(codec, a.inodes[ino].extents, a.disk, rb, rec, w))
      && (forall r: nat, w: nat :: w < RecBytes(rb) ==>
            StoredByte(codec, s.inodes[ino].extents, s.disk, rb, r, w) ==
              if r == rec then ByteOr0(data, w) else StoredByte(codec, a.inodes[ino].extents, a.disk, rb, r, w))
      && t.disk == s.disk && t.inodes[ino].extents == Punched(s.inodes[ino].extents, RecStart(rb, rec) + rb, end)
    requires forall e :: e in s.inodes[ino].extents ==> e.LogicalEnd() <= end
    ensures Content(codec, rb, t, ino) == Content(codec, rb, a, ino)[..size] && Clean(codec, rb, t, ino)
  {
    hide RecordData, StoredByte, RecIndex, RecWithin, RecStart, Sound, Punched, RecBytes;
    var rec := RecIndex(rb, size - 1);
    PosInRecord(rb, size - 1);
    forall pos: nat
      ensures VisibleByte(codec, rb, t, ino, pos) == if pos < size then VisibleByte(codec, rb, a, ino, pos) else 0
    {
      var r, w := RecIndex(rb, pos), RecWithin(rb, pos);
      PosInRecord(rb, pos);
      TailPunchedStored(codec, s.inodes[ino].extents, s.disk, rb, rec, end, r, w);
      if r < rec { RecordBefore(rb, r, rec, pos, size - 1); } else if r > rec { RecordBefore(rb, rec, r, size - 1, pos); }
    }
  }

  /** Positions are ordered as their records are. */
  lemma RecordBefore(rb: nat, r: nat, rec: nat, pos: nat, later: nat)
    requires rb > 0 && r < rec && RecIndex(rb, pos) == r && RecIndex(rb, later) == rec
    ensures pos < later
  {
    hide RecIndex, RecWithin;
    PosInRecord(rb, pos);
    PosInRecord(rb, later);
    MulLess(r, rec, rb);
  }

  /** An uncompressed file cut to a whole number of blocks. */
  lemma CutRaw(f: Inode, g: Inode, d: Disk, rb: nat, drop: nat, end: nat, pos: nat)
    requires rb > 0 && Sound(f.extents, rb) && AllRaw(f) && !f.kind.Inline? && !g.kind.Inline? && drop < end
    requires g.extents == Punched(f.extents, drop, end) && forall e :: e in f.extents ==> e.LogicalEnd() <= end
    ensures RawByte(g, d, pos) == if pos / 4096 < drop then RawByte(f, d, pos) else 0
    ensures AllRaw(g)
  {
    hide Disk.At, Sound, Punched;
    forall x | x in g.extents ensures !x.IsCompressed() { if x.IsCompressed() { PunchedPacked(f.extents, drop, end, rb, x); } }
    PunchedSpot(f.extents, drop, end, rb, pos / 4096);
    MapOfSpot(g.extents, pos / 4096);
    MapOfSpot(f.extents, pos / 4096);
    HolePast(f.extents, end, pos / 4096);
  }

  /** `kept` is the extents before block `drop`, the one across it shortened. */
  lemma CutOneIsPunch(e: Extent, drop: nat, end: nat)
    requires !e.IsCompressed() && e.LogicalEnd() <= end && e.length > 0 && e.PhysLen() == e.length
    ensures PunchOne(e, drop, end) ==
      if e.LogicalEnd() <= drop then [e] else if e.logical >= drop then []
      else [Whole(e.logical, e.physical, drop - e.logical)]
    ensures forall b: nat :: FreesBlock(e, drop, end, b) <==>
      if e.LogicalEnd() <= drop then false else if e.logical >= drop then e.Holds(b)
      else InRange(e.physical + (drop - e.logical), e.length - (drop - e.logical), b)
  {
  }

  lemma FirstOwns(exts: seq<Extent>, rb: nat, k: nat, b: nat)
    requires rb > 0 && Sound(exts, rb) && k < |exts| && exts[k].Holds(b)
    ensures !Owns(exts[..k], b) && Owns(exts, b)
  {
    assert exts[k] in exts;
    forall g | g in exts[..k] ensures !g.Holds(b) {
      var i :| 0 <= i < k && exts[i] == g;
      assert exts[i].LogicalEnd() <= exts[k].logical && SoundExtent(g, rb);
      assert g != exts[k] && Apart(g, exts[k]);
    }
  }

  lemma OwnsSnoc(exts: seq<Extent>, k: nat, b: nat)
    requires k < |exts|
    ensures Owns(exts[..k + 1], b) <==> Owns(exts[..k], b) || exts[k].Holds(b)
  {
    assert exts[..k + 1] == exts[..k] + [exts[k]];
    if exts[k].Holds(b) { assert exts[k] in exts[..k + 1]; }
    if Owns(exts[..k], b) {
      var g :| g in exts[..k] && g.Holds(b);
      assert g in exts[..k + 1];
    }
  }

  /** An inline file has exactly its inline bytes. */
  lemma BecameInline(codec: Codec, rb: nat, a: Snap, t: Snap, ino: nat)
    requires rb > 0 && a.rc.None? && t.rc.None? && t.disk == a.disk && ino in a.inodes
    requires t.inodes.Keys == a.inodes.Keys && forall j: nat :: j in a.inodes && j != ino ==> t.inodes[j] == a.inodes[j]
    ensures SameExcept(codec, rb, a, t, ino)
  {
    hide StoredByte;
  }

  lemma NoneFrees(start: nat, end: nat, b: nat)
    ensures !PunchFreesBlock([], start, end, b)
  {
  }

  lemma SoundMember(exts: seq<Extent>, rb: nat, k: nat)
    requires rb > 0 && Sound(exts, rb) && k < |exts|
    ensures exts[k] in exts && SoundExtent(exts[k], rb) && (!exts[k].IsCompressed() ==> SoundExtent(exts[k], 1))
  {
  }

  /** The old bytes past a cut, as far as the last kept block reaches, are zero. */
  predicate TailZero(c: seq<byte>, newSize: nat) {
    forall pos: nat :: newSize <= pos < |c| && pos / 4096 < (newSize + 4095) / 4096 ==> c[pos] == 0
  }

  /** Nothing is left of a sound list but at most one extent once no block after the first is mapped. */
  lemma OneExtentLeft(exts: seq<Extent>, rb: nat)
    requires rb > 0 && Sound(exts, rb) && forall l: nat :: l >= 1 ==> SpotOf(exts, l) == Hole
    ensures |exts| <= 1
  {
    if |exts| > 1 {
      var e, l := exts[1], exts[1].LogicalEnd() - 1;
      assert SoundExtent(exts[0], rb) && SoundExtent(e, rb);
      assert exts[0].LogicalEnd() <= e.logical;
      SpotBy(exts, e, l);
    }
  }

  lemma FirstBlockOnly(exts: seq<Extent>, kept: seq<Extent>, drop: nat, end: nat, rb: nat)
    requires rb > 0 && Sound(exts, rb) && Sound(kept, rb) && (forall e :: e in exts ==> !e.IsCompressed() && e.LogicalEnd() <= end)
    requires kept == Punched(exts, drop, end) && drop <= 1 && drop < end
    ensures |kept| <= 1
  {
    hide Punched, Sound;
    forall l: nat | l >= 1 ensures SpotOf(kept, l) == Hole {
      PunchedSpot(exts, drop, end, rb, l);
      if l >= end { SpotNone(exts, l); }
    }
    OneExtentLeft(kept, rb);
  }

  lemma {:induction false} NonePunched(exts: seq<Extent>, start: nat, end: nat)
    requires forall e :: e in exts ==> PunchOne(e, start, end) == []
    ensures Punched(exts, start, end) == []
  {
    hide PunchOne;
    if exts != [] { NonePunched(exts[..|exts| - 1], start, end); }
  }

  /** A cut to nothing leaves no extent and frees every block. */
  lemma CutToNothing(exts: seq<Extent>, end: nat, rb: nat)
    requires rb > 0 && 0 < end && Sound(exts, rb) && forall e :: e in exts ==> !e.IsCompressed() && e.LogicalEnd() <= end
    ensures Punched(exts, 0, end) == []
    ensures forall b: nat :: PunchFreesBlock(exts, 0, end, b) <==> Owns(exts, b)
  {
    hide Punched, PunchOne, FreesBlock;
    forall e | e in exts
      ensures PunchOne(e, 0, end) == [] && forall b: nat :: FreesBlock(e, 0, end, b) <==> e.Holds(b)
    {
      assert SoundExtent(e, rb);
      CutOneIsPunch(e, 0, end);
    }
    NonePunched(exts, 0, end);
  }

  /** The file as a cut to nothing leaves it. */
  predicate EmptyInline(f: Inode) { f.kind.Inline? && f.extents == [] && f.inlineData == [] && f.size == 0 }

  lemma CutRawContent(codec: Codec, rb: nat, a: Snap, t: Snap, ino: nat, drop: nat, end: nat)
    requires rb > 0 && ino in a.inodes && ino in t.inodes && t.disk == a.disk
    requires var f, g := a.inodes[ino], t.inodes[ino];
      && Sound(f.extents, rb) && AllRaw(f) && !f.kind.Inline? && !g.kind.Inline? && g.size < f.size && drop < end
      && g.extents == Punched(f.extents, drop, end) && (forall e :: e in f.extents ==> e.LogicalEnd() <= end)
      && drop == (g.size + 4095) / 4096
    requires forall pos: nat :: VisibleByte(codec, rb, a, ino, pos) == RawByte(a.inodes[ino], a.disk, pos)
    requires forall pos: nat :: VisibleByte(codec, rb, t, ino, pos) == RawByte(t.inodes[ino], t.disk, pos)
    ensures BlocksStay(codec, rb, a, t, ino, t.inodes[ino].size)
    ensures Content(codec, rb, t, ino) == Content(codec, rb, a, ino)[..t.inodes[ino].size]
    ensures t.inodes[ino].size % 4096 == 0 ==> Clean(codec, rb, t, ino)
    ensures Clean(codec, rb, a, ino) ==> (Clean(codec, rb, t, ino) <==> TailZero(Content(codec, rb, a, ino), t.inodes[ino].size))
  {
    hide VisibleByte, RawByte, Sound, Punched;
    forall pos: nat
      ensures VisibleByte(codec, rb, t, ino, pos) == if pos / 4096 < drop then VisibleByte(codec, rb, a, ino, pos) else 0
    {
      CutRaw(a.inodes[ino], t.inodes[ino], a.disk, rb, drop, end, pos);
    }
    var c := Content(codec, rb, a, ino);
    if Clean(codec, rb, t, ino) {
      forall pos: nat | t.inodes[ino].size <= pos < |c| && pos / 4096 < drop ensures c[pos] == 0 {
        assert VisibleByte(codec, rb, t, ino, pos) == 0;
      }
    }
    if TailZero(c, t.inodes[ino].size) && Clean(codec, rb, a, ino) {
      forall pos: nat | pos >= t.inodes[ino].size ensures VisibleByte(codec, rb, t, ino, pos) == 0 {
        assert pos < |c| ==> c[pos] == VisibleByte(codec, rb, a, ino, pos);
      }
    }
  }

  /** `u64::MAX / 2`, past the end of every file. */
  const HALF_U64: nat := 0x7FFF_FFFF_FFFF_FFFF

  lemma NoCache(codec: Codec, rb: nat, s: Snap)
    requires s.rc.None?
    ensures CacheOk(codec, rb, s)
  {
  }

  /** The part of a record that lies inside the file's new, smaller size. */
  lemma ShortRecord(codec: Codec, rb: nat, f: Inode, d: Disk, rec: nat, data: seq<byte>, newSize: nat)
    requires rb > 0 && Mirrors(codec, rb, f, d, rec, data) && 0 < newSize <= f.size && rec == RecIndex(rb, newSize - 1)
    ensures var keep := newSize - RecStart(rb, rec) * 4096;
      && 0 < keep <= |data| == RecBytes(rb)
      && forall w: nat :: w < keep ==> data[w] == StoredByte(codec, f.extents, d, rb, rec, w)
  {
    hide StoredByte, RecIndex, RecStart;
    PosInRecord(rb, newSize - 1);
  }

  /** Without a cached record, reading the same means storing the same. */
  lemma StoredAgain(codec: Codec, rb: nat, a: Snap, b: Snap, ino: nat)
    requires SameAll(codec, rb, a, b) && a.rc.None? && b.rc.None? && ino in a.inodes
    ensures ino in b.inodes && SameExcept(codec, rb, a, b, ino)
    ensures forall r: nat, w: nat :: w < RecBytes(rb) ==>
      StoredByte(codec, b.inodes[ino].extents, b.disk, rb, r, w) == StoredByte(codec, a.inodes[ino].extents, a.disk, rb, r, w)
  {
    hide StoredByte;
    assert SameFile(codec, rb, a, b, ino);
    forall r: nat, w: nat | w < RecBytes(rb)
      ensures StoredByte(codec, b.inodes[ino].extents, b.disk, rb, r, w) == StoredByte(codec, a.inodes[ino].extents, a.disk, rb, r, w)
    {
      assert RecordByte(codec, rb, b, ino, r, w) == RecordByte(codec, rb, a, ino, r, w);
    }
  }

  lemma RecordSetBytes(codec: Codec, rb: nat, inodes0: map<nat, Inode>, d0: Disk, inodes1: map<nat, Inode>, d1: Disk,
                       ino: nat, rec: nat, data: seq<byte>)
    requires ino in inodes0 && RecordSet(codec, rb, inodes0, d0, inodes1, d1, ino, rec, data)
    ensures ino in inodes1 && inodes1.Keys == inodes0.Keys
    ensures forall r: nat, w: nat :: w < RecBytes(rb) ==>
      StoredByte(codec, inodes1[ino].extents, d1, rb, r, w) ==
        if r == rec then ByteOr0(data, w) else StoredByte(codec, inodes0[ino].extents, d0, rb, r, w)
  {
    hide StoredByte;
  }

  lemma ExtentsBound(codec: Codec, f: Inode, d: Disk, rb: nat)
    requires rb > 0 && FileSound(codec, f, d, rb)
    ensures Sound(f.extents, rb) && forall e :: e in f.extents ==> e.LogicalEnd() <= MAX_LOGICAL
  {
  }

  lemma PunchedFlagged(inodes: map<nat, Inode>, ino: nat, g: Inode, rb: nat, start: nat, end: nat)
    requires rb > 0 && start < end && AllFlagged(inodes) && ino in inodes && Sound(inodes[ino].extents, rb)
    requires g.extents == Punched(inodes[ino].extents, start, end) && (inodes[ino].flagCompressed ==> g.flagCompressed)
    ensures AllFlagged(inodes[ino := g])
  {
    hide Sound, Punched;
    assert FileFlagged(inodes[ino]);
    forall x | x in g.extents && x.IsCompressed() ensures x in inodes[ino].extents {
      PunchedPacked(inodes[ino].extents, start, end, rb, x);
    }
  }

  function Min(a: nat, b: nat): nat { if a < b then a else b }

  /** Every byte stays where it was, those past the end included: what an earlier cut left there shows again. */
  ghost predicate BytesStay(codec: Codec, rb: nat, a: Snap, b: Snap, ino: nat)
    requires rb > 0 && ino in a.inodes && ino in b.inodes
  {
    !b.inodes[ino].kind.Inline? && forall pos: nat :: VisibleByte(codec, rb, b, ino, pos) == VisibleByte(codec, rb, a, ino, pos)
  }

  /** The blocks up to the one in which the new end lies stay whole; the others are gone. */
  ghost predicate BlocksStay(codec: Codec, rb: nat, a: Snap, b: Snap, ino: nat, newSize: nat)
    requires rb > 0 && ino in a.inodes && ino in b.inodes
  {
    && !b.inodes[ino].kind.Inline?
    && forall pos: nat :: VisibleByte(codec, rb, b, ino, pos) ==
         if pos / 4096 < (newSize + 4095) / 4096 then VisibleByte(codec, rb, a, ino, pos) else 0
  }

  /**
    File `ino` has `newSize` bytes: the old ones as far as they go and, if nothing was kept past the old end, zeros.
    A compressed file is clean after any cut. An uncompressed one that was clean stays so if and only if the cut takes it
    back into its inode or the old bytes past the cut are zero to the end of the last kept block.
  */
  ghost predicate Truncated(codec: Codec, rb: nat, a: Snap, b: Snap, ino: nat, newSize: nat)
    requires rb > 0 && ino in a.inodes && ino in b.inodes
  {
    var c, e, f := Content(codec, rb, a, ino), Content(codec, rb, b, ino), a.inodes[ino];
    && (b.inodes[ino].UsesCompression() <==> f.UsesCompression())
    && |e| == newSize && e[..Min(|c|, newSize)] == c[..Min(|c|, newSize)]
    && (Clean(codec, rb, a, ino) ==> e == Resize(c, newSize))
    && (Clean(codec, rb, a, ino) && (newSize >= |c| || f.UsesCompression() || f.kind.Inline?) ==> Clean(codec, rb, b, ino))
    && (Clean(codec, rb, a, ino) && newSize < |c| && !f.UsesCompression() && !f.kind.Inline? ==>
          (Clean(codec, rb, b, ino) <==> newSize <= INLINE_MAX || TailZero(c, newSize)))
    && (f.UsesCompression() && newSize < |c| ==> Clean(codec, rb, b, ino))
    && (newSize >= |c| && !f.kind.Inline? ==> BytesStay(codec, rb, a, b, ino))
    && (INLINE_MAX < newSize < |c| && !f.UsesCompression() && !f.kind.Inline? ==> BlocksStay(codec, rb, a, b, ino, newSize))
  }

  lemma SameTruncated(codec: Codec, rb: nat, s: Snap, ino: nat)
    requires rb > 0 && ino in s.inodes
    ensures Truncated(codec, rb, s, s, ino, s.inodes[ino].size)
  {
    hide VisibleByte;
  }

  lemma TruncatedFrom(codec: Codec, rb: nat, a: Snap, b: Snap, c: Snap, ino: nat, newSize: nat)
    requires rb > 0 && SameAll(codec, rb, a, b) && ino in a.inodes && ino in b.inodes && ino in c.inodes
    requires Truncated(codec, rb, b, c, ino, newSize)
    ensures Truncated(codec, rb, a, c, ino, newSize)
  {
    hide Clean, Content, SameFile, VisibleByte;
    SameBytes(codec, rb, a, b, ino);
    SameAllExcept(codec, rb, a, b, ino);
    AttributesSame(codec, rb, a, b, ino);
  }

  lemma BlockBefore(pos: nat, n: nat)
    ensures pos / 4096 < n <==> pos < n * 4096
  {
  }

  /**
    An uncompressed file cut and then extended again: between the two ends it reads as the blocks that were kept, old
    bytes and all, and as zeros behind them.
  */
  lemma CutThenExtended(codec: Codec, rb: nat, a: Snap, b: Snap, c: Snap, ino: nat, cut: nat, size: nat)
    requires rb > 0 && ino in a.inodes && ino in b.inodes && ino in c.inodes && INLINE_MAX < cut < a.inodes[ino].size && cut <= size
    requires !a.inodes[ino].UsesCompression() && !a.inodes[ino].kind.Inline? && Clean(codec, rb, a, ino)
    requires Truncated(codec, rb, a, b, ino, cut) && Truncated(codec, rb, b, c, ino, size)
    ensures var old0 := Content(codec, rb, a, ino);
      Content(codec, rb, c, ino) == Resize(old0[..Min(|old0|, (cut + 4095) / 4096 * 4096)], size)
  {
    hide VisibleByte;
    var old0, e := Content(codec, rb, a, ino), Content(codec, rb, c, ino);
    var kept := old0[..Min(|old0|, (cut + 4095) / 4096 * 4096)];
    assert BlocksStay(codec, rb, a, b, ino, cut) && BytesStay(codec, rb, b, c, ino);
    forall pos: nat | pos < size ensures e[pos] == Resize(kept, size)[pos] {
      assert VisibleByte(codec, rb, c, ino, pos) == VisibleByte(codec, rb, b, ino, pos);
      BlockBefore(pos, (cut + 4095) / 4096);
    }
  }

  lemma GrownContent(codec: Codec, rb: nat, a: Snap, b: Snap, ino: nat, newSize: nat)
    requires rb > 0 && ino in a.inodes && ino in b.inodes && newSize >= a.inodes[ino].size && b.inodes[ino].size == newSize
    requires b.inodes[ino].UsesCompression() <==> a.inodes[ino].UsesCompression()
    requires BytesStay(codec, rb, a, b, ino)
    ensures Truncated(codec, rb, a, b, ino, newSize)
  {
    hide VisibleByte;
  }

  // --- runs --------------------------------------------------------------------------------

  datatype Step =
    | Write(ino: nat, offset: nat, buf: seq<byte>)
    | Truncate(ino: nat, size: nat)
    | Read(ino: nat, offset: nat, len: nat)
    | Flush
    | Create(ino: nat, compression: Compression)
    | SetCompression(ino: nat, compression: Compression)

  /** The files there are, and the plain bytes of those that have been compressed since they were created or taken up. */
  datatype Files = Files(all: set<nat>, bytes: map<nat, seq<byte>>)

  /** What an operation does to files that are plain byte sequences. It may also be about any other file. */
  function Apply(writable: bool, files: Files, step: Step): Files {
    match step
    case Write(ino, offset, buf) =>
      if writable && ino in files.bytes && buf != [] && offset + |buf| <= MAX_FILE_SIZE
      then files.(bytes := files.bytes[ino := Overwrite(files.bytes[ino], offset, buf)]) else files
    case Truncate(ino, size) =>
      if writable && ino in files.bytes && size <= MAX_FILE_SIZE
      then files.(bytes := files.bytes[ino := Resize(files.bytes[ino], size)]) else files
    case Create(ino, compression) =>
      if writable && ino !in files.all
      then Files(files.all + {ino}, if compression.Lz4? then files.bytes[ino := []] else files.bytes) else files
    case SetCompression(ino, compression) =>
      if writable && ino in files.bytes && !compression.Lz4? then files.(bytes := files.bytes - {ino}) else files
    case _ => files
  }

  function ApplyAll(writable: bool, files: Files, steps: seq<Step>): Files {
    if steps == [] then files
    else Apply(writable, ApplyAll(writable, files, steps[..|steps| - 1]), steps[|steps| - 1])
  }

  /** What an operation must hand back, if it is about one of these files. */
  function Answer(files: Files, step: Step): Option<seq<byte>> {
    match step
    case Read(ino, offset, len) => if ino in files.bytes then Some(SliceOf(files.bytes[ino], offset, len)) else None
    case _ => None
  }

  function AnswerAll(writable: bool, files: Files, steps: seq<Step>): seq<Option<seq<byte>>> {
    if steps == [] then []
    else
      var n := |steps| - 1;
      AnswerAll(writable, files, steps[..n]) + [Answer(ApplyAll(writable, files, steps[..n]), steps[n])]
  }

  /** Every answer that is determined was given. */
  ghost predicate Answered(answers: seq<seq<byte>>, expected: seq<Option<seq<byte>>>) {
    |answers| == |expected| && forall k :: 0 <= k < |answers| && expected[k].Some? ==> answers[k] == expected[k].value
  }

  /** The files of `kept` use compression and keep nothing but zeros past their end. */
  ghost predicate Managed(codec: Codec, rb: nat, s: Snap, kept: set<nat>)
    requires rb > 0
  {
    forall i: nat :: i in kept ==> i in s.inodes && s.inodes[i].UsesCompression() && Clean(codec, rb, s, i)
  }

  /** The state `files` describes: which files there are, and the contents of the managed ones. */
  ghost predicate Shows(codec: Codec, rb: nat, s: Snap, files: Files)
    requires rb > 0
  {
    && s.inodes.Keys == files.all && Managed(codec, rb, s, files.bytes.Keys)
    && forall i: nat :: i in files.bytes ==> i in s.inodes && Content(codec, rb, s, i) == files.bytes[i]
  }

  lemma ShowsSame(codec: Codec, rb: nat, a: Snap, b: Snap, files: Files)
    requires rb > 0 && Shows(codec, rb, a, files) && SameAll(codec, rb, a, b)
    ensures Shows(codec, rb, b, files)
  {
    hide Clean, Content, SameFile;
    forall i: nat | i in a.inodes
      ensures Content(codec, rb, b, i) == Content(codec, rb, a, i) && (Clean(codec, rb, a, i) ==> Clean(codec, rb, b, i))
      ensures b.inodes[i].UsesCompression() <==> a.inodes[i].UsesCompression()
    {
      SameContent(codec, rb, a, b, i);
      AttributesSame(codec, rb, a, b, i);
    }
  }

  /** A file outside `files` changed in whatever way. */
  lemma ShowsOther(codec: Codec, rb: nat, a: Snap, b: Snap, files: Files, ino: nat)
    requires rb > 0 && Shows(codec, rb, a, files) && SameExcept(codec, rb, a, b, ino) && ino !in files.bytes
    ensures Shows(codec, rb, b, files)
  {
    hide Clean, Content, RecordByte;
    forall i: nat | i in files.bytes
      ensures Content(codec, rb, b, i) == files.bytes[i] && Clean(codec, rb, b, i) && b.inodes[i].UsesCompression()
    {
      assert SameFile(codec, rb, a, b, i);
      SameContent(codec, rb, a, b, i);
    }
  }

  /** One of the files now has the contents `c`. */
  lemma ShowsChanged(codec: Codec, rb: nat, a: Snap, b: Snap, files: Files, ino: nat, c: seq<byte>)
    requires rb > 0 && Shows(codec, rb, a, files) && SameExcept(codec, rb, a, b, ino) && ino in files.bytes && ino in b.inodes
    requires b.inodes[ino].UsesCompression() && Clean(codec, rb, b, ino) && Content(codec, rb, b, ino) == c
    ensures Shows(codec, rb, b, files.(bytes := files.bytes[ino := c]))
  {
    hide Clean, Content, RecordByte;
    forall i: nat | i in files.bytes && i != ino
      ensures Content(codec, rb, b, i) == files.bytes[i] && Clean(codec, rb, b, i) && b.inodes[i].UsesCompression()
    {
      assert SameFile(codec, rb, a, b, i);
      SameContent(codec, rb, a, b, i);
    }
  }

  /** A new empty file. */
  lemma ShowsNew(codec: Codec, rb: nat, a: Snap, b: Snap, files: Files, ino: nat, compressed: bool)
    requires rb > 0 && Shows(codec, rb, a, files) && ino !in a.inodes && b.inodes.Keys == a.inodes.Keys + {ino}
    requires forall j: nat :: j in a.inodes ==> SameFile(codec, rb, a, b, j)
    requires (compressed ==> b.inodes[ino].UsesCompression()) && Clean(codec, rb, b, ino) && Content(codec, rb, b, ino) == []
    ensures Shows(codec, rb, b, Files(files.all + {ino}, if compressed then files.bytes[ino := []] else files.bytes))
  {
    hide Clean, Content, RecordByte;
    forall i: nat | i in files.bytes
      ensures Content(codec, rb, b, i) == files.bytes[i] && Clean(codec, rb, b, i) && b.inodes[i].UsesCompression()
    {
      SameContent(codec, rb, a, b, i);
    }
  }

  lemma ShowsFewer(codec: Codec, rb: nat, s: Snap, files: Files, ino: nat)
    requires rb > 0 && Shows(codec, rb, s, files)
    ensures Shows(codec, rb, s, files.(bytes := files.bytes - {ino}))
  {
    hide Clean, Content;
  }

  lemma FlagKept(codec: Codec, rb: nat, a: Snap, b: Snap, ino: nat)
    requires SameAll(codec, rb, a, b) && ino in a.inodes
    ensures ino in b.inodes && (a.inodes[ino].flagCompressed ==> b.inodes[ino].flagCompressed)
  {
    assert SameFile(codec, rb, a, b, ino);
  }

  lemma ShowsKeys(codec: Codec, rb: nat, s: Snap, files: Files)
    requires rb > 0 && Shows(codec, rb, s, files)
    ensures s.inodes.Keys == files.all && forall i: nat :: i in files.bytes ==> i in s.inodes
  {
  }

  lemma CutKept(codec: Codec, rb: nat, a: Snap, b: Snap, ino: nat, size: nat)
    requires rb > 0 && ino in a.inodes && ino in b.inodes && Truncated(codec, rb, a, b, ino, size)
    requires a.inodes[ino].UsesCompression() && Clean(codec, rb, a, ino)
    ensures b.inodes[ino].UsesCompression() && Clean(codec, rb, b, ino) && Content(codec, rb, b, ino) == Resize(Content(codec, rb, a, ino), size)
  {
    hide Clean, Content;
  }

  lemma ShownFile(codec: Codec, rb: nat, s: Snap, files: Files, ino: nat)
    requires rb > 0 && Shows(codec, rb, s, files) && ino in files.bytes
    ensures ino in s.inodes && s.inodes[ino].UsesCompression() && Clean(codec, rb, s, ino) && Content(codec, rb, s, ino) == files.bytes[ino]
  {
  }

  lemma KeptFile(codec: Codec, rb: nat, s: Snap, files: Files, ino: nat)
    requires rb > 0 && Shows(codec, rb, s, files) && ino in s.inodes
    ensures ino in files.bytes ==>
      s.inodes[ino].UsesCompression() && Clean(codec, rb, s, ino) && Content(codec, rb, s, ino) == files.bytes[ino]
  {
    if ino in files.bytes { ShownFile(codec, rb, s, files, ino); }
  }

  // --- files come and go -------------------------------------------------------------------

  /** Whether future writes are compressed says nothing about the bytes there are. */
  lemma RegimeBytes(codec: Codec, rb: nat, a: Snap, b: Snap, ino: nat)
    requires rb > 0 && a.rc.None? && b.rc.None? && a.disk == b.disk && ino in a.inodes && ino in b.inodes
    requires var f, g := a.inodes[ino], b.inodes[ino];
      g.size == f.size && g.kind == f.kind && g.inlineData == f.inlineData && g.extents == f.extents
    ensures Content(codec, rb, b, ino) == Content(codec, rb, a, ino)
    ensures Clean(codec, rb, b, ino) <==> Clean(codec, rb, a, ino)
  {
    hide StoredByte;
    forall pos: nat ensures VisibleByte(codec, rb, b, ino, pos) == VisibleByte(codec, rb, a, ino, pos) { }
  }

  /** The compression flag plays no part in the storage invariants. */
  lemma FlagSound(codec: Codec, d: Disk, rb: nat, inodes: map<nat, Inode>, owner: map<nat, nat>, free: Runs,
          first: nat, total: nat, ino: nat)
    requires rb > 0 && AllSound(codec, inodes, d, rb) && Owning(inodes, owner, free, first, total) && ino in inodes
    ensures var inodes1 := inodes[ino := inodes[ino].(flagCompressed := true)];
      AllSound(codec, inodes1, d, rb) && Owning(inodes1, owner, free, first, total)
  {
    hide Sound, Readable;
    assert FileSound(codec, inodes[ino], d, rb);
    AllSoundUpdate(codec, inodes, d, rb, ino, inodes[ino].(flagCompressed := true));
    SameExtentsOwning(inodes, owner, free, first, total, ino, inodes[ino].(flagCompressed := true));
  }

  lemma NoFiles(codec: Codec, rb: nat, d: Disk, free: Runs, first: nat, total: nat)
    requires rb > 0
    ensures AllSound(codec, map[], d, rb) && Owning(map[], map[], free, first, total)
    ensures AllFlagged(map[]) && CacheOk(codec, rb, Snap(map[], None, d))
  {
  }

  lemma EmptySound(codec: Codec, f: Inode, d: Disk, rb: nat)
    requires rb > 0 && f.extents == [] && f.size <= MAX_FILE_SIZE && (f.kind.Inline? ==> |f.inlineData| == f.size)
    ensures FileSound(codec, f, d, rb) && FileFlagged(f) && forall b: nat :: !Owns(f.extents, b)
  {
  }

  lemma NewFileKeeps(codec: Codec, d: Disk, rb: nat, inodes: map<nat, Inode>, owner: map<nat, nat>, free: Runs, first: nat, total: nat,
                     ino: nat, f: Inode)
    requires rb > 0 && AllSound(codec, inodes, d, rb) && Owning(inodes, owner, free, first, total) && ino !in inodes
    requires f.extents == [] && f.kind.Inline? && f.size == 0 && f.inlineData == []
    ensures AllSound(codec, inodes[ino := f], d, rb) && Owning(inodes[ino := f], owner, free, first, total)
    ensures AllFlagged(inodes) ==> AllFlagged(inodes[ino := f])
  {
    hide FileSound, FileFlagged, Covers, Owns;
    EmptySound(codec, f, d, rb);
    var after := inodes[ino := f];
    forall i: nat, b: nat | i in after ensures Owns(after[i].extents, b) <==> b in owner && owner[b] == i {
      if i != ino { assert Owns(inodes[i].extents, b) <==> b in owner && owner[b] == i; }
    }
  }

  /** A file without blocks is taken out of the table. */
  lemma RemovedKeeps(codec: Codec, d: Disk, rb: nat, inodes: map<nat, Inode>, owner: map<nat, nat>, free: Runs, first: nat, total: nat,
                     ino: nat)
    requires rb > 0 && AllSound(codec, inodes, d, rb) && Owning(inodes, owner, free, first, total) && ino in inodes
    requires forall b: nat :: !Owns(inodes[ino].extents, b)
    ensures AllSound(codec, inodes - {ino}, d, rb) && Owning(inodes - {ino}, owner, free, first, total)
    ensures AllFlagged(inodes) ==> AllFlagged(inodes - {ino})
  {
    hide FileSound, Covers, FileFlagged;
    assert forall b: nat :: b in owner ==> (Owns(inodes[ino].extents, b) <==> owner[b] == ino);
    hide Owns;
  }

  lemma RemovedSame(codec: Codec, rb: nat, a: Snap, b: Snap, c: Snap, ino: nat)
    requires SameExcept(codec, rb, a, b, ino) && b.rc.None? && c.rc.None? && c.inodes == b.inodes - {ino} && c.disk == b.disk
    ensures c.inodes.Keys == a.inodes.Keys - {ino} && forall j: nat :: j in c.inodes ==> SameFile(codec, rb, a, c, j)
  {
    hide StoredByte;
    forall j: nat | j in c.inodes ensures SameFile(codec, rb, a, c, j) {
      SameFileTransitive(codec, rb, a, b, c, j);
    }
  }

  lemma ShrinkOwning(inodes: map<nat, Inode>, owner: map<nat, nat>, free0: Runs, free1: Runs, first: nat, total0: nat,
          total1: nat)
    requires Owning(inodes, owner, free0, first, total0)
    requires forall b: nat :: total1 <= b < total0 ==> Covers(free0, b)
    requires forall b: nat :: Covers(free1, b) <==> Covers(free0, b) && b < total1
    ensures Owning(inodes, owner, free1, first, total1)
  {
    hide Owns, Covers;
  }

  /** Nothing a file owns lies past the end of the image. */
  lemma TailGone(codec: Codec, rb: nat, a: Snap, b: Snap, owner: map<nat, nat>, free: Runs, first: nat, total: nat)
    requires rb > 0 && AllSound(codec, a.inodes, a.disk, rb) && Owning(b.inodes, owner, free, first, total)
    requires b.inodes == a.inodes && b.rc == a.rc && forall x: nat :: x < total ==> b.disk.At(x) == a.disk.At(x)
    ensures AllSound(codec, b.inodes, b.disk, rb) && SameAll(codec, rb, a, b)
    ensures CacheOk(codec, rb, a) ==> CacheOk(codec, rb, b)
  {
    hide StoredByte, Sound, Readable, Covers, Disk.At;
    forall i: nat | i in a.inodes
      ensures SameFile(codec, rb, a, b, i) && AgreeOn(a.inodes[i].extents, a.disk, b.disk)
      ensures forall r: nat, w: nat :: StoredByte(codec, a.inodes[i].extents, b.disk, rb, r, w) == StoredByte(codec, a.inodes[i].extents, a.disk, rb, r, w)
    {
      assert FileSound(codec, a.inodes[i], a.disk, rb);
      forall x: nat | Owns(a.inodes[i].extents, x) ensures b.disk.At(x) == a.disk.At(x) {
        assert Owns(b.inodes[i].extents, x) <==> x in owner && owner[x] == i;
      }
      forall r: nat, w: nat
        ensures StoredByte(codec, a.inodes[i].extents, b.disk, rb, r, w) == StoredByte(codec, a.inodes[i].extents, a.disk, rb, r, w)
      {
        StoredSame(codec, a.inodes[i].extents, a.disk, b.disk, rb, r, w);
      }
    }
    AllSoundSame(codec, a.disk, b.disk, rb, a.inodes);
  }
}
