/** What a write does to the bytes readers see: through records, inline, and block by block. */
module FileWrites {
  import opened Wrappers
  import opened Format
  import opened Store
  import opened Cache
  import opened Alloc
  import opened Compress
  import opened Extents
  import opened Records
  import opened Ownership
  import opened FileView

  // --- writes -------------------------------------------------------------------------------

  /** `buf` written over `c` from `off`, the gap before it filled with zeros. */
  function Overwrite(c: seq<byte>, off: nat, buf: seq<byte>): seq<byte> {
    var end := off + |buf|;
    Splice(Resize(c, if end > |c| then end else |c|), off, buf)
  }

  /** Byte `pos` after the first `done` bytes of `buf` were written from `offset`: old bytes past the end may have become zero. */
  ghost predicate WroteAt(codec: Codec, rb: nat, a: Snap, b: Snap, ino: nat, offset: nat, buf: seq<byte>, done: nat,
          pos: nat)
    requires rb > 0 && ino in a.inodes && ino in b.inodes && done <= |buf|
  {
    if offset <= pos < offset + done then VisibleByte(codec, rb, b, ino, pos) == buf[pos - offset]
    else
      VisibleByte(codec, rb, b, ino, pos) == VisibleByte(codec, rb, a, ino, pos)
      || (pos >= a.inodes[ino].size && VisibleByte(codec, rb, b, ino, pos) == 0)
  }

  ghost predicate SameKind(f: Inode, g: Inode) {
    g.size == f.size && g.compression == f.compression && (g.UsesCompression() <==> f.UsesCompression()) && (g.kind.Inline? <==> f.kind.Inline?)
  }

  ghost predicate Wrote(codec: Codec, rb: nat, a: Snap, b: Snap, ino: nat, offset: nat, buf: seq<byte>, done: nat)
    requires rb > 0 && done <= |buf|
  {
    && SameExcept(codec, rb, a, b, ino) && ino in a.inodes && ino in b.inodes && SameKind(a.inodes[ino], b.inodes[ino])
    && forall pos: nat :: WroteAt(codec, rb, a, b, ino, offset, buf, done, pos)
  }

  lemma WroteNothing(codec: Codec, rb: nat, a: Snap, ino: nat, offset: nat, buf: seq<byte>)
    requires rb > 0 && ino in a.inodes
    ensures Wrote(codec, rb, a, a, ino, offset, buf, 0)
  {
    hide VisibleByte, RecordByte;
  }

  lemma WroteThenSame(codec: Codec, rb: nat, a: Snap, b: Snap, c: Snap, ino: nat, offset: nat, buf: seq<byte>,
          done: nat)
    requires rb > 0 && done <= |buf| && Wrote(codec, rb, a, b, ino, offset, buf, done) && SameAll(codec, rb, b, c)
    ensures Wrote(codec, rb, a, c, ino, offset, buf, done)
  {
    assert SameFile(codec, rb, b, c, ino);
    hide VisibleByte, RecordByte, SameFile;
    SameExceptTransitive(codec, rb, a, b, c, ino);
    SameBytes(codec, rb, b, c, ino);
    forall pos: nat ensures WroteAt(codec, rb, a, c, ino, offset, buf, done, pos) {
      assert WroteAt(codec, rb, a, b, ino, offset, buf, done, pos);
    }
  }

  /** The cached record with `piece` written into it. */
  function Poked(s: Snap, within: nat, piece: seq<byte>): Snap
    requires s.rc.Some? && within + |piece| <= |s.rc.value.data|
  {
    s.(rc := Some(s.rc.value.(data := Splice(s.rc.value.data, within, piece), dirty := true)))
  }

  lemma PokeByte(codec: Codec, rb: nat, s: Snap, ino: nat, at: nat, piece: seq<byte>, pos: nat)
    requires rb > 0 && ino in s.inodes && CacheOk(codec, rb, s) && s.rc.Some?
    requires s.rc.value.ino == ino && s.rc.value.rec == RecIndex(rb, at)
    requires RecWithin(rb, at) + |piece| <= |s.rc.value.data|
    ensures var t := Poked(s, RecWithin(rb, at), piece); var v := VisibleByte(codec, rb, t, ino, pos);
      if at <= pos < at + |piece| then v == piece[pos - at]
      else v == VisibleByte(codec, rb, s, ino, pos)
           || (RecIndex(rb, pos) == RecIndex(rb, at) && pos >= s.inodes[ino].size && v == 0)
  {
    hide StoredByte, RecIndex, RecStart, Mirrors;
    PosInRecord(rb, at);
    PosInRecord(rb, pos);
    if at <= pos < at + |piece| {
      SameRecord(rb, at, pos - at);
    } else if RecIndex(rb, pos) == RecIndex(rb, at) {
      CachedByte(codec, rb, s, ino, pos);
    }
  }

  lemma EarlierRecord(rb: nat, at: nat, pos: nat)
    requires rb > 0 && RecWithin(rb, at) == 0 && pos < at
    ensures RecIndex(rb, pos) != RecIndex(rb, at)
  {
    hide RecIndex, RecWithin, RecStart;
    PosInRecord(rb, at);
    PosInRecord(rb, pos);
  }

  /** Writing up to the end of a record leaves the next write at the start of one. */
  lemma NextRecord(rb: nat, pos: nat, chunk: nat)
    requires rb > 0 && RecWithin(rb, pos) + chunk == RecBytes(rb)
    ensures RecWithin(rb, pos + chunk) == 0
  {
    hide RecIndex, RecWithin, RecStart;
    var rec := RecIndex(rb, pos);
    PosInRecord(rb, pos);
    MulLess(rec, rec + 1, rb);
    NextStart(rb, rec);
    RecordOfPos(rb, rec + 1, 0);
  }

  lemma NextStart(rb: nat, rec: nat)
    ensures RecStart(rb, rec + 1) == RecStart(rb, rec) + rb
  {
    assert (rec + 1) * rb == rec * rb + rb;
  }

  lemma WroteKind(codec: Codec, rb: nat, a: Snap, b: Snap, ino: nat, offset: nat, buf: seq<byte>, done: nat)
    requires rb > 0 && done <= |buf| && Wrote(codec, rb, a, b, ino, offset, buf, done)
    ensures ino in a.inodes && ino in b.inodes && SameKind(a.inodes[ino], b.inodes[ino]) && a.inodes.Keys == b.inodes.Keys
  {
  }

  lemma PokeSameExcept(codec: Codec, rb: nat, s: Snap, t: Snap)
    requires s.rc.Some? && t.rc.Some? && t.rc.value.ino == s.rc.value.ino
    requires t.inodes == s.inodes && t.disk == s.disk
    ensures SameExcept(codec, rb, s, t, s.rc.value.ino)
  {
    hide StoredByte;
  }

  /** One chunk of the write loop. */
  lemma WriteStep(codec: Codec, rb: nat, a: Snap, s: Snap, ino: nat, offset: nat, buf: seq<byte>, done: nat, chunk: nat)
    requires rb > 0 && done + chunk <= |buf| && Wrote(codec, rb, a, s, ino, offset, buf, done)
    requires CacheOk(codec, rb, s) && s.rc.Some? && s.rc.value.ino == ino && s.rc.value.rec == RecIndex(rb, offset + done)
    requires RecWithin(rb, offset + done) + chunk <= |s.rc.value.data|
    requires done == 0 || RecWithin(rb, offset + done) == 0
    ensures var t := Poked(s, RecWithin(rb, offset + done), buf[done..done + chunk]);
      Wrote(codec, rb, a, t, ino, offset, buf, done + chunk) && CacheOk(codec, rb, t)
  {
    hide VisibleByte, RecordByte, SameExcept, RecIndex, RecWithin, Mirrors;
    var at := offset + done;
    var piece := buf[done..done + chunk];
    var t := Poked(s, RecWithin(rb, at), piece);
    PokeSameExcept(codec, rb, s, t);
    SameExceptTransitive(codec, rb, a, s, t, ino);
    var next := done + chunk;
    forall pos: nat ensures WroteAt(codec, rb, a, t, ino, offset, buf, next, pos) {
      assert WroteAt(codec, rb, a, s, ino, offset, buf, done, pos);
      PokeByte(codec, rb, s, ino, at, piece, pos);
      if done > 0 && pos < at { EarlierRecord(rb, at, pos); }
    }
  }

  /** The size is not part of where bytes live. */
  lemma ResizeBytes(codec: Codec, rb: nat, s: Snap, ino: nat, size: nat)
    requires rb > 0 && ino in s.inodes
    ensures var t := s.(inodes := s.inodes[ino := s.inodes[ino].(size := size)]);
      && SameExcept(codec, rb, s, t, ino)
      && forall pos: nat :: VisibleByte(codec, rb, t, ino, pos) == VisibleByte(codec, rb, s, ino, pos)
  {
    hide StoredByte, RecIndex, RecWithin;
  }

  /** A finished write, with the size raised to cover it, is an overwrite of the plain bytes. */
  lemma WriteDone(codec: Codec, rb: nat, a: Snap, s: Snap, ino: nat, offset: nat, buf: seq<byte>, size: nat)
    requires rb > 0 && SameExcept(codec, rb, a, s, ino) && ino in a.inodes && ino in s.inodes && buf != []
    requires forall pos: nat :: WroteAt(codec, rb, a, s, ino, offset, buf, |buf|, pos)
    requires size == if offset + |buf| > a.inodes[ino].size then offset + |buf| else a.inodes[ino].size
    ensures var t := s.(inodes := s.inodes[ino := s.inodes[ino].(size := size)]);
      && SameExcept(codec, rb, a, t, ino)
      && (Clean(codec, rb, a, ino) || offset <= a.inodes[ino].size ==>
            Content(codec, rb, t, ino) == Overwrite(Content(codec, rb, a, ino), offset, buf))
      && (Clean(codec, rb, a, ino) ==> Clean(codec, rb, t, ino))
  {
    hide VisibleByte, SameFile;
    var t := s.(inodes := s.inodes[ino := s.inodes[ino].(size := size)]);
    ResizeBytes(codec, rb, s, ino, size);
    SameExceptTransitive(codec, rb, a, s, t, ino);
    var c, o := Content(codec, rb, t, ino), Overwrite(Content(codec, rb, a, ino), offset, buf);
    if Clean(codec, rb, a, ino) || offset <= a.inodes[ino].size {
      forall pos: nat | pos < |c| ensures c[pos] == o[pos] {
        assert WroteAt(codec, rb, a, s, ino, offset, buf, |buf|, pos);
      }
    }
    if Clean(codec, rb, a, ino) {
      forall pos: nat | pos >= size ensures VisibleByte(codec, rb, t, ino, pos) == 0 {
        assert WroteAt(codec, rb, a, s, ino, offset, buf, |buf|, pos);
      }
    }
  }

  /** The written bytes read back, in a file just long enough to hold them and what was there. */
  ghost predicate Landed(c: seq<byte>, e: seq<byte>, offset: nat, buf: seq<byte>) {
    && |e| == (if offset + |buf| > |c| then offset + |buf| else |c|)
    && e[offset..offset + |buf|] == buf
  }

  lemma OverwriteLanded(c: seq<byte>, offset: nat, buf: seq<byte>)
    ensures Landed(c, Overwrite(c, offset, buf), offset, buf)
    ensures forall pos: nat :: pos < |c| && !(offset <= pos < offset + |buf|) ==> Overwrite(c, offset, buf)[pos] == c[pos]
  {
  }

  lemma WroteLanded(codec: Codec, rb: nat, a: Snap, s: Snap, ino: nat, offset: nat, buf: seq<byte>, size: nat)
    requires rb > 0 && ino in a.inodes && ino in s.inodes && buf != []
    requires forall pos: nat :: WroteAt(codec, rb, a, s, ino, offset, buf, |buf|, pos)
    requires size == if offset + |buf| > a.inodes[ino].size then offset + |buf| else a.inodes[ino].size
    ensures var t := s.(inodes := s.inodes[ino := s.inodes[ino].(size := size)]);
      Landed(Content(codec, rb, a, ino), Content(codec, rb, t, ino), offset, buf)
  {
    hide VisibleByte, SameFile;
    var t := s.(inodes := s.inodes[ino := s.inodes[ino].(size := size)]);
    ResizeBytes(codec, rb, s, ino, size);
    var e := Content(codec, rb, t, ino);
    forall pos: nat | offset <= pos < offset + |buf| ensures e[pos] == buf[pos - offset] {
      assert WroteAt(codec, rb, a, s, ino, offset, buf, |buf|, pos);
    }
  }

  lemma SameExtentsOwning(inodes: map<nat, Inode>, owner: map<nat, nat>, free: Runs, first: nat, total: nat, ino: nat,
          f: Inode)
    requires Owning(inodes, owner, free, first, total) && ino in inodes && f.extents == inodes[ino].extents
    ensures Owning(inodes[ino := f], owner, free, first, total)
  {
    hide Owns, Covers;
    var after := inodes[ino := f];
    forall i: nat, b: nat | i in after ensures Owns(after[i].extents, b) <==> b in owner && owner[b] == i {
      assert Owns(inodes[i].extents, b) <==> b in owner && owner[b] == i;
    }
  }

  /** Changing a file's attributes and not its extents keeps the storage invariants. */
  lemma AttributesKeep(codec: Codec, d: Disk, rb: nat, inodes: map<nat, Inode>, owner: map<nat, nat>, free: Runs, first: nat, total: nat,
                       ino: nat, g: Inode)
    requires rb > 0 && AllSound(codec, inodes, d, rb) && Owning(inodes, owner, free, first, total) && ino in inodes
    requires g.extents == inodes[ino].extents && g.size <= MAX_FILE_SIZE
    requires g.kind.Inline? ==> g.extents == [] && |g.inlineData| == g.size
    ensures AllSound(codec, inodes[ino := g], d, rb) && Owning(inodes[ino := g], owner, free, first, total)
  {
    hide Sound, Readable;
    assert FileSound(codec, inodes[ino], d, rb);
    AllSoundUpdate(codec, inodes, d, rb, ino, g);
    SameExtentsOwning(inodes, owner, free, first, total, ino, g);
  }

  lemma FlagsKeep(inodes: map<nat, Inode>, ino: nat, g: Inode)
    requires AllFlagged(inodes) && ino in inodes && g.extents == inodes[ino].extents
    requires inodes[ino].flagCompressed ==> g.flagCompressed
    ensures AllFlagged(inodes[ino := g])
  {
    assert FileFlagged(inodes[ino]);
  }

  /** Storing a record of a file that the record cache does not hold. */
  lemma StoreKeepsCache(codec: Codec, rb: nat, s: Snap, inodes: map<nat, Inode>, d: Disk, ino: nat, rec: nat,
          data: seq<byte>)
    requires rb > 0 && AllSound(codec, s.inodes, s.disk, rb) && CacheOk(codec, rb, s) && ino in s.inodes
    requires s.rc.Some? ==> s.rc.value.ino != ino
    requires RecordSet(codec, rb, s.inodes, s.disk, inodes, d, ino, rec, data)
    ensures var t := Snap(inodes, s.rc, d);
      && CacheOk(codec, rb, t) && SameExcept(codec, rb, s, t, ino)
      && forall r: nat, w: nat :: w < RecBytes(rb) ==>
           RecordByte(codec, rb, t, ino, r, w) == if r == rec then ByteOr0(data, w) else RecordByte(codec, rb, s, ino, r, w)
  {
    hide StoredByte, Sound, Readable, AgreeOn, FileFlagged;
    var t := Snap(inodes, s.rc, d);
    forall j: nat | j in s.inodes && j != ino
      ensures SameFile(codec, rb, s, t, j)
      ensures forall r: nat, w: nat :: StoredByte(codec, s.inodes[j].extents, d, rb, r, w) == StoredByte(codec, s.inodes[j].extents, s.disk, rb, r, w)
    {
      assert FileSound(codec, s.inodes[j], s.disk, rb);
      forall r: nat, w: nat
        ensures StoredByte(codec, s.inodes[j].extents, d, rb, r, w) == StoredByte(codec, s.inodes[j].extents, s.disk, rb, r, w)
      {
        StoredSame(codec, s.inodes[j].extents, s.disk, d, rb, r, w);
      }
    }
  }

  /** The first `off` bytes of `full` are stored, and nothing else is. */
  ghost predicate Filled(codec: Codec, rb: nat, a: Snap, b: Snap, ino: nat, full: seq<byte>, off: nat)
    requires rb > 0 && off <= |full|
  {
    && SameExcept(codec, rb, a, b, ino) && ino in b.inodes && !b.inodes[ino].kind.Inline? && b.inodes[ino].size == |full|
    && (b.rc.Some? ==> b.rc.value.ino != ino)
    && forall pos: nat :: VisibleByte(codec, rb, b, ino, pos) == if pos < off then full[pos] else 0
  }

  /** An inline file turned into one with no extents, its bytes yet to be stored. */
  lemma FilledNothing(codec: Codec, rb: nat, a: Snap, ino: nat, g: Inode, full: seq<byte>)
    requires rb > 0 && ino in a.inodes && a.inodes[ino].kind.Inline? && CacheOk(codec, rb, a)
    requires g.extents == [] && !g.kind.Inline? && g.size == |full|
    ensures var b := a.(inodes := a.inodes[ino := g]);
      Filled(codec, rb, a, b, ino, full, 0) && CacheOk(codec, rb, b)
  {
    hide RecordData;
  }

  lemma FillStep(codec: Codec, rb: nat, a: Snap, s: Snap, t: Snap, ino: nat, full: seq<byte>, off: nat, n: nat)
    requires rb > 0 && off + n <= |full| && Filled(codec, rb, a, s, ino, full, off)
    requires RecWithin(rb, off) == 0 && n <= RecBytes(rb) && (n == RecBytes(rb) || off + n == |full|)
    requires SameExcept(codec, rb, s, t, ino) && ino in t.inodes && !t.inodes[ino].kind.Inline? && t.inodes[ino].size == |full| && t.rc == s.rc
    requires forall r: nat, w: nat :: w < RecBytes(rb) ==>
      RecordByte(codec, rb, t, ino, r, w) ==
        if r == RecIndex(rb, off) then ByteOr0(full[off..off + n], w) else RecordByte(codec, rb, s, ino, r, w)
    ensures Filled(codec, rb, a, t, ino, full, off + n)
  {
    hide RecordByte, RecIndex, RecWithin, RecStart, SameFile;
    SameExceptTransitive(codec, rb, a, s, t, ino);
    PosInRecord(rb, off);
    forall pos: nat ensures VisibleByte(codec, rb, t, ino, pos) == if pos < off + n then full[pos] else 0 {
      PosInRecord(rb, pos);
      if RecIndex(rb, pos) == RecIndex(rb, off) {
        assert RecWithin(rb, pos) == pos - off;
      } else {
        assert VisibleByte(codec, rb, s, ino, pos) == if pos < off then full[pos] else 0;
        if off <= pos < off + n { SameRecord(rb, off, pos - off); }
      }
    }
  }

  lemma RecordSetKind(codec: Codec, rb: nat, inodes0: map<nat, Inode>, d0: Disk, inodes1: map<nat, Inode>, d1: Disk,
                      ino: nat, rec: nat, data: seq<byte>)
    requires ino in inodes0 && RecordSet(codec, rb, inodes0, d0, inodes1, d1, ino, rec, data)
    ensures ino in inodes1 && !inodes1[ino].kind.Inline? && inodes1[ino].size == inodes0[ino].size
    ensures inodes1[ino].UsesCompression() <==> inodes0[ino].UsesCompression()
    ensures inodes1[ino].compression == inodes0[ino].compression
  {
    hide StoredByte;
  }

  lemma ZeroInRecord(rb: nat)
    requires rb > 0
    ensures RecWithin(rb, 0) == 0
  {
    RecordOfPos(rb, 0, 0);
  }

  lemma FilledKind(codec: Codec, rb: nat, a: Snap, b: Snap, ino: nat, full: seq<byte>, off: nat)
    requires rb > 0 && off <= |full| && Filled(codec, rb, a, b, ino, full, off)
    ensures ino in b.inodes && !b.inodes[ino].kind.Inline? && b.inodes[ino].size == |full|
    ensures b.rc.Some? ==> b.rc.value.ino != ino
    ensures SameExcept(codec, rb, a, b, ino)
  {
    hide SameFile;
  }

  lemma FilledDone(codec: Codec, rb: nat, a: Snap, b: Snap, ino: nat, full: seq<byte>)
    requires rb > 0 && Filled(codec, rb, a, b, ino, full, |full|)
    ensures SameExcept(codec, rb, a, b, ino) && ino in b.inodes
    ensures Content(codec, rb, b, ino) == full && Clean(codec, rb, b, ino)
  {
    hide VisibleByte, SameFile;
  }

  lemma InlineContent(codec: Codec, rb: nat, s: Snap, ino: nat)
    requires rb > 0 && ino in s.inodes && s.inodes[ino].kind.Inline? && |s.inodes[ino].inlineData| == s.inodes[ino].size
    ensures Content(codec, rb, s, ino) == s.inodes[ino].inlineData && Clean(codec, rb, s, ino)
  {
  }

  // --- raw writes ---------------------------------------------------------------------------

  /** The byte at `pos` through the block map alone: what `read_data_raw` reads. */
  function RawByte(f: Inode, d: Disk, pos: nat): byte {
    if f.kind.Inline? then ByteOr0(f.inlineData, pos)
    else
      match MapBlock(f.extents, pos / 4096)
      case Some(p) => d.At(p)[pos % 4096]
      case None => 0
  }

  /** The file has no compressed extent. */
  predicate AllRaw(f: Inode) { forall e :: e in f.extents ==> !e.IsCompressed() }

  lemma UncompressedIsRaw(inodes: map<nat, Inode>, ino: nat)
    requires AllFlagged(inodes) && ino in inodes && !inodes[ino].UsesCompression()
    ensures AllRaw(inodes[ino])
  {
    assert FileFlagged(inodes[ino]);
  }

  /** Over raw extents the block map and the spots say the same. */
  lemma MapOfSpot(exts: seq<Extent>, l: nat)
    requires forall e :: e in exts ==> !e.IsCompressed()
    ensures MapBlock(exts, l) == match SpotOf(exts, l) case Raw(p) => Some(p) case _ => None
    ensures !SpotOf(exts, l).Packed?
  {
    var e := SpotFrom(exts, l);
  }

  /** Different logical blocks live in different physical blocks. */
  lemma MapInjective(exts: seq<Extent>, rb: nat, l: nat, m: nat)
    requires rb > 0 && Sound(exts, rb) && (forall e :: e in exts ==> !e.IsCompressed())
    requires MapBlock(exts, l).Some? && MapBlock(exts, l) == MapBlock(exts, m)
    ensures l == m
  {
    var e := SpotFrom(exts, l);
    var f := SpotFrom(exts, m);
    assert SoundExtent(e.value, rb) && SoundExtent(f.value, rb);
    assert e.value == f.value || Apart(e.value, f.value);
  }

  lemma MapOwned(exts: seq<Extent>, rb: nat, l: nat)
    requires rb > 0 && Sound(exts, rb) && (forall e :: e in exts ==> !e.IsCompressed())
    ensures MapBlock(exts, l).Some? ==> Owns(exts, MapBlock(exts, l).value)
  {
    var e := SpotFrom(exts, l);
    if e.Some? {
      assert SoundExtent(e.value, rb);
      assert e.value.Holds(MapBlock(exts, l).value);
    }
  }

  /** Writing inside the block that holds `at` changes those bytes of the file and no others. */
  lemma RawPoke(f: Inode, d: Disk, c: Disk, rb: nat, phys: nat, at: nat, piece: seq<byte>, pos: nat)
    requires rb > 0 && Sound(f.extents, rb) && AllRaw(f) && !f.kind.Inline?
    requires MapBlock(f.extents, at / 4096) == Some(phys) && at % 4096 + |piece| <= 4096
    requires forall b: nat :: c.At(b) == if b == phys then Splice(d.At(phys), at % 4096, piece) else d.At(b)
    ensures RawByte(f, c, pos) == if at <= pos < at + |piece| then piece[pos - at] else RawByte(f, d, pos)
  {
    hide Sound, MapBlock, Disk.At;
    var p := MapBlock(f.extents, pos / 4096);
    if p == Some(phys) { MapInjective(f.extents, rb, at / 4096, pos / 4096); }
    if at <= pos < at + |piece| { assert pos / 4096 == at / 4096 && pos % 4096 == at % 4096 + (pos - at); }
  }

  /** Mapping a block that was a hole exposes what that block held; every other byte is as before. */
  lemma RawMapped(f: Inode, g: Inode, d: Disk, rb: nat, logical: nat, phys: nat, pos: nat)
    requires rb > 0 && AllRaw(f) && !f.kind.Inline? && !g.kind.Inline? && SpotOf(f.extents, logical) == Hole
    requires Addable(f.extents, Whole(logical, phys, 1), rb) && g.extents == Added(f.extents, Whole(logical, phys, 1))
    ensures AllRaw(g)
    ensures MapBlock(g.extents, pos / 4096) == if pos / 4096 == logical then Some(phys) else MapBlock(f.extents, pos / 4096)
    ensures RawByte(g, d, pos) == if pos / 4096 == logical then d.At(phys)[pos % 4096] else RawByte(f, d, pos)
  {
    hide Disk.At, Addable, Added;
    var e := Whole(logical, phys, 1);
    forall x | x in g.extents ensures !x.IsCompressed() { if x.IsCompressed() { AddedPacked(f.extents, e, rb, x); } }
    AddedSpot(f.extents, e, rb, pos / 4096);
    MapOfSpot(g.extents, pos / 4096);
    MapOfSpot(f.extents, pos / 4096);
  }

  /** Logical block `l` has a byte of `[offset, offset + done)` in it. */
  predicate Touched(offset: nat, done: nat, l: nat) { done > 0 && offset / 4096 <= l <= (offset + done - 1) / 4096 }

  /**
    Byte `pos` of an uncompressed file after `done` bytes were written: the written byte; the old byte, where its block
    was mapped before or is not touched; and otherwise whatever the newly allocated block held.
  */
  ghost predicate RawWroteAt(f: Inode, d: Disk, g: Inode, c: Disk, offset: nat, buf: seq<byte>, done: nat, pos: nat)
    requires done <= |buf|
  {
    if offset <= pos < offset + done then RawByte(g, c, pos) == buf[pos - offset]
    else if MapBlock(f.extents, pos / 4096).Some? || !Touched(offset, done, pos / 4096) then RawByte(g, c, pos) == RawByte(f, d, pos)
    else MapBlock(g.extents, pos / 4096).Some? && RawByte(g, c, pos) == d.At(MapBlock(g.extents, pos / 4096).value)[pos % 4096]
  }

  /** The block map keeps what it had, and grows only in touched blocks. */
  ghost predicate MapGrew(f: Inode, g: Inode, offset: nat, done: nat, l: nat) {
    MapBlock(f.extents, l).Some? || !Touched(offset, done, l) ==> MapBlock(g.extents, l) == MapBlock(f.extents, l)
  }

  ghost predicate RawWrote(f: Inode, d: Disk, g: Inode, c: Disk, offset: nat, buf: seq<byte>, done: nat)
    requires done <= |buf|
  {
    && !g.kind.Inline? && AllRaw(g) && g.size == f.size && g.compression == f.compression && g.flagCompressed == f.flagCompressed
    && (forall l: nat :: MapGrew(f, g, offset, done, l))
    && (forall pos: nat :: RawWroteAt(f, d, g, c, offset, buf, done, pos))
    // Only blocks of this file have been written.
    && (forall b: nat :: !Owns(g.extents, b) ==> c.At(b) == d.At(b))
  }

  lemma RawWroteNothing(f: Inode, d: Disk, offset: nat, buf: seq<byte>)
    requires !f.kind.Inline? && AllRaw(f)
    ensures RawWrote(f, d, f, d, offset, buf, 0)
  {
    hide RawByte, MapBlock, Disk.At;
  }

  /** Block `logical` lives in `phys`: it was mapped there, or a new one-block extent maps it. */
  ghost predicate Mapped(s: Inode, g: Inode, rb: nat, logical: nat, phys: nat)
    requires rb > 0
  {
    if SpotOf(s.extents, logical) == Hole then
      && Addable(s.extents, Whole(logical, phys, 1), rb) && !g.kind.Inline?
      && g.extents == Added(s.extents, Whole(logical, phys, 1))
      && g.size == s.size && g.compression == s.compression && g.flagCompressed == s.flagCompressed
    else g == s && MapBlock(s.extents, logical) == Some(phys)
  }

  /** Block `phys` has `piece` written into it at `within`; every other block is as before. */
  ghost predicate PokedAt(d: Disk, c: Disk, phys: nat, within: nat, piece: seq<byte>) {
    && within + |piece| <= BLOCK_SIZE
    && forall b: nat :: c.At(b) == if b == phys then Splice(d.At(phys), within, piece) else d.At(b)
  }

  /** A write that gives an empty uncompressed file its first block. */
  predicate StartsFile(f: Inode, offset: nat, len: nat) {
    !f.UsesCompression() && f.extents == [] && f.inlineData == [] && offset + len > INLINE_MAX && offset % 4096 + len <= 4096
  }

  /** The first block of a file: the one the allocator chose, with `buf` written into what it held. */
  ghost predicate FirstBlockAt(free0: Runs, total0: nat, d: Disk, phys: nat, free1: Runs, total1: nat, c: Disk,
                               exts: seq<Extent>, offset: nat, buf: seq<byte>) {
    && TookOne(free0, total0, phys, free1, total1)
    && exts == [Whole(offset / 4096, phys, 1)] && PokedAt(d, c, phys, offset % 4096, buf)
  }

  ghost predicate FirstBlock(free0: Runs, total0: nat, d: Disk, free1: Runs, total1: nat, c: Disk,
                             exts: seq<Extent>, offset: nat, buf: seq<byte>) {
    exists phys: nat :: FirstBlockAt(free0, total0, d, phys, free1, total1, c, exts, offset, buf)
  }

  lemma FirstBlockFrom(f: Inode, g: Inode, rb: nat, free0: Runs, total0: nat, d: Disk, phys: nat, free1: Runs, total1: nat,
          c: Disk, offset: nat, buf: seq<byte>)
    requires rb > 0 && f.extents == [] && Mapped(f, g, rb, offset / 4096, phys) && PokedAt(d, c, phys, offset % 4096, buf)
    requires SpotOf(f.extents, offset / 4096) == Hole ==> TookOne(free0, total0, phys, free1, total1)
    ensures FirstBlock(free0, total0, d, free1, total1, c, g.extents, offset, buf)
  {
    hide Sound, Owns, PokedAt, TookOne;
    var e := Whole(offset / 4096, phys, 1);
    var none: seq<Extent> := [];
    SortSnoc(none, e);
    assert Insert(none, e) == [e] && !Continues(none, e);
    assert FirstBlockAt(free0, total0, d, phys, free1, total1, c, g.extents, offset, buf);
  }

  lemma PokedOver(d: Disk, x: Disk, c: Disk, phys: nat, within: nat, piece: seq<byte>)
    requires SameDisk(d, x) && PokedAt(x, c, phys, within, piece)
    ensures PokedAt(d, c, phys, within, piece)
  {
    hide Disk.At;
  }

  /** One chunk of the raw write loop, whose block `phys` was mapped already or has just been allocated. */
  lemma RawWriteStep(f: Inode, d: Disk, s: Inode, x: Disk, g: Inode, c: Disk, rb: nat,
                     offset: nat, buf: seq<byte>, done: nat, chunk: nat, phys: nat)
    requires rb > 0 && 0 < chunk && done + chunk <= |buf| && RawWrote(f, d, s, x, offset, buf, done)
    requires Sound(s.extents, rb) && Sound(g.extents, rb)
    requires (offset + done) % 4096 + chunk <= 4096 && (done > 0 ==> (offset + done) % 4096 == 0)
    requires Mapped(s, g, rb, (offset + done) / 4096, phys)
    requires PokedAt(x, c, phys, (offset + done) % 4096, buf[done..done + chunk])
    ensures RawWrote(f, d, g, c, offset, buf, done + chunk)
  {
    hide Sound, Disk.At, Added, Addable, RawByte, MapBlock, Owns;
    var at := offset + done;
    var logical := at / 4096;
    var next := done + chunk;
    var piece := buf[done..next];
    RawStepMaps(s, g, x, rb, logical, phys);
    forall l: nat ensures MapGrew(f, g, offset, next, l) {
      assert MapGrew(f, s, offset, done, l);
      TouchedNext(offset, done, chunk, l);
    }
    MapOwned(g.extents, rb, logical);
    forall b: nat | !Owns(g.extents, b) ensures c.At(b) == d.At(b) { RawStepOwns(s, g, rb, logical, phys, b); }
    forall pos: nat ensures RawWroteAt(f, d, g, c, offset, buf, next, pos) {
      assert RawWroteAt(f, d, s, x, offset, buf, done, pos) && MapGrew(f, s, offset, done, pos / 4096);
      TouchedNext(offset, done, chunk, pos / 4096);
      RawPoke(g, x, c, rb, phys, at, piece, pos);
      if SpotOf(s.extents, logical) == Hole {
        RawMapped(s, g, x, rb, logical, phys, pos);
        FreshBlock(s.extents, Whole(logical, phys, 1), rb, phys);
      }
      if offset <= pos < at { assert pos / 4096 != logical; }
    }
  }

  lemma TouchedNext(offset: nat, done: nat, chunk: nat, l: nat)
    requires chunk > 0 && (offset + done) % 4096 + chunk <= 4096
    ensures Touched(offset, done + chunk, l) <==> Touched(offset, done, l) || l == (offset + done) / 4096
  {
    assert (offset + done + chunk - 1) / 4096 == (offset + done) / 4096;
  }

  lemma FreshBlock(exts: seq<Extent>, e: Extent, rb: nat, b: nat)
    requires rb > 0 && Addable(exts, e, rb) && e.Holds(b)
    ensures !Owns(exts, b)
  {
  }

  lemma RawStepMaps(s: Inode, g: Inode, y: Disk, rb: nat, logical: nat, phys: nat)
    requires rb > 0 && AllRaw(s) && !s.kind.Inline? && Mapped(s, g, rb, logical, phys)
    ensures AllRaw(g) && MapBlock(g.extents, logical) == Some(phys)
    ensures forall l: nat :: l != logical ==> MapBlock(g.extents, l) == MapBlock(s.extents, l)
    ensures SpotOf(s.extents, logical) == Hole ==> MapBlock(s.extents, logical) == None
  {
    hide Addable, Added, Disk.At;
    MapOfSpot(s.extents, logical);
    if SpotOf(s.extents, logical) == Hole {
      forall l: nat ensures MapBlock(g.extents, l) == (if l == logical then Some(phys) else MapBlock(s.extents, l)) && AllRaw(g) {
        RawMapped(s, g, y, rb, logical, phys, l * 4096);
        assert l * 4096 / 4096 == l;
      }
    }
  }

  lemma RawStepOwns(s: Inode, g: Inode, rb: nat, logical: nat, phys: nat, b: nat)
    requires rb > 0 && Mapped(s, g, rb, logical, phys)
    ensures Owns(s.extents, b) ==> Owns(g.extents, b)
  {
    hide Added, Addable;
    if SpotOf(s.extents, logical) == Hole { AddedOwns(s.extents, Whole(logical, phys, 1), rb, b); }
  }

  /** Changes to one file's own blocks leave every other file, and the record cache, as they were. */
  lemma OwnBlocksOnly(codec: Codec, rb: nat, a: Snap, inodes: map<nat, Inode>, d: Disk, owner: map<nat, nat>,
          free: Runs, first: nat, total: nat, ino: nat)
    requires rb > 0 && AllSound(codec, a.inodes, a.disk, rb) && CacheOk(codec, rb, a) && ino in a.inodes
    requires a.rc.Some? ==> a.rc.value.ino != ino
    requires inodes.Keys == a.inodes.Keys && forall j: nat :: j in a.inodes && j != ino ==> inodes[j] == a.inodes[j]
    requires Owning(inodes, owner, free, first, total)
    requires forall b: nat :: !Owns(inodes[ino].extents, b) ==> d.At(b) == a.disk.At(b)
    ensures SameExcept(codec, rb, a, Snap(inodes, a.rc, d), ino) && CacheOk(codec, rb, Snap(inodes, a.rc, d))
    ensures forall j: nat :: j in a.inodes && j != ino ==> AgreeOn(a.inodes[j].extents, a.disk, d)
  {
    hide StoredByte, Readable, Covers;
    var t := Snap(inodes, a.rc, d);
    forall j: nat | j in a.inodes && j != ino
      ensures SameFile(codec, rb, a, t, j) && AgreeOn(a.inodes[j].extents, a.disk, d)
      ensures forall r: nat, w: nat :: StoredByte(codec, a.inodes[j].extents, d, rb, r, w) == StoredByte(codec, a.inodes[j].extents, a.disk, rb, r, w)
    {
      assert FileSound(codec, a.inodes[j], a.disk, rb);
      forall b: nat | Owns(a.inodes[j].extents, b) ensures d.At(b) == a.disk.At(b) {
        assert Owns(inodes[j].extents, b) <==> b in owner && owner[b] == j;
        assert Owns(inodes[ino].extents, b) <==> b in owner && owner[b] == ino;
      }
      forall r: nat, w: nat
        ensures StoredByte(codec, a.inodes[j].extents, d, rb, r, w) == StoredByte(codec, a.inodes[j].extents, a.disk, rb, r, w)
      {
        StoredSame(codec, a.inodes[j].extents, a.disk, d, rb, r, w);
      }
    }
  }

  /** An inline file's bytes are the same once written to fresh blocks. */
  lemma PromotedBytes(g: Inode, d: Disk, phys: nat, n: nat, data: seq<byte>)
    requires !g.kind.Inline? && g.extents == [Whole(0, phys, n)] && |data| <= n * 4096
    requires forall i: nat :: i < n ==> d.At(phys + i) == Chunk(data, i)
    ensures forall pos: nat :: RawByte(g, d, pos) == ByteOr0(data, pos)
    ensures forall l: nat :: MapBlock(g.extents, l).Some? <==> l < n
  {
    forall l: nat ensures MapBlock(g.extents, l).Some? <==> l < n {
      if l < n { SpotAt(g.extents, 0, l); } else { MapOfSpot(g.extents, l); }
    }
    forall pos: nat ensures RawByte(g, d, pos) == ByteOr0(data, pos) {
      MapOfSpot(g.extents, pos / 4096);
      if pos / 4096 < n {
        SpotAt(g.extents, 0, pos / 4096);
        assert d.At(phys + pos / 4096) == Chunk(data, pos / 4096);
        ChunkByte(data, pos);
      }
    }
  }

  lemma FlagsKeepRaw(inodes0: map<nat, Inode>, inodes1: map<nat, Inode>, ino: nat)
    requires AllFlagged(inodes0) && ino in inodes1 && inodes1.Keys == inodes0.Keys && AllRaw(inodes1[ino])
    requires forall j: nat :: j in inodes0 && j != ino ==> inodes1[j] == inodes0[j]
    ensures AllFlagged(inodes1)
  {
    forall j: nat | j in inodes1 ensures FileFlagged(inodes1[j]) { if j != ino { assert FileFlagged(inodes0[j]); } }
  }

  lemma EmptyBytes(g: Inode, d: Disk)
    requires !g.kind.Inline? && g.extents == []
    ensures forall pos: nat :: RawByte(g, d, pos) == 0
    ensures forall l: nat :: MapBlock(g.extents, l) == None
  {
  }

  lemma OverlayParts(d: Disk, c: Disk, phys: nat, n: nat, data: seq<byte>)
    requires forall b: nat :: c.At(b) == Overlay(d, phys, n, data, b)
    ensures forall b: nat :: !InRange(phys, n, b) ==> c.At(b) == d.At(b)
    ensures forall i: nat :: i < n ==> c.At(phys + i) == Chunk(data, i)
  {
    hide Disk.At;
    forall i: nat | i < n ensures c.At(phys + i) == Chunk(data, i) {
      assert c.At(phys + i) == Overlay(d, phys, n, data, phys + i);
    }
  }

  lemma GrownSameDisk(d: Disk, c: Disk)
    requires c.entries == d.entries && forall b: nat :: BlockOf(c.image, b) == BlockOf(d.image, b)
    ensures SameDisk(d, c)
  {
  }

  lemma RawWroteKind(f: Inode, d: Disk, g: Inode, c: Disk, offset: nat, buf: seq<byte>, done: nat)
    requires done <= |buf| && RawWrote(f, d, g, c, offset, buf, done)
    ensures !g.kind.Inline? && AllRaw(g) && g.size == f.size && (g.UsesCompression() <==> f.UsesCompression())
    ensures forall b: nat :: !Owns(g.extents, b) ==> c.At(b) == d.At(b)
  {
  }

  /** Logical block `l` of the file has a block, or will get one cleared when the file leaves its inode. */
  predicate Backed(f: Inode, l: nat) {
    if f.kind.Inline? then l < BlocksFor(|f.inlineData|) else MapBlock(f.extents, l).Some?
  }

  /** Byte `pos` shares a block with the write, is not written, and its block is a hole until then. */
  predicate Exposed(f: Inode, offset: nat, len: nat, pos: nat) {
    !(offset <= pos < offset + len) && Touched(offset, len, pos / 4096) && !Backed(f, pos / 4096)
  }

  /** The write covers every hole it touches from end to end, up to where the file will end. */
  ghost predicate FillsItsHoles(f: Inode, offset: nat, len: nat) { forall pos: nat :: !Exposed(f, offset, len, pos) }

  /** A promoted file is backed exactly where it was. */
  ghost predicate SameRaw(f: Inode, d: Disk, g: Inode, c: Disk) {
    && !g.kind.Inline? && g.size == f.size
    && (forall pos: nat :: RawByte(g, c, pos) == RawByte(f, d, pos))
    && (forall l: nat :: Backed(g, l) <==> Backed(f, l))
  }

  /** The file is the plain overwrite exactly when no visible byte exposed by the write was left non-zero in its new block. */
  lemma RawOverwriteIff(f: Inode, d: Disk, g: Inode, c: Disk, offset: nat, buf: seq<byte>)
    requires RawWrote(f, d, g, c, offset, buf, |buf|) && !f.kind.Inline?
    requires forall pos: nat :: pos >= f.size ==> RawByte(f, d, pos) == 0
    ensures var size := if offset + |buf| > f.size then offset + |buf| else f.size;
      (forall pos: nat :: pos < size ==>
         RawByte(g, c, pos) == if offset <= pos < offset + |buf| then buf[pos - offset] else if pos < f.size then RawByte(f, d, pos) else 0)
      <==> (forall pos: nat :: pos < size && Exposed(f, offset, |buf|, pos) ==>
              MapBlock(g.extents, pos / 4096).Some? && d.At(MapBlock(g.extents, pos / 4096).value)[pos % 4096] == 0)
  {
    hide Disk.At, MapBlock;
    var size := if offset + |buf| > f.size then offset + |buf| else f.size;
    forall pos: nat | pos < size
      ensures RawByte(g, c, pos) == (if offset <= pos < offset + |buf| then buf[pos - offset] else if pos < f.size then RawByte(f, d, pos) else 0)
        <==> (Exposed(f, offset, |buf|, pos) ==>
                MapBlock(g.extents, pos / 4096).Some? && d.At(MapBlock(g.extents, pos / 4096).value)[pos % 4096] == 0)
    {
      assert RawWroteAt(f, d, g, c, offset, buf, |buf|, pos);
      if Exposed(f, offset, |buf|, pos) { assert RawByte(f, d, pos) == 0; }
    }
  }

  /** An uncompressed write that fills its holes reads as a plain write. */
  lemma RawIsWrote(codec: Codec, rb: nat, a: Snap, s: Snap, t: Snap, ino: nat, offset: nat, buf: seq<byte>)
    requires rb > 0 && ino in a.inodes && ino in s.inodes && ino in t.inodes
    requires SameExcept(codec, rb, a, t, ino) && s.inodes[ino].size == a.inodes[ino].size
    requires forall pos: nat :: VisibleByte(codec, rb, a, ino, pos) == RawByte(a.inodes[ino], a.disk, pos)
    requires forall pos: nat :: VisibleByte(codec, rb, t, ino, pos) == RawByte(t.inodes[ino], t.disk, pos)
    requires SameRaw(a.inodes[ino], a.disk, s.inodes[ino], s.disk)
    requires RawWrote(s.inodes[ino], s.disk, t.inodes[ino], t.disk, offset, buf, |buf|)
    requires FillsItsHoles(a.inodes[ino], offset, |buf|)
    ensures forall pos: nat :: WroteAt(codec, rb, a, t, ino, offset, buf, |buf|, pos)
    ensures t.inodes[ino].size == a.inodes[ino].size
  {
    hide VisibleByte, RawByte, SameFile, MapBlock, Touched;
    forall pos: nat ensures WroteAt(codec, rb, a, t, ino, offset, buf, |buf|, pos) {
      assert RawWroteAt(s.inodes[ino], s.disk, t.inodes[ino], t.disk, offset, buf, |buf|, pos);
      assert !Exposed(a.inodes[ino], offset, |buf|, pos);
      assert Backed(s.inodes[ino], pos / 4096) <==> Backed(a.inodes[ino], pos / 4096);
    }
  }

  /** An uncompressed write: the written bytes, and the old ones wherever no hole of a newly mapped block shows. */
  ghost predicate RawLanded(f: Inode, c: seq<byte>, e: seq<byte>, offset: nat, buf: seq<byte>) {
    && Landed(c, e, offset, buf)
    && forall pos: nat :: pos < |c| && !(offset <= pos < offset + |buf|) && !Exposed(f, offset, |buf|, pos) ==> e[pos] == c[pos]
  }

  /** The gap between the old end and the write reads as zeros, again wherever no newly mapped block shows. */
  ghost predicate GapZero(f: Inode, c: seq<byte>, e: seq<byte>, offset: nat, buf: seq<byte>) {
    forall pos: nat :: |c| <= pos < offset && pos < |e| && !Exposed(f, offset, |buf|, pos) ==> e[pos] == 0
  }

  /** No unwritten byte of the file, as it will be, lies in a block that the write allocates. */
  ghost predicate NothingShows(f: Inode, offset: nat, len: nat) {
    forall pos: nat :: pos < (if offset + len > f.size then offset + len else f.size) ==> !Exposed(f, offset, len, pos)
  }

  lemma PlainIfNothingShows(f: Inode, c: seq<byte>, e: seq<byte>, offset: nat, buf: seq<byte>)
    requires |c| == f.size && RawLanded(f, c, e, offset, buf) && GapZero(f, c, e, offset, buf) && NothingShows(f, offset, |buf|)
    ensures e == Overwrite(c, offset, buf)
  {
    hide Exposed;
    var o := Overwrite(c, offset, buf);
    forall pos: nat | pos < |e| ensures e[pos] == o[pos] {
      assert !Exposed(f, offset, |buf|, pos);
      if offset <= pos < offset + |buf| { assert e[pos] == e[offset..offset + |buf|][pos - offset]; }
    }
  }

  /** The file's bytes are the old ones with `buf` over them and zeros in any gap. */
  ghost predicate PlainBytes(f: Inode, d: Disk, g: Inode, c: Disk, offset: nat, buf: seq<byte>) {
    forall pos: nat :: pos < (if offset + |buf| > f.size then offset + |buf| else f.size) ==>
      RawByte(g, c, pos) == if offset <= pos < offset + |buf| then buf[pos - offset] else if pos < f.size then RawByte(f, d, pos) else 0
  }

  ghost predicate SameFileBytes(f: Inode, d: Disk, x: Disk) { forall pos: nat :: RawByte(f, x, pos) == RawByte(f, d, pos) }

  /** The block of a disk with one byte set to 1. */
  function Marked(d: Disk, p: nat, at: nat): Disk
    requires at < 4096
  {
    Disk(d.entries[p := Entry(d.At(p)[at := 1], true)], d.image)
  }

  lemma MarkedAt(d: Disk, p: nat, at: nat, b: nat)
    requires at < 4096
    ensures Marked(d, p, at).At(b) == if b == p then d.At(p)[at := 1] else d.At(b)
  {
  }

  /** The same write over a disk that held a 1 where a new block shows: the file then reads that 1. */
  lemma StaleByteShows(f: Inode, d: Disk, g: Inode, c: Disk, rb: nat, offset: nat, buf: seq<byte>, pos: nat)
    requires rb > 0 && RawWrote(f, d, g, c, offset, buf, |buf|) && !f.kind.Inline? && Sound(g.extents, rb) && Exposed(f, offset, |buf|, pos)
    ensures MapBlock(g.extents, pos / 4096).Some?
    ensures var p := MapBlock(g.extents, pos / 4096).value;
      && RawWrote(f, Marked(d, p, pos % 4096), g, Marked(c, p, pos % 4096), offset, buf, |buf|)
      && SameFileBytes(f, d, Marked(d, p, pos % 4096))
      && RawByte(g, Marked(c, p, pos % 4096), pos) == 1
  {
    hide Disk.At, MapBlock, Sound, Marked, Owns;
    assert RawWroteAt(f, d, g, c, offset, buf, |buf|, pos);
    var p, at := MapBlock(g.extents, pos / 4096).value, pos % 4096;
    var x, y := Marked(d, p, at), Marked(c, p, at);
    forall b: nat ensures x.At(b) == (if b == p then d.At(p)[at := 1] else d.At(b)) && y.At(b) == (if b == p then c.At(p)[at := 1] else c.At(b)) {
      MarkedAt(d, p, at, b);
      MarkedAt(c, p, at, b);
    }
    forall l: nat | MapBlock(g.extents, l) == Some(p) ensures l == pos / 4096 { MapInjective(g.extents, rb, pos / 4096, l); }
    forall q: nat ensures RawByte(f, x, q) == RawByte(f, d, q) { assert MapGrew(f, g, offset, |buf|, q / 4096); }
    forall q: nat ensures RawWroteAt(f, x, g, y, offset, buf, |buf|, q) {
      assert RawWroteAt(f, d, g, c, offset, buf, |buf|, q);
      assert MapGrew(f, g, offset, |buf|, q / 4096);
      SamePlace(pos, q);
    }
    MapOwned(g.extents, rb, pos / 4096);
  }

  lemma SamePlace(a: nat, b: nat)
    ensures a / 4096 == b / 4096 && a % 4096 == b % 4096 ==> a == b
  {
  }

  /**
    An uncompressed write leaves the plain bytes, whatever its newly allocated blocks held before, if and
    only if none of their unwritten bytes shows.
  */
  lemma PlainForAnyLeftoversIff(f: Inode, d: Disk, g: Inode, c: Disk, rb: nat, offset: nat, buf: seq<byte>)
    requires rb > 0 && RawWrote(f, d, g, c, offset, buf, |buf|) && !f.kind.Inline? && Sound(g.extents, rb)
    requires forall pos: nat :: pos >= f.size ==> RawByte(f, d, pos) == 0
    ensures NothingShows(f, offset, |buf|) <==>
      forall x: Disk, y: Disk :: RawWrote(f, x, g, y, offset, buf, |buf|) && SameFileBytes(f, d, x) ==> PlainBytes(f, d, g, y, offset, buf)
  {
    hide RawByte, MapBlock, RawWrote, Sound, Marked;
    if NothingShows(f, offset, |buf|) {
      forall x: Disk, y: Disk | RawWrote(f, x, g, y, offset, buf, |buf|) && SameFileBytes(f, d, x) ensures PlainBytes(f, d, g, y, offset, buf) {
        PlainWhere(f, d, x, g, y, offset, buf);
      }
    } else {
      var pos: nat :| pos < (if offset + |buf| > f.size then offset + |buf| else f.size) && Exposed(f, offset, |buf|, pos);
      StaleByteShows(f, d, g, c, rb, offset, buf, pos);
      var p := MapBlock(g.extents, pos / 4096).value;
      ExposedIsHole(f, d, offset, |buf|, pos);
      assert !PlainBytes(f, d, g, Marked(c, p, pos % 4096), offset, buf);
    }
  }

  lemma ExposedIsHole(f: Inode, d: Disk, offset: nat, len: nat, pos: nat)
    requires !f.kind.Inline? && Exposed(f, offset, len, pos)
    ensures RawByte(f, d, pos) == 0 && !(offset <= pos < offset + len)
  {
  }

  lemma PlainWhere(f: Inode, d: Disk, x: Disk, g: Inode, y: Disk, offset: nat, buf: seq<byte>)
    requires RawWrote(f, x, g, y, offset, buf, |buf|) && SameFileBytes(f, d, x) && NothingShows(f, offset, |buf|) && !f.kind.Inline?
    requires forall pos: nat :: pos >= f.size ==> RawByte(f, d, pos) == 0
    ensures PlainBytes(f, d, g, y, offset, buf)
  {
    hide RawByte, MapBlock;
    forall pos: nat | pos < (if offset + |buf| > f.size then offset + |buf| else f.size)
      ensures RawByte(g, y, pos) == if offset <= pos < offset + |buf| then buf[pos - offset] else if pos < f.size then RawByte(f, d, pos) else 0
    {
      assert RawWroteAt(f, x, g, y, offset, buf, |buf|, pos);
      assert !Exposed(f, offset, |buf|, pos);
      assert RawByte(f, x, pos) == RawByte(f, d, pos);
    }
  }

  lemma RawLandedIsLanded(f: Inode, c: seq<byte>, e: seq<byte>, offset: nat, buf: seq<byte>)
    requires RawLanded(f, c, e, offset, buf)
    ensures Landed(c, e, offset, buf)
  {
  }

  lemma AllKept(f: Inode, c: seq<byte>, offset: nat, buf: seq<byte>)
    ensures RawLanded(f, c, Overwrite(c, offset, buf), offset, buf)
    ensures GapZero(f, c, Overwrite(c, offset, buf), offset, buf)
  {
    hide Exposed;
    OverwriteLanded(c, offset, buf);
  }

  lemma RawIsLanded(codec: Codec, rb: nat, a: Snap, s: Snap, u: Snap, ino: nat, offset: nat, buf: seq<byte>, size: nat)
    requires rb > 0 && ino in a.inodes && ino in s.inodes && ino in u.inodes && buf != []
    requires forall pos: nat :: VisibleByte(codec, rb, a, ino, pos) == RawByte(a.inodes[ino], a.disk, pos)
    requires forall pos: nat :: VisibleByte(codec, rb, u, ino, pos) == RawByte(u.inodes[ino], u.disk, pos)
    requires SameRaw(a.inodes[ino], a.disk, s.inodes[ino], s.disk)
    requires RawWrote(s.inodes[ino], s.disk, u.inodes[ino], u.disk, offset, buf, |buf|)
    requires size == if offset + |buf| > a.inodes[ino].size then offset + |buf| else a.inodes[ino].size
    ensures var t := u.(inodes := u.inodes[ino := u.inodes[ino].(size := size)]);
      && RawLanded(a.inodes[ino], Content(codec, rb, a, ino), Content(codec, rb, t, ino), offset, buf)
      && (Clean(codec, rb, a, ino) ==> GapZero(a.inodes[ino], Content(codec, rb, a, ino), Content(codec, rb, t, ino), offset, buf))
  {
    hide VisibleByte, RawByte, SameFile, MapBlock, Touched;
    var t := u.(inodes := u.inodes[ino := u.inodes[ino].(size := size)]);
    ResizeBytes(codec, rb, u, ino, size);
    var c, e := Content(codec, rb, a, ino), Content(codec, rb, t, ino);
    forall pos: nat | offset <= pos < offset + |buf| ensures e[pos] == buf[pos - offset] {
      assert RawWroteAt(s.inodes[ino], s.disk, u.inodes[ino], u.disk, offset, buf, |buf|, pos);
    }
    forall pos: nat | pos < |c| && !(offset <= pos < offset + |buf|) && !Exposed(a.inodes[ino], offset, |buf|, pos) ensures e[pos] == c[pos] {
      assert RawWroteAt(s.inodes[ino], s.disk, u.inodes[ino], u.disk, offset, buf, |buf|, pos);
      assert Backed(s.inodes[ino], pos / 4096) <==> Backed(a.inodes[ino], pos / 4096);
    }
    if Clean(codec, rb, a, ino) {
      forall pos: nat | |c| <= pos < offset && pos < |e| && !Exposed(a.inodes[ino], offset, |buf|, pos) ensures e[pos] == 0 {
        assert RawWroteAt(s.inodes[ino], s.disk, u.inodes[ino], u.disk, offset, buf, |buf|, pos);
        assert Backed(s.inodes[ino], pos / 4096) <==> Backed(a.inodes[ino], pos / 4096);
      }
    }
  }

  lemma SizeKeepsCache(codec: Codec, rb: nat, s: Snap, ino: nat, g: Inode)
    requires CacheOk(codec, rb, s) && ino in s.inodes && !s.inodes[ino].kind.Inline?
    requires s.rc.Some? && s.rc.value.ino == ino ==> s.rc.value.dirty
    requires g == s.inodes[ino].(size := g.size)
    ensures CacheOk(codec, rb, s.(inodes := s.inodes[ino := g]))
  {
    hide Mirrors;
  }

  lemma SameExceptSelf(codec: Codec, rb: nat, a: Snap, ino: nat)
    ensures SameExcept(codec, rb, a, a, ino)
  {
    hide RecordByte;
  }

  lemma WroteParts(codec: Codec, rb: nat, a: Snap, b: Snap, ino: nat, offset: nat, buf: seq<byte>)
    requires rb > 0 && Wrote(codec, rb, a, b, ino, offset, buf, |buf|)
    ensures SameExcept(codec, rb, a, b, ino) && ino in a.inodes && ino in b.inodes
    ensures forall pos: nat :: WroteAt(codec, rb, a, b, ino, offset, buf, |buf|, pos)
  {
    hide WroteAt, SameFile;
  }

  /** A file that was promoted if it was inline. */
  lemma PromotedSameRaw(f: Inode, d: Disk, g: Inode, c: Disk)
    requires !g.kind.Inline? && g.size == f.size
    requires if f.kind.Inline? then
        && (forall pos: nat :: RawByte(g, c, pos) == ByteOr0(f.inlineData, pos))
        && (forall l: nat :: MapBlock(g.extents, l).Some? <==> l < BlocksFor(|f.inlineData|))
      else g == f && c == d
    ensures SameRaw(f, d, g, c)
  {
    hide MapBlock, Disk.At;
  }
}
