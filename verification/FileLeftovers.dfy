/** Calls of src/inner.rs after which an uncompressed file reads bytes that nobody wrote there, or that had been cut off. */
module FileLeftovers {
  import opened Wrappers
  import opened Format
  import opened Store
  import opened Cache
  import opened Alloc
  import opened Compress
  import opened Extents
  import opened Records
  import opened Ownership
  import opened FileView
  import opened FileWrites
  import opened FileCuts
  import opened FileData

  function Fill(v: byte, n: nat): (s: seq<byte>)
    ensures |s| == n && forall i :: 0 <= i < n ==> s[i] == v
  {
    seq(n, i => v)
  }

  /** A write over the whole of a file's first block exposes nothing. */
  lemma WholeBlockFills(f: Inode)
    ensures FillsItsHoles(f, 0, 4096)
  {
    forall pos: nat ensures !Exposed(f, 0, 4096, pos) { }
  }

  /** The first byte of a file whose one block is `phys`. */
  lemma FirstByte(codec: Codec, rb: nat, s: Snap, ino: nat, phys: nat)
    requires rb > 0 && ino in s.inodes && AllSound(codec, s.inodes, s.disk, rb) && AllFlagged(s.inodes) && CacheOk(codec, rb, s)
    requires !s.inodes[ino].kind.Inline? && !s.inodes[ino].UsesCompression() && s.inodes[ino].extents == [Whole(0, phys, 1)]
    ensures s.inodes[ino].size > 0 ==> Content(codec, rb, s, ino)[0] == s.disk.At(phys)[0]
  {
    hide AllFlagged, CacheOk, VisibleByte, Readable, Disk.At;
    assert FileSound(codec, s.inodes[ino], s.disk, rb);
    RawFileBytes(codec, rb, s, ino);
    var exts := s.inodes[ino].extents;
    assert exts[0].Contains(0);
  }

  /** After a block of sevens was written to an image with one free run, that run begins one block later. */
  lemma SevensWritten(free0: Runs, total0: nat, d: Disk, lo: nat, hi: nat, free1: Runs, total1: nat, c: Disk, exts: seq<Extent>,
          data: seq<byte>)
    requires lo < hi && free0 == map[lo := hi - lo] && FirstBlock(free0, total0, d, free1, total1, c, exts, 0, data) && |data| == 4096
    ensures exts == [Whole(0, lo, 1)] && c.At(lo) == data
    ensures forall b: nat :: Covers(free1, b) <==> lo < b < hi
  {
    hide TookOne, Disk.At;
    var phys: nat :| FirstBlockAt(free0, total0, d, phys, free1, total1, c, exts, 0, data);
    TookFirst(lo, hi, total0, free0, phys, free1, total1);
    assert Splice(d.At(lo), 0, data) == data;
  }

  /** The first block of the next file is the same one, with the new bytes written from its second byte on. */
  lemma BlockReused(free0: Runs, total0: nat, d: Disk, lo: nat, hi: nat, free1: Runs, total1: nat, c: Disk, exts: seq<Extent>,
          buf: seq<byte>)
    requires lo < hi && free0 == map[lo := hi - lo] && FirstBlock(free0, total0, d, free1, total1, c, exts, 1, buf)
    ensures exts == [Whole(0, lo, 1)] && c.At(lo)[0] == d.At(lo)[0]
  {
    hide TookOne, Disk.At;
    var phys: nat :| FirstBlockAt(free0, total0, d, phys, free1, total1, c, exts, 1, buf);
    TookFirst(lo, hi, total0, free0, phys, free1, total1);
  }

  lemma SameKeys(codec: Codec, rb: nat, a: Snap, b: Snap, ino: nat)
    requires SameExcept(codec, rb, a, b, ino)
    ensures b.inodes.Keys == a.inodes.Keys
  {
  }

  /** A new image with one file, a block of sevens: it takes the first block of the one free run. */
  method BlockOfSevens(lz4: Codec) returns (fs: Inner, ghost lo: nat, ghost hi: nat)
    requires Lossless(lz4)
    ensures fresh(fs) && fresh(fs.image) && fresh(fs.cache) && fresh(fs.alloc)
    ensures fs.Valid() && fs.writable && fs.recordBlocks == 2 && fs.recordCache.None? && fs.inodes.Keys == {1}
    ensures var f := fs.inodes[1];
      !f.UsesCompression() && !f.kind.Inline? && f.size == 4096 && f.extents == [Whole(0, lo, 1)]
    ensures Content(fs.codec, fs.recordBlocks, fs.Now(), 1) == Fill(7, 4096) && Clean(fs.codec, fs.recordBlocks, fs.Now(), 1)
    ensures lo < hi && fs.D().At(lo) == Fill(7, 4096) && forall b: nat :: Covers(fs.alloc.free, b) <==> lo < b < hi
  {
    hide Lossless, Content, Clean, SameFile, SameExcept, Conserved, Covers, RawLanded, GapZero, FirstBlock, FillsItsHoles, Disk.At,
      AllSound, AllFlagged, CacheOk, Owning, Coalesced, BlockCache.Valid, Disk.Coherent, Owns;
    fs := new Inner(lz4, 2, 8, 0, 0);
    lo, hi := fs.alloc.firstData + 2, fs.alloc.totalBlocks;
    var data := Fill(7, 4096);
    fs.NewFile(1, Off);
    ghost var s0, free0 := fs.Now(), fs.alloc.free;
    WholeBlockFills(fs.inodes[1]);
    var filled := fs.WriteData(1, 0, data);
    assert Overwrite([], 0, data) == data;
    SameKeys(lz4, 2, s0, fs.Now(), 1);
    SevensWritten(free0, hi, s0.disk, lo, hi, fs.alloc.free, fs.alloc.totalBlocks, fs.D(), fs.inodes[1].extents, data);
  }

  /** That file cut to 150 bytes and extended by one: byte 150 is a seven again, not a zero. */
  method CutShowsOldBytes(lz4: Codec) returns (back: seq<byte>)
    requires Lossless(lz4)
    ensures back == [7]
  {
    hide Lossless, Inner.Valid, Inner.D, Inner.Ledger, Content, Clean, SameFile, SameExcept, Conserved, Covers, Truncated, Disk.At,
      Owns, EmptyInline;
    var fs, lo, hi := BlockOfSevens(lz4);
    ghost var s1 := fs.Now();
    var cut := fs.TruncateData(1, 150);
    ghost var s2 := fs.Now();
    var extended := fs.TruncateData(1, 151);
    CutThenExtended(fs.codec, fs.recordBlocks, s1, s2, fs.Now(), 1, 150, 151);
    var r := fs.ReadData(1, 150, 1);
    back := r.value;
  }

  /** That file cut to nothing instead: there is one free run again, and it begins with the sevens. */
  method LeaveSevens(lz4: Codec) returns (fs: Inner, ghost lo: nat, ghost hi: nat)
    requires Lossless(lz4)
    ensures fresh(fs) && fresh(fs.image) && fresh(fs.cache) && fresh(fs.alloc) && fs.Valid() && fs.writable
    ensures fs.inodes.Keys == {1} && lo < hi && fs.alloc.free == map[lo := hi - lo] && fs.D().At(lo) == Fill(7, 4096)
  {
    hide Lossless, Content, Clean, SameFile, SameExcept, Conserved, Covers, Truncated, Disk.At, AllSound, AllFlagged, CacheOk, Owning,
      BlockCache.Valid, Disk.Coherent, Owns, Coalesced;
    fs, lo, hi := BlockOfSevens(lz4);
    ghost var s1 := fs.Now();
    OneExtentOwns(Whole(0, lo, 1));
    var cut := fs.TruncateData(1, 0);
    SameKeys(fs.codec, fs.recordBlocks, s1, fs.Now(), 1);
    OneRun(fs.alloc.free, fs.alloc.firstData, fs.alloc.totalBlocks, lo, hi);
  }

  /**
    200 bytes written at offset 1 of a new file of that image. Its byte 0, which nobody has written, is a seven: the
    allocator hands out the block again, and nothing clears it.
  */
  method RecycledBlockShows(lz4: Codec) returns (back: seq<byte>)
    requires Lossless(lz4)
    ensures back == [7]
  {
    hide Lossless, Content, Clean, SameFile, SameExcept, Conserved, Covers, Truncated, RawLanded, GapZero, FirstBlock,
      FillsItsHoles, Disk.At, AllSound, AllFlagged, CacheOk, Owning, Coalesced, BlockCache.Valid, Disk.Coherent, Owns;
    var fs, lo, hi := LeaveSevens(lz4);
    var buf := Fill(5, 200);
    fs.NewFile(2, Off);
    ghost var s2, free2, total2 := fs.Now(), fs.alloc.free, fs.alloc.totalBlocks;
    var w := fs.WriteData(2, 1, buf);
    BlockReused(free2, total2, s2.disk, lo, hi, fs.alloc.free, fs.alloc.totalBlocks, fs.D(), fs.inodes[2].extents, buf);
    FirstByte(fs.codec, fs.recordBlocks, fs.Now(), 2, lo);
    var r := fs.ReadData(2, 0, 1);
    back := r.value;
  }
}
