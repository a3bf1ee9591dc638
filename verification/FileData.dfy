/** The file data path of src/inner.rs: the methods, on the inodes, the allocator, the two caches and the image. */
module FileData {
  import opened Wrappers
  import opened Format
  import opened Store
  import opened Cache
  import opened Alloc
  import opened Compress
  import opened Extents
  import opened Records
  import opened Ownership
  import opened FileView
  import opened FileWrites
  import opened FileCuts

  class Inner {
    const codec: Codec
    const recordBlocks: nat
    const image: Image
    const cache: BlockCache
    const alloc: Allocator
    const writable: bool
    var inodes: map<nat, Inode>
    var recordCache: Option<RecordCache>
    /** Which file each physical block belongs to. */
    ghost var owner: map<nat, nat>

    ghost function D(): Disk reads cache, image { Disk(cache.entries, image.data) }

    /** Everything but the record cache. */
    ghost predicate Base() reads this, image, cache, alloc {
      && 2 <= recordBlocks <= MAX_RECORD_BLOCKS && Lossless(codec)
      && alloc.Valid() && cache.Valid() && D().Coherent()
      && AllSound(codec, inodes, D(), recordBlocks)
      && Owning(inodes, owner, alloc.free, alloc.firstData, alloc.totalBlocks)
    }

    ghost function Now(): Snap reads this, cache, image { Snap(inodes, recordCache, D()) }

    /** Which blocks are free, how many there are, and whose the others are. */
    ghost function Ledger(): (Runs, nat, map<nat, nat>) reads this, alloc { (alloc.free, alloc.totalBlocks, owner) }

    ghost predicate Valid() reads this, image, cache, alloc {
      Base() && AllFlagged(inodes) && CacheOk(codec, recordBlocks, Now())
    }

    /**
      A new image of zeros: after the superblock, its copy and a journal of at least eight blocks, two blocks of the
      data area go to the inode table, the rest is one free run, and there are no files.
    */
    constructor (lz4: Codec, recBlocks: nat, journalBlocks: nat, initialBlocks: nat, cacheBlocks: nat)
      requires Lossless(lz4) && 2 <= recBlocks <= MAX_RECORD_BLOCKS
      ensures Valid() && inodes == map[] && owner == map[] && recordCache == None && writable
      ensures codec == lz4 && recordBlocks == recBlocks
      ensures fresh(image) && fresh(cache) && fresh(alloc)
      ensures alloc.firstData == 2 + Max(journalBlocks, 8) && alloc.totalBlocks == Max(initialBlocks, alloc.firstData + 8)
      ensures alloc.free == map[alloc.firstData + 2 := alloc.totalBlocks - (alloc.firstData + 2)]
      ensures forall b: nat :: Covers(alloc.free, b) <==> alloc.firstData + 2 <= b < alloc.totalBlocks
      ensures forall b: nat :: D().At(b) == Zeros(BLOCK_SIZE)
    {
      hide Coalesced, Covers, Took, Chosen, Lossless, Grown, AllSound, Owning, AllFlagged, CacheOk, BlockOf;
      var firstData := 2 + Max(journalBlocks, 8);
      var total := Max(initialBlocks, firstData + 8);
      codec, recordBlocks, writable := lz4, recBlocks, true;
      var img := new Image(total);
      var blocks := new BlockCache(cacheBlocks);
      var allocator := new Allocator(firstData, total);
      ghost var free0, data0 := allocator.free, img.data;
      var table := allocator.Allocate(img, 2);
      TableCarved(firstData, total, data0, table.value, allocator.free, allocator.totalBlocks, img.data);
      image, cache, alloc := img, blocks, allocator;
      inodes, recordCache, owner := map[], None, map[];
      new;
      NoFiles(codec, recordBlocks, D(), alloc.free, firstData, total);
      forall b: nat ensures D().At(b) == Zeros(BLOCK_SIZE) { ZeroBlock(total, b); }
    }

    // --- write_physical_bytes -------------------------------------------------------

    /** Write whole blocks of a record through the block cache, the last one padded with zeros. */
    method WritePhysicalBytes(phys: nat, data: seq<byte>)
      requires cache.Valid() && D().Coherent()
      modifies cache, image
      ensures cache.Valid() && D().Coherent()
      ensures forall b: nat :: D().At(b) == Overlay(old(D()), phys, if |data| == 0 then 1 else BlocksFor(|data|), data, b)
    {
      var nblocks := if |data| == 0 then 1 else BlocksFor(|data|);
      for i := 0 to nblocks
        invariant cache.Valid() && D().Coherent()
        invariant forall b: nat :: D().At(b) == Overlay(old(D()), phys, i, data, b)
      {
        var blk := Zeros(BLOCK_SIZE);
        var src := i * 4096;
        if src < |data| {
          var n := if |data| - src < BLOCK_SIZE then |data| - src else BLOCK_SIZE;
          blk := data[src..src + n] + blk[n..];
        }
        assert blk == Chunk(data, i);
        cache.InsertDirty(image, phys + i, blk);
      }
    }

    // --- punch_logical_range and add_extent -------------------------------------------

    /** Give back the blocks of one extent. */
    method FreeExtentPhysical(ext: Extent)
      modifies alloc`free
      ensures alloc.free == Freed(old(alloc.free), ext.physical, ext.PhysLen())
      ensures old(alloc.Valid() && Freeable(alloc.free, alloc.firstData, alloc.totalBlocks, ext.physical, ext.PhysLen())) ==>
        alloc.Valid() && forall b: nat :: Covers(alloc.free, b) <==> Covers(old(alloc.free), b) || ext.Holds(b)
    {
      alloc.Free(ext.physical, ext.PhysLen());
    }

    /** The part of the punch loop that deals with one extent: what it keeps, and what it frees. */
    method PunchExtent(ext: Extent, start: nat, end: nat) returns (pieces: seq<Extent>)
      requires alloc.Valid() && start < end
      requires forall b: nat :: FreesBlock(ext, start, end, b) ==>
        !Covers(alloc.free, b) && alloc.firstData <= b < alloc.totalBlocks
      modifies alloc`free
      ensures alloc.Valid() && pieces == PunchOne(ext, start, end)
      ensures forall b: nat :: Covers(alloc.free, b) <==> Covers(old(alloc.free), b) || FreesBlock(ext, start, end, b)
    {
      hide Coalesced, Covers;
      var e0, e1 := ext.logical, ext.LogicalEnd();
      ghost var run := PunchFrees(ext, start, end);
      assert run.1 > 0 ==> FreesBlock(ext, start, end, run.0) && FreesBlock(ext, start, end, run.0 + run.1 - 1);
      if e1 <= start || e0 >= end { return [ext]; }
      if ext.IsCompressed() {
        FreeExtentPhysical(ext);
        return [];
      }
      pieces := [];
      if e0 < start { pieces := pieces + [Whole(e0, ext.physical, start - e0)]; }
      var mid0 := if start > e0 then start else e0;
      var mid1 := if end < e1 then end else e1;
      if mid1 > mid0 { alloc.Free(ext.physical + (mid0 - e0), mid1 - mid0); }
      if e1 > end { pieces := pieces + [Whole(end, ext.physical + (end - e0), e1 - end)]; }
    }

    /** The punch loop. */
    method PunchExtents(ghost ino: nat, exts: seq<Extent>, start: nat, end: nat) returns (kept: seq<Extent>)
      requires alloc.Valid() && start < end && recordBlocks > 0 && Sound(exts, recordBlocks)
      requires forall b: nat :: Owns(exts, b) ==> !Covers(alloc.free, b) && alloc.firstData <= b < alloc.totalBlocks
      modifies alloc`free
      ensures alloc.Valid() && kept == Punched(exts, start, end)
      ensures forall b: nat :: Covers(alloc.free, b) <==> Covers(old(alloc.free), b) || PunchFreesBlock(exts, start, end, b)
    {
      kept := [];
      assert exts[..0] == [];
      for k := 0 to |exts|
        invariant kept == Punched(exts[..k], start, end)
        invariant alloc.Valid()
        invariant forall b: nat :: Covers(alloc.free, b) <==> Covers(old(alloc.free), b) || PunchFreesBlock(exts[..k], start, end, b)
      {
        forall b: nat | FreesBlock(exts[k], start, end, b)
          ensures !Covers(alloc.free, b) && alloc.firstData <= b < alloc.totalBlocks
        {
          PunchRunsApart(exts, recordBlocks, k, start, end, b);
        }
        var pieces := PunchExtent(exts[k], start, end);
        forall b: nat ensures Covers(alloc.free, b) <==> Covers(old(alloc.free), b) || PunchFreesBlock(exts[..k + 1], start, end, b) {
          PunchFreesSnoc(exts, k, start, end, b);
        }
        kept := kept + pieces;
        assert exts[..k + 1][..k] == exts[..k];
      }
      assert exts[..|exts|] == exts;
    }

    /** Take the logical blocks `[start, end)` out of a file and free what they occupied. */
    method PunchLogicalRange(ino: nat, start: nat, end: nat)
      requires Base() && ino in inodes
      modifies this`inodes, this`owner, alloc`free
      ensures Base()
      ensures start >= end ==> inodes == old(inodes) && owner == old(owner) && alloc.free == old(alloc.free)
      ensures start < end ==>
        var f := old(inodes)[ino]; var kept := Punched(f.extents, start, end);
        inodes == old(inodes)[ino := f.(extents := kept, kind := KindFor(kept))]
      // The blocks the file drops are exactly the ones freed.
      ensures owner == Release(old(owner), ino, inodes[ino].extents)
      ensures forall b: nat :: Covers(alloc.free, b) <==> Covers(old(alloc.free), b) || (b in old(owner) && b !in owner)
      ensures Conserved(old(alloc.free), old(owner), alloc.totalBlocks, alloc.free, owner, alloc.totalBlocks)
    {
      hide FileSound, AllSound, Owning, Conserved, Sound, Coalesced, Covers, Owns, Punched, Release, Lossless, KindFor,
        SortByLogical;
      var f := inodes[ino];
      OwnFile(codec, D(), recordBlocks, inodes, owner, alloc.free, alloc.firstData, alloc.totalBlocks, ino);
      if start >= end { return; }
      var kept := PunchExtents(ino, f.extents, start, end);
      PunchKeeps(codec, D(), recordBlocks, inodes, owner, old(alloc.free), alloc.free, alloc.firstData, alloc.totalBlocks, ino, start, end);
      owner := Release(owner, ino, kept);
      inodes := inodes[ino := f.(extents := SortByLogical(kept), kind := KindFor(kept))];
    }

    /** Map more logical blocks: merged into the last extent where that continues, else inserted in order. */
    method AddExtent(ino: nat, logical: nat, physical: nat, length: nat, physLength: nat, compress: byte)
      requires Base() && ino in inodes && !inodes[ino].kind.Inline?
      requires var e := Extent(logical, physical, length, physLength, compress);
        && Addable(inodes[ino].extents, e, recordBlocks) && e.LogicalEnd() <= MAX_LOGICAL
        && InFlight(physical, e.PhysLen(), owner, alloc.free, alloc.firstData, alloc.totalBlocks)
        && (e.IsCompressed() ==> RecordData(codec, D(), e).Ok?)
      modifies this`inodes, this`owner
      ensures Base()
      ensures var f := old(inodes)[ino]; var exts := Added(f.extents, Extent(logical, physical, length, physLength, compress));
        inodes == old(inodes)[ino := f.(extents := exts, kind := KindFor(exts))]
      ensures owner == Adopt(old(owner), physical, Extent(logical, physical, length, physLength, compress).PhysLen(), ino)
    {
      hide AllSound, Owning, Coalesced, Covers, Lossless, Addable, InFlight, RecordData, SortByLogical, Adopt;
      var e := Extent(logical, physical, length, physLength, compress);
      var f := inodes[ino];
      AddKeeps(codec, D(), recordBlocks, inodes, owner, alloc.free, alloc.firstData, alloc.totalBlocks, ino, e);
      var exts := f.extents;
      var merge := compress == 0 && physLength == length && exts != []
        && (var last := exts[|exts| - 1];
            last.compress == 0 && last.LogicalEnd() == logical && last.physical + last.PhysLen() == physical);
      if merge {
        var last := exts[|exts| - 1];
        last := last.(length := last.length + length);
        if last.physLength != 0 { last := last.(physLength := last.physLength + physLength); }
        exts := exts[..|exts| - 1] + [last];
      } else {
        exts := SortByLogical(exts + [e]);
      }
      assert exts == Added(f.extents, e);
      owner := Adopt(owner, physical, e.PhysLen(), ino);
      inodes := inodes[ino := f.(extents := exts, kind := KindFor(exts))];
    }

    /** Allocate, write, punch the record's old blocks, add the new extent: the common shape of both branches of `store_record`. */
    method PlaceRecord(ino: nat, rec: nat, raw: seq<byte>, length: nat, physLength: nat, compress: byte,
            ghost data: seq<byte>)
      returns (ghost e: Extent)
      requires Base() && ino in inodes && !inodes[ino].kind.Inline?
      requires 0 < length <= recordBlocks && physLength == BlocksFor(|raw|) > 0
      requires RecStart(recordBlocks, rec) + recordBlocks <= MAX_LOGICAL
      requires if compress != 0 then Unpack(codec, raw) == Ok(data) && |raw| == physLength * 4096
               else raw == data && length == physLength
      modifies this`inodes, this`owner, alloc, cache, image
      ensures Base()
      ensures e == Extent(RecStart(recordBlocks, rec), e.physical, length, physLength, compress)
      ensures var f := old(inodes)[ino];
        && Replaceable(f.extents, recordBlocks, rec, e)
        && var exts := Replaced(f.extents, recordBlocks, rec, e);
           inodes == old(inodes)[ino := f.(extents := exts, kind := KindFor(exts))]
      ensures AllAgree(old(inodes), old(D()), D()) && HoldsData(codec, D(), e, data)
      ensures Conserved(old(alloc.free), old(owner), old(alloc.totalBlocks), alloc.free, owner, alloc.totalBlocks)
    {
      hide FileSound, AllSound, Owning, Coalesced, Covers, Lossless, Addable, InFlight, RecordData, Unpack, Adopt, Release,
        AllAgree, Conserved, Took, Punched, Added, Sound, KindFor, Chosen, Owns, RecStart, Replaceable, Readable, HoldsData,
        Overlay, Disk.At;
      var logical := RecStart(recordBlocks, rec);
      var f := inodes[ino];
      ghost var rb, inodes0, owner0, d0 := recordBlocks, inodes, owner, D();
      OwnFile(codec, d0, rb, inodes, owner, alloc.free, alloc.firstData, alloc.totalBlocks, ino);
      var r := alloc.Allocate(image, physLength);
      var phys := r.value;
      e := Extent(logical, phys, length, physLength, compress);
      AllocatedInFlight(inodes, owner, old(alloc.free), alloc.firstData, old(alloc.totalBlocks), alloc.free, alloc.totalBlocks, phys, physLength);
      ghost var free1, d1 := alloc.free, D();
      GrownSameDisk(d0, d1);
      WritePhysicalBytes(phys, raw);
      OverlayParts(d1, D(), phys, physLength, raw);
      WriteKeeps(codec, d0, D(), rb, inodes, owner, free1, alloc.firstData, alloc.totalBlocks, phys, physLength);
      PlacedHolds(codec, d1, D(), e, raw, data);
      FitsRecord(f.extents, rb, rec, e, owner, free1, alloc.firstData, alloc.totalBlocks);
      PunchLogicalRange(ino, logical, logical + recordBlocks);
      StillInFlight(phys, physLength, owner0, free1, alloc.firstData, alloc.totalBlocks, owner, alloc.free);
      ReplacedAddable(f.extents, rb, rec, e);
      ghost var owner1 := owner;
      AddExtent(ino, logical, phys, length, physLength, compress);
      OwnedBelow(inodes0, owner0, old(alloc.free), alloc.firstData, old(alloc.totalBlocks));
      PlaceConserves(old(alloc.free), owner0, old(alloc.totalBlocks), free1, alloc.firstData, alloc.totalBlocks, phys, physLength,
        owner1, alloc.free, ino);
    }

    /** The compressed branch of `store_record`. */
    method StorePacked(ino: nat, rec: nat, data: seq<byte>, payload: seq<byte>)
      requires Base() && ino in inodes && !inodes[ino].kind.Inline? && inodes[ino].compression == 1
      requires |data| <= RecBytes(recordBlocks) && RecStart(recordBlocks, rec) + recordBlocks <= MAX_LOGICAL
      requires TryCompress(codec, Lz4, data) == (Lz4, payload) && !AllZero(data)
      modifies this`inodes, this`owner, alloc, cache, image
      ensures Base()
      ensures ino in inodes && StoredAs(codec, recordBlocks, 1, inodes[ino], rec, data) && inodes[ino].flagCompressed
      ensures RecordSet(codec, recordBlocks, old(inodes), old(D()), inodes, D(), ino, rec, data)
      ensures Conserved(old(alloc.free), old(owner), old(alloc.totalBlocks), alloc.free, owner, alloc.totalBlocks)
    {
      hide FileSound, AllSound, Owning, Coalesced, Covers, RecordData, Unpack, AllAgree, Conserved, Replaced,
        RecStart, Replaceable, HoldsData, RecordSet, Pack, KindFor, BlockCache.Valid, HeaderOf, TryCompress, Lossless, PhysBlocks, BlocksFor,
        StoredAs, Packs, AllZero;
      var f := inodes[ino];
      ghost var inodes0, d0 := inodes, D();
      PackedLengths(codec, recordBlocks, data, payload);
      var physLen := PhysBlocks(HeaderOf(Lz4, payload, |data|));
      var e := PlaceRecord(ino, rec, Pack(payload, |data|), BlocksFor(|data|), physLen, 1, data);
      PlaceSetsRecord(codec, recordBlocks, inodes0, d0, D(), ino, rec, e, data, true);
      FlagSound(codec, D(), recordBlocks, inodes, owner, alloc.free, alloc.firstData, alloc.totalBlocks, ino);
      ghost var exts := Replaced(f.extents, recordBlocks, rec, e);
      inodes := inodes[ino := inodes[ino].(flagCompressed := true)];
      assert inodes == inodes0[ino := f.(extents := exts, kind := KindFor(exts), flagCompressed := true)];
      PlacedStored(codec, recordBlocks, 1, f, rec, e, data, inodes[ino]);
    }

    /** The raw branch of `store_record`. */
    method StoreRaw(ino: nat, rec: nat, data: seq<byte>)
      requires Base() && ino in inodes && !inodes[ino].kind.Inline? && data != [] && !AllZero(data)
      requires |data| <= RecBytes(recordBlocks) && RecStart(recordBlocks, rec) + recordBlocks <= MAX_LOGICAL
      requires !Packs(codec, inodes[ino].compression, data)
      modifies this`inodes, this`owner, alloc, cache, image
      ensures Base()
      ensures ino in inodes && StoredAs(codec, recordBlocks, old(inodes)[ino].compression, inodes[ino], rec, data)
      ensures RecordSet(codec, recordBlocks, old(inodes), old(D()), inodes, D(), ino, rec, data)
      ensures Conserved(old(alloc.free), old(owner), old(alloc.totalBlocks), alloc.free, owner, alloc.totalBlocks)
    {
      hide FileSound, AllSound, Owning, Coalesced, Covers, RecordData, Unpack, AllAgree, Conserved, Replaced,
        RecStart, Replaceable, HoldsData, RecordSet, KindFor, BlockCache.Valid, StoredAs, Packs, AllZero;
      var f := inodes[ino];
      ghost var inodes0, d0 := inodes, D();
      var logicalLen := BlocksFor(|data|);
      var e := PlaceRecord(ino, rec, data, logicalLen, logicalLen, 0, data);
      PlaceSetsRecord(codec, recordBlocks, inodes0, d0, D(), ino, rec, e, data, f.flagCompressed);
      ghost var exts := Replaced(f.extents, recordBlocks, rec, e);
      assert f.(extents := exts, kind := KindFor(exts), flagCompressed := f.flagCompressed) == f.(extents := exts, kind := KindFor(exts));
      PlacedStored(codec, recordBlocks, f.compression, f, rec, e, data, inodes[ino]);
    }

    /** Store one record: a hole if it is all zero, compressed if that saves a block, else raw. */
    method StoreRecord(ino: nat, rec: nat, data: seq<byte>)
      requires Base() && ino in inodes && !inodes[ino].kind.Inline?
      requires |data| <= RecBytes(recordBlocks) && RecStart(recordBlocks, rec) + recordBlocks <= MAX_LOGICAL
      modifies this`inodes, this`owner, alloc, cache, image
      ensures Base()
      ensures RecordSet(codec, recordBlocks, old(inodes), old(D()), inodes, D(), ino, rec, data)
      // Zeros take no block, and what can be packed with a block saved is.
      ensures ino in inodes && StoredAs(codec, recordBlocks, old(inodes)[ino].compression, inodes[ino], rec, data)
      ensures !AllZero(data) && Packs(codec, old(inodes)[ino].compression, data) ==> inodes[ino].flagCompressed
      ensures Conserved(old(alloc.free), old(owner), old(alloc.totalBlocks), alloc.free, owner, alloc.totalBlocks)
    {
      hide FileSound, AllSound, Owning, Coalesced, Covers, Unpack, Conserved, Punched, StoredAs,
        RecStart, RecordSet, Release, BlockCache.Valid, TryCompress, KindFor, Lossless;
      var logical := RecStart(recordBlocks, rec);
      OwnFile(codec, D(), recordBlocks, inodes, owner, alloc.free, alloc.firstData, alloc.totalBlocks, ino);
      if AllZero(data) {
        PunchSetsRecord(codec, recordBlocks, inodes, D(), ino, rec, data);
        HoleStored(codec, recordBlocks, inodes[ino].compression, inodes[ino], D(), rec, data);
        PunchLogicalRange(ino, logical, logical + recordBlocks);
      } else {
        PackedIff(codec, FromU8(inodes[ino].compression), data);
        var packed := TryCompress(codec, FromU8(inodes[ino].compression), data);
        if packed.0.Lz4? {
          StorePacked(ino, rec, data, packed.1);
        } else {
          StoreRaw(ino, rec, data);
        }
      }
    }

    // --- the record cache -----------------------------------------------------------------

    /** Empty the record cache, storing the record first if it is dirty. No file reads any differently. */
    method FlushRecordCache()
      requires Valid()
      modifies this`inodes, this`owner, this`recordCache, alloc, cache, image
      ensures Valid() && recordCache == None
      ensures SameAll(codec, recordBlocks, old(Now()), Now())
      ensures old(recordCache).None? ==> Now() == old(Now()) && Ledger() == old(Ledger())
      ensures forall j: nat :: j in old(inodes) && !old(Caches(recordCache, j)) ==> j in inodes && inodes[j] == old(inodes)[j]
      ensures Conserved(old(alloc.free), old(owner), old(alloc.totalBlocks), alloc.free, owner, alloc.totalBlocks)
    {
      hide AllSound, Owning, Coalesced, Covers, Lossless, RecordSet, SameAll, AllFlagged, Mirrors, RecStart, Conserved;
      ConservedSelf(alloc.free, owner, alloc.totalBlocks);
      if recordCache.None? {
        DropKeeps(codec, recordBlocks, inodes, None, D());
        return;
      }
      var c := recordCache.value;
      recordCache := None;
      if c.dirty {
        StoreRecord(c.ino, c.rec, c.data);
        FlushKeeps(codec, recordBlocks, old(Now()), inodes, D());
        RecordSetOthers(codec, recordBlocks, old(inodes), old(D()), inodes, D(), c.ino, c.rec, c.data);
        RecordSetFlagged(codec, recordBlocks, old(inodes), old(D()), inodes, D(), c.ino, c.rec, c.data);
      } else {
        DropKeeps(codec, recordBlocks, inodes, Some(c), D());
      }
    }

    method ReadCompressedExtent(ext: Extent) returns (r: Result<seq<byte>>)
      requires cache.Valid() && D().Coherent()
      modifies cache, image
      ensures cache.Valid() && D().Coherent() && SameDisk(old(D()), D())
      ensures r == RecordData(codec, old(D()), ext)
    {
      hide Unpack, Disk.At, BlockCache.Valid, Disk.Coherent;
      var physLen := if ext.PhysLen() > 0 then ext.PhysLen() else 1;
      var raw: seq<byte> := [];
      for i := 0 to physLen
        invariant cache.Valid() && D().Coherent() && SameDisk(old(D()), D())
        invariant raw == Gather(old(D()), ext.physical, i)
      {
        var block := cache.Get(image, ext.physical + i);
        raw := raw + block;
      }
      r := ParseRecord(raw);
    }

    /** Header, bounds, checksum, decompression: each failure is an I/O error. */
    method ParseRecord(raw: seq<byte>) returns (r: Result<seq<byte>>)
      ensures r == Unpack(codec, raw)
    {
      hide ParseHeader, PayloadCrc;
      var hdr := ParseHeader(raw);
      if hdr.None? { return Err(EIO); }
      var end := HEADER_SIZE + hdr.value.payloadLen;
      if end > |raw| { return Err(EIO); }
      var payload := raw[HEADER_SIZE..end];
      if PayloadCrc(payload) != hdr.value.crc { return Err(EIO); }
      var data := codec.decompress(payload, hdr.value.uncompressedLen);
      if data.None? { return Err(EIO); }
      return Ok(data.value);
    }

    method ReadDataRaw(ino: nat, offset: nat, len: nat) returns (buf: seq<byte>)
      requires cache.Valid() && D().Coherent() && ino in inodes
      requires inodes[ino].kind.Inline? ==> |inodes[ino].inlineData| == inodes[ino].size
      modifies cache, image
      ensures cache.Valid() && D().Coherent() && SameDisk(old(D()), D())
      ensures |buf| == Available(inodes[ino].size, offset, len)
      ensures forall k: nat :: k < |buf| ==> buf[k] == RawByte(inodes[ino], old(D()), offset + k)
    {
      hide Disk.At, BlockCache.Valid, Disk.Coherent, MapBlock;
      var f := inodes[ino];
      if offset >= f.size { return []; }
      var n := if f.size - offset < len then f.size - offset else len;
      if n == 0 { return []; }
      if f.kind.Inline? { return f.inlineData[offset..offset + n]; }
      buf := [];
      while |buf| < n
        invariant |buf| <= n
        invariant cache.Valid() && D().Coherent() && SameDisk(old(D()), D())
        invariant forall k: nat :: k < |buf| ==> buf[k] == RawByte(f, old(D()), offset + k)
      {
        var pos := offset + |buf|;
        var logical := pos / 4096;
        var within := pos % 4096;
        var chunk := if BLOCK_SIZE - within < n - |buf| then BLOCK_SIZE - within else n - |buf|;
        var piece := Zeros(chunk);
        var phys := MapBlock(f.extents, logical);
        if phys.Some? {
          var block := cache.Get(image, phys.value);
          piece := block[within..within + chunk];
        }
        PieceBytes(f, old(D()), pos, chunk, piece);
        buf := buf + piece;
      }
    }

    method LoadRecord(ino: nat, rec: nat) returns (data: seq<byte>)
      requires Base() && ino in inodes && !inodes[ino].kind.Inline?
      modifies cache, image
      ensures Base() && SameDisk(old(D()), D())
      ensures Mirrors(codec, recordBlocks, inodes[ino], old(D()), rec, data)
    {
      hide AllSound, Owning, Coalesced, Lossless, RecordData, RecStart, Sound, BlockCache.Valid, Disk.Coherent,
        Disk.At, SameDisk, RawByte;
      var f := inodes[ino];
      ghost var rb, d0 := recordBlocks, D();
      OwnFile(codec, d0, rb, inodes, owner, alloc.free, alloc.firstData, alloc.totalBlocks, ino);
      SameDiskSelf(d0);
      var logical := RecStart(recordBlocks, rec);
      data := Zeros(RecBytes(recordBlocks));
      var ext := FindExtent(f.extents, logical);
      if ext.Some? && ext.value.IsCompressed() {
        var r := ReadCompressedExtent(ext.value);
        var n := if |r.value| < |data| then |r.value| else |data|;
        data := r.value[..n] + data[n..];
      } else {
        var fileOff := logical * 4096;
        if fileOff < f.size {
          var n := if f.size - fileOff < |data| then f.size - fileOff else |data|;
          var piece := ReadDataRaw(ino, fileOff, n);
          data := piece + data[n..];
        }
        forall w: nat | w < |data|
          ensures data[w] == StoredByte(codec, f.extents, d0, rb, rec, w) || (BytePos(rb, rec, w) >= f.size && data[w] == 0)
        {
          RawRecordByte(codec, rb, f, d0, rec, w);
        }
      }
      ReadKeeps(codec, rb, inodes, None, d0, D());
    }

    method CachedRecord(ino: nat, rec: nat)
      requires Valid() && ino in inodes && !inodes[ino].kind.Inline? && inodes[ino].UsesCompression()
      requires RecStart(recordBlocks, rec) + recordBlocks <= MAX_LOGICAL
      modifies this`inodes, this`owner, this`recordCache, alloc, cache, image
      ensures Valid() && recordCache.Some? && recordCache.value.ino == ino && recordCache.value.rec == rec
      ensures SameAll(codec, recordBlocks, old(Now()), Now())
      ensures Conserved(old(alloc.free), old(owner), old(alloc.totalBlocks), alloc.free, owner, alloc.totalBlocks)
    {
      hide AllSound, Owning, Coalesced, Lossless, SameFile, AllFlagged, Mirrors, RecStart, Conserved, BlockCache.Valid,
        Disk.Coherent, FileSound, SameDisk, Sound;
      ghost var rb, s0 := recordBlocks, Now();
      if recordCache.Some? && recordCache.value.ino == ino && recordCache.value.rec == rec {
        ConservedSelf(alloc.free, owner, alloc.totalBlocks);
        SameAllSelf(codec, rb, s0);
        return;
      }
      FlushRecordCache();
      ghost var d1 := D();
      AttributesSame(codec, rb, s0, Now(), ino);
      OwnFile(codec, d1, rb, inodes, owner, alloc.free, alloc.firstData, alloc.totalBlocks, ino);
      var data := LoadRecord(ino, rec);
      ReadKeeps(codec, rb, inodes, None, d1, D());
      MirrorsSame(codec, rb, inodes[ino], d1, D(), rec, data);
      MirrorsLength(codec, rb, inodes[ino], D(), rec, data);
      LoadKeeps(codec, rb, inodes, D(), RecordCache(ino, rec, data, false));
      SameAllTransitive(codec, rb, s0, Snap(inodes, None, d1), Snap(inodes, None, D()));
      recordCache := Some(RecordCache(ino, rec, data, false));
      SameAllTransitive(codec, rb, s0, Snap(inodes, None, D()), Now());
    }

    /** Read up to `len` bytes of a file from `offset`. */
    method ReadData(ino: nat, offset: nat, len: nat) returns (r: Result<seq<byte>>)
      requires Valid()
      modifies this`inodes, this`owner, this`recordCache, alloc, cache, image
      ensures Valid()
      ensures SameAll(codec, recordBlocks, old(Now()), Now())
      ensures Conserved(old(alloc.free), old(owner), old(alloc.totalBlocks), alloc.free, owner, alloc.totalBlocks)
      ensures r.Err? <==> ino !in old(inodes)
      ensures r.Err? ==> r == Err(EIO)
      ensures r.Ok? ==> r.value == SliceOf(Content(codec, recordBlocks, old(Now()), ino), offset, len)
      ensures r.Ok? && offset >= old(inodes)[ino].size ==> Now() == old(Now()) && Ledger() == old(Ledger())
    {
      hide AllSound, Owning, Coalesced, Lossless, SameFile, AllFlagged, RecStart, Conserved, BlockCache.Valid, Disk.Coherent,
        FileSound, SameDisk, Sound, VisibleByte, RecIndex, RecWithin, RecBytes, CacheOk, RawByte, Content;
      ghost var rb, s0 := recordBlocks, Now();
      ConservedSelf(alloc.free, owner, alloc.totalBlocks);
      SameAllSelf(codec, rb, s0);
      if ino !in inodes { return Err(EIO); }
      var f := inodes[ino];
      OwnFile(codec, D(), rb, inodes, owner, alloc.free, alloc.firstData, alloc.totalBlocks, ino);
      SoundFacts(codec, f, D(), rb);
      var buf: seq<byte> := [];
      if offset >= f.size {
        SliceBytes(codec, rb, s0, ino, offset, len, buf);
        return Ok(buf);
      }
      var n := if f.size - offset < len then f.size - offset else len;
      if n == 0 {
        SliceBytes(codec, rb, s0, ino, offset, len, buf);
        return Ok(buf);
      }
      if f.kind.Inline? {
        buf := f.inlineData[offset..offset + n];
        InlineBytes(codec, rb, s0, ino);
        SliceBytes(codec, rb, s0, ino, offset, len, buf);
        return Ok(buf);
      }
      if f.UsesCompression() {
        buf := ReadRecords(ino, offset, n);
      } else {
        ghost var d0 := D();
        buf := ReadDataRaw(ino, offset, len);
        ReadKeeps(codec, rb, inodes, recordCache, d0, D());
        RawFileBytes(codec, rb, s0, ino);
      }
      SliceBytes(codec, rb, s0, ino, offset, len, buf);
      return Ok(buf);
    }

    /** The record loop of `read_data`. */
    method ReadRecords(ino: nat, offset: nat, n: nat) returns (buf: seq<byte>)
      requires Valid() && ino in inodes && !inodes[ino].kind.Inline? && inodes[ino].UsesCompression()
      requires offset + n <= inodes[ino].size
      modifies this`inodes, this`owner, this`recordCache, alloc, cache, image
      ensures Valid()
      ensures SameAll(codec, recordBlocks, old(Now()), Now())
      ensures Conserved(old(alloc.free), old(owner), old(alloc.totalBlocks), alloc.free, owner, alloc.totalBlocks)
      ensures |buf| == n && forall k: nat :: k < n ==> buf[k] == VisibleByte(codec, recordBlocks, old(Now()), ino, offset + k)
    {
      hide AllSound, Owning, Coalesced, Lossless, SameAll, AllFlagged, RecStart, Conserved, BlockCache.Valid, Disk.Coherent,
        FileSound, VisibleByte, RecIndex, RecBytes, Mirrors;
      ghost var rb, s0 := recordBlocks, Now();
      ConservedSelf(alloc.free, owner, alloc.totalBlocks);
      SameAllSelf(codec, rb, s0);
      OwnFile(codec, D(), rb, inodes, owner, alloc.free, alloc.firstData, alloc.totalBlocks, ino);
      SoundFacts(codec, inodes[ino], D(), rb);
      buf := [];
      while |buf| < n
        invariant Valid() && |buf| <= n
        invariant SameAll(codec, rb, s0, Now())
        invariant Conserved(old(alloc.free), old(owner), old(alloc.totalBlocks), alloc.free, owner, alloc.totalBlocks)
        invariant forall k: nat :: k < |buf| ==> buf[k] == VisibleByte(codec, rb, s0, ino, offset + k)
        decreases n - |buf|
      {
        var pos := offset + |buf|;
        var rec := RecIndex(recordBlocks, pos);
        var within := RecWithin(recordBlocks, pos);
        var chunk := if RecBytes(recordBlocks) - within < n - |buf| then RecBytes(recordBlocks) - within else n - |buf|;
        PosBound(rb, pos);
        AttributesSame(codec, rb, s0, Now(), ino);
        ghost var s1, free1, owner1, total1 := Now(), alloc.free, owner, alloc.totalBlocks;
        CachedRecord(ino, rec);
        ConservedTransitive(old(alloc.free), old(owner), old(alloc.totalBlocks), free1, owner1, total1, alloc.free, owner, alloc.totalBlocks);
        SameAllTransitive(codec, rb, s0, s1, Now());
        AttributesSame(codec, rb, s0, Now(), ino);
        var data := recordCache.value.data;
        var avail := if |data| > within then |data| - within else 0;
        var take := if chunk < avail then chunk else avail;
        var piece := data[within..within + take] + Zeros(chunk - take);
        CachedPiece(codec, rb, Now(), ino, pos, chunk, piece);
        SameBytes(codec, rb, s0, Now(), ino);
        buf := buf + piece;
      }
    }

    /** Write through the record cache, record by record; the file's size is not raised yet. */
    method WriteDataCompressed(ino: nat, offset: nat, buf: seq<byte>)
      requires Valid() && ino in inodes && !inodes[ino].kind.Inline? && inodes[ino].UsesCompression()
      requires offset + |buf| <= MAX_FILE_SIZE && buf != []
      modifies this`inodes, this`owner, this`recordCache, alloc, cache, image
      ensures Valid()
      ensures Wrote(codec, recordBlocks, old(Now()), Now(), ino, offset, buf, |buf|)
      ensures recordCache.Some? && recordCache.value.ino == ino && recordCache.value.dirty
      ensures Conserved(old(alloc.free), old(owner), old(alloc.totalBlocks), alloc.free, owner, alloc.totalBlocks)
    {
      hide AllSound, Owning, Coalesced, Lossless, SameAll, AllFlagged, RecStart, Conserved, BlockCache.Valid, Disk.Coherent,
        RecIndex, RecBytes, Mirrors, Wrote;
      ghost var rb, s0 := recordBlocks, Now();
      ConservedSelf(alloc.free, owner, alloc.totalBlocks);
      WroteNothing(codec, rb, s0, ino, offset, buf);
      var done := 0;
      while done < |buf|
        invariant Valid() && done <= |buf|
        invariant Wrote(codec, rb, s0, Now(), ino, offset, buf, done)
        invariant Conserved(old(alloc.free), old(owner), old(alloc.totalBlocks), alloc.free, owner, alloc.totalBlocks)
        invariant 0 < done < |buf| ==> RecWithin(rb, offset + done) == 0
        invariant done > 0 ==> recordCache.Some? && recordCache.value.ino == ino && recordCache.value.dirty
      {
        var pos := offset + done;
        var rec := RecIndex(recordBlocks, pos);
        var within := RecWithin(recordBlocks, pos);
        var chunk := if RecBytes(recordBlocks) - within < |buf| - done then RecBytes(recordBlocks) - within else |buf| - done;
        PosBound(rb, pos);
        WroteKind(codec, rb, s0, Now(), ino, offset, buf, done);
        ghost var s1, free1, owner1, total1 := Now(), alloc.free, owner, alloc.totalBlocks;
        CachedRecord(ino, rec);
        ConservedTransitive(old(alloc.free), old(owner), old(alloc.totalBlocks), free1, owner1, total1, alloc.free, owner, alloc.totalBlocks);
        WroteThenSame(codec, rb, s0, s1, Now(), ino, offset, buf, done);
        WriteStep(codec, rb, s0, Now(), ino, offset, buf, done, chunk);
        var c := recordCache.value;
        var need: nat := within + chunk;
        var data := if |c.data| < need then Resize(c.data, need) else c.data;
        recordCache := Some(c.(data := Splice(data, within, buf[done..done + chunk]), dirty := true));
        if done + chunk < |buf| { NextRecord(rb, pos, chunk); }
        done := done + chunk;
      }
    }

    /** A file that outgrows its inode: all its bytes go to records. */
    method WriteInlineAsRecords(ino: nat, offset: nat, buf: seq<byte>)
      requires Valid() && ino in inodes && inodes[ino].kind.Inline? && inodes[ino].UsesCompression()
      requires buf != [] && offset + |buf| <= MAX_FILE_SIZE
      modifies this`inodes, this`owner, this`recordCache, alloc, cache, image
      ensures Valid()
      ensures SameExcept(codec, recordBlocks, old(Now()), Now(), ino) && ino in inodes && !inodes[ino].kind.Inline?
      ensures Content(codec, recordBlocks, Now(), ino) == Overwrite(Content(codec, recordBlocks, old(Now()), ino), offset, buf)
      ensures Clean(codec, recordBlocks, Now(), ino) && inodes[ino].UsesCompression() == old(inodes)[ino].UsesCompression()
      ensures Conserved(old(alloc.free), old(owner), old(alloc.totalBlocks), alloc.free, owner, alloc.totalBlocks)
    {
      hide AllSound, Owning, Coalesced, Lossless, SameExcept, AllFlagged, RecStart, Conserved, BlockCache.Valid, Disk.Coherent,
        RecIndex, RecBytes, Filled, CacheOk, FileSound, RecordSet, Content, Clean;
      ghost var rb, s0 := recordBlocks, Now();
      ConservedSelf(alloc.free, owner, alloc.totalBlocks);
      var f := inodes[ino];
      var end := offset + |buf|;
      OwnFile(codec, D(), rb, inodes, owner, alloc.free, alloc.firstData, alloc.totalBlocks, ino);
      SoundFacts(codec, f, D(), rb);
      InlineContent(codec, rb, s0, ino);
      var full := f.inlineData;
      if |full| < end { full := Resize(full, end); }
      full := Splice(full, offset, buf);
      assert full == Overwrite(f.inlineData, offset, buf);
      var g := f.(inlineData := [], kind := Direct, size := if end > f.size then end else f.size);
      AttributesKeep(codec, D(), rb, inodes, owner, alloc.free, alloc.firstData, alloc.totalBlocks, ino, g);
      FlagsKeep(inodes, ino, g);
      FilledNothing(codec, rb, s0, ino, g, full);
      inodes := inodes[ino := g];
      ZeroInRecord(rb);
      var off := 0;
      while off < |full|
        invariant Base() && AllFlagged(inodes) && CacheOk(codec, rb, Now()) && off <= |full|
        invariant Filled(codec, rb, s0, Now(), ino, full, off)
        invariant off < |full| ==> RecWithin(rb, off) == 0
        invariant ino in inodes && inodes[ino].UsesCompression() == f.UsesCompression()
        invariant Conserved(old(alloc.free), old(owner), old(alloc.totalBlocks), alloc.free, owner, alloc.totalBlocks)
      {
        var rec := RecIndex(recordBlocks, off);
        var n := if |full| - off < RecBytes(recordBlocks) then |full| - off else RecBytes(recordBlocks);
        PosBound(rb, off);
        FilledKind(codec, rb, s0, Now(), ino, full, off);
        ghost var s1, free1, owner1, total1 := Now(), alloc.free, owner, alloc.totalBlocks;
        StoreRecord(ino, rec, full[off..off + n]);
        ConservedTransitive(old(alloc.free), old(owner), old(alloc.totalBlocks), free1, owner1, total1, alloc.free, owner, alloc.totalBlocks);
        StoreKeepsCache(codec, rb, s1, inodes, D(), ino, rec, full[off..off + n]);
        RecordSetFlagged(codec, rb, s1.inodes, s1.disk, inodes, D(), ino, rec, full[off..off + n]);
        RecordSetKind(codec, rb, s1.inodes, s1.disk, inodes, D(), ino, rec, full[off..off + n]);
        FillStep(codec, rb, s0, s1, Now(), ino, full, off, n);
        if off + n < |full| { NextRecord(rb, off, n); }
        off := off + n;
      }
      FilledKind(codec, rb, s0, Now(), ino, full, off);
      FilledDone(codec, rb, s0, Now(), ino, full);
    }

    /** Move an inline file's bytes to blocks of its own. */
    method PromoteInline(ino: nat)
      requires Valid() && ino in inodes && inodes[ino].kind.Inline?
      modifies this`inodes, this`owner, alloc, cache, image
      ensures Valid() && recordCache == old(recordCache)
      ensures SameExcept(codec, recordBlocks, old(Now()), Now(), ino) && ino in inodes
      ensures !inodes[ino].kind.Inline? && inodes[ino].size == old(inodes)[ino].size
      ensures inodes[ino].UsesCompression() == old(inodes)[ino].UsesCompression()
      ensures forall pos: nat :: RawByte(inodes[ino], D(), pos) == ByteOr0(old(inodes)[ino].inlineData, pos)
      ensures forall l: nat :: MapBlock(inodes[ino].extents, l).Some? <==> l < BlocksFor(|old(inodes)[ino].inlineData|)
      ensures old(inodes)[ino].inlineData == [] ==> inodes[ino].extents == [] && D() == old(D()) && Ledger() == old(Ledger())
      ensures Conserved(old(alloc.free), old(owner), old(alloc.totalBlocks), alloc.free, owner, alloc.totalBlocks)
    {
      hide AllSound, Owning, Coalesced, Covers, Lossless, SameExcept, AllFlagged, Conserved, BlockCache.Valid,
        FileSound, Owns, RawByte, RecordData, Mirrors, Disk.Coherent, MapBlock;
      ghost var s0 := Now();
      var f := inodes[ino];
      OwnFile(codec, D(), recordBlocks, inodes, owner, alloc.free, alloc.firstData, alloc.totalBlocks, ino);
      SoundFacts(codec, f, D(), recordBlocks);
      var g := f.(inlineData := [], kind := Direct, extents := []);
      if f.inlineData == [] {
        FlagsKeep(inodes, ino, g);
        AttributesKeep(codec, D(), recordBlocks, inodes, owner, alloc.free, alloc.firstData, alloc.totalBlocks, ino, g);
        inodes := inodes[ino := g];
        OwnBlocksOnly(codec, recordBlocks, s0, inodes, D(), owner, alloc.free, alloc.firstData, alloc.totalBlocks, ino);
        EmptyBytes(g, D());
      } else {
        PromoteToBlocks(ino, f.inlineData, g);
        FlagsKeepRaw(s0.inodes, inodes, ino);
        OwnBlocksOnly(codec, recordBlocks, s0, inodes, D(), owner, alloc.free, alloc.firstData, alloc.totalBlocks, ino);
      }
    }

    method PromoteToBlocks(ino: nat, data: seq<byte>, g: Inode)
      requires Base() && ino in inodes && data != [] && |data| <= MAX_FILE_SIZE
      requires inodes[ino].extents == [] == g.extents && !g.kind.Inline? && g.size <= MAX_FILE_SIZE
      modifies this`inodes, this`owner, alloc, cache, image
      ensures Base() && ino in inodes && AllRaw(inodes[ino])
      ensures inodes == old(inodes)[ino := g.(extents := inodes[ino].extents, kind := inodes[ino].kind)] && !inodes[ino].kind.Inline?
      ensures forall pos: nat :: RawByte(inodes[ino], D(), pos) == ByteOr0(data, pos)
      ensures forall l: nat :: MapBlock(inodes[ino].extents, l).Some? <==> l < BlocksFor(|data|)
      ensures forall b: nat :: !Owns(inodes[ino].extents, b) ==> D().At(b) == old(D()).At(b)
      ensures Conserved(old(alloc.free), old(owner), old(alloc.totalBlocks), alloc.free, owner, alloc.totalBlocks)
    {
      hide AllSound, Owning, Coalesced, Covers, Lossless, Conserved, BlockCache.Valid,
        FileSound, InFlight, Added, Addable, Adopt, Owns, RawByte, Took, Chosen, RecordData, Overlay, Disk.At, Chunk, MapBlock;
      ghost var rb, d0, inodes0 := recordBlocks, D(), inodes;
      var need := BlocksFor(|data|);
      var r := alloc.Allocate(image, need);
      var phys := r.value;
      AllocatedInFlight(inodes, owner, old(alloc.free), alloc.firstData, old(alloc.totalBlocks), alloc.free, alloc.totalBlocks, phys, need);
      ghost var d1 := D();
      GrownSameDisk(d0, d1);
      WritePhysicalBytes(phys, data);
      OverlayParts(d1, D(), phys, need, data);
      WriteKeeps(codec, d0, D(), rb, inodes, owner, alloc.free, alloc.firstData, alloc.totalBlocks, phys, need);
      AttributesKeep(codec, D(), rb, inodes, owner, alloc.free, alloc.firstData, alloc.totalBlocks, ino, g);
      inodes := inodes[ino := g];
      ghost var e := Whole(0, phys, need);
      AddableToNone(e, rb);
      AddExtent(ino, 0, phys, need, need, 0);
      OneExtentOwns(e);
      PromotedBytes(inodes[ino], D(), phys, need, data);
      OwnedBelow(inodes0, old(owner), old(alloc.free), alloc.firstData, old(alloc.totalBlocks));
      PlaceConserves(old(alloc.free), old(owner), old(alloc.totalBlocks), alloc.free, alloc.firstData, alloc.totalBlocks, phys, need,
        old(owner), alloc.free, ino);
    }

    /** The physical block of a logical block, allocated if it has none. The block is not cleared. */
    method AllocateLogical(ino: nat, logical: nat) returns (phys: nat)
      requires Base() && AllFlagged(inodes) && ino in inodes && !inodes[ino].kind.Inline? && !inodes[ino].UsesCompression()
      requires logical < MAX_LOGICAL
      modifies this`inodes, this`owner, alloc, image
      ensures Base() && AllFlagged(inodes) && ino in inodes
      ensures Mapped(old(inodes)[ino], inodes[ino], recordBlocks, logical, phys)
      ensures inodes == old(inodes)[ino := inodes[ino]] && SameDisk(old(D()), D())
      ensures SpotOf(old(inodes)[ino].extents, logical) == Hole ==>
        TookOne(old(alloc.free), old(alloc.totalBlocks), phys, alloc.free, alloc.totalBlocks)
      ensures Conserved(old(alloc.free), old(owner), old(alloc.totalBlocks), alloc.free, owner, alloc.totalBlocks)
    {
      hide AllSound, Owning, Coalesced, Covers, Lossless, AllFlagged, Conserved, BlockCache.Valid,
        FileSound, InFlight, Added, Addable, Adopt, Owns, Took, TookOne, Chosen, RecordData, Sound, MapBlock, SpotOf;
      ghost var rb, d0 := recordBlocks, D();
      var f := inodes[ino];
      OwnFile(codec, d0, rb, inodes, owner, alloc.free, alloc.firstData, alloc.totalBlocks, ino);
      UncompressedIsRaw(inodes, ino);
      MapOfSpot(f.extents, logical);
      SameDiskSelf(d0);
      var p := MapBlock(f.extents, logical);
      if p.Some? { return p.value; }
      var r := alloc.Allocate(image, 1);
      phys := r.value;
      ChosenOne(old(alloc.free), old(alloc.totalBlocks), old(image.data), phys, alloc.free, alloc.totalBlocks, image.data);
      AllocatedInFlight(inodes, owner, old(alloc.free), alloc.firstData, old(alloc.totalBlocks), alloc.free, alloc.totalBlocks, phys, 1);
      WriteKeeps(codec, d0, D(), rb, inodes, owner, alloc.free, alloc.firstData, alloc.totalBlocks, phys, 1);
      HoleAddable(f.extents, rb, logical, phys, owner, alloc.free, alloc.firstData, alloc.totalBlocks);
      ghost var inodes0 := inodes;
      AddExtent(ino, logical, phys, 1, 1, 0);
      RawMapped(f, inodes[ino], D(), rb, logical, phys, 0);
      FlagsKeepRaw(inodes0, inodes, ino);
      OwnedBelow(inodes0, old(owner), old(alloc.free), alloc.firstData, old(alloc.totalBlocks));
      PlaceConserves(old(alloc.free), old(owner), old(alloc.totalBlocks), alloc.free, alloc.firstData, alloc.totalBlocks, phys, 1,
        old(owner), alloc.free, ino);
    }

    /** One chunk of the raw write loop: map the block, and change those bytes in the cache. */
    method WriteChunkRaw(ino: nat, pos: nat, piece: seq<byte>) returns (ghost phys: nat)
      requires Base() && AllFlagged(inodes) && ino in inodes && !inodes[ino].kind.Inline? && !inodes[ino].UsesCompression()
      requires pos < MAX_FILE_SIZE && pos % 4096 + |piece| <= 4096
      modifies this`inodes, this`owner, alloc, cache, image
      ensures Base() && AllFlagged(inodes) && ino in inodes && inodes == old(inodes)[ino := inodes[ino]]
      ensures Sound(old(inodes)[ino].extents, recordBlocks) && Sound(inodes[ino].extents, recordBlocks)
      ensures Mapped(old(inodes)[ino], inodes[ino], recordBlocks, pos / 4096, phys)
      ensures PokedAt(old(D()), D(), phys, pos % 4096, piece)
      ensures SpotOf(old(inodes)[ino].extents, pos / 4096) == Hole ==>
        TookOne(old(alloc.free), old(alloc.totalBlocks), phys, alloc.free, alloc.totalBlocks)
      ensures Conserved(old(alloc.free), old(owner), old(alloc.totalBlocks), alloc.free, owner, alloc.totalBlocks)
    {
      hide AllSound, Owning, Coalesced, Covers, Lossless, AllFlagged, Conserved, BlockCache.Valid,
        FileSound, Owns, RecordData, Disk.At, Sound, Mapped, SameDisk, MapBlock, SpotOf, TookOne;
      ghost var rb, g0 := recordBlocks, inodes[ino];
      OwnFile(codec, D(), rb, inodes, owner, alloc.free, alloc.firstData, alloc.totalBlocks, ino);
      UncompressedIsRaw(inodes, ino);
      var block0 := AllocateLogical(ino, pos / 4096);
      phys := block0;
      ghost var d1 := D();
      OwnFile(codec, d1, rb, inodes, owner, alloc.free, alloc.firstData, alloc.totalBlocks, ino);
      RawStepMaps(g0, inodes[ino], d1, rb, pos / 4096, phys);
      MapOwned(inodes[ino].extents, rb, pos / 4096);
      var block := cache.GetMut(image, block0);
      cache.Poke(image, block0, Splice(block, pos % 4096, piece));
      RawPokeSound(codec, rb, inodes, d1, D(), owner, alloc.free, alloc.firstData, alloc.totalBlocks, ino);
      PokedOver(old(D()), d1, D(), phys, pos % 4096, piece);
    }

    /** Write an uncompressed file block by block, in place. */
    method WriteDataRaw(ino: nat, offset: nat, buf: seq<byte>)
      requires Valid() && ino in inodes && !inodes[ino].kind.Inline? && !inodes[ino].UsesCompression()
      requires offset + |buf| <= MAX_FILE_SIZE
      modifies this`inodes, this`owner, alloc, cache, image
      ensures Valid() && recordCache == old(recordCache)
      ensures SameExcept(codec, recordBlocks, old(Now()), Now(), ino) && ino in inodes
      ensures RawWrote(old(inodes)[ino], old(D()), inodes[ino], D(), offset, buf, |buf|)
      ensures old(inodes)[ino].extents == [] && buf != [] && offset % 4096 + |buf| <= 4096 ==>
        FirstBlock(old(alloc.free), old(alloc.totalBlocks), old(D()), alloc.free, alloc.totalBlocks, D(), inodes[ino].extents, offset, buf)
      ensures Conserved(old(alloc.free), old(owner), old(alloc.totalBlocks), alloc.free, owner, alloc.totalBlocks)
    {
      hide AllSound, Owning, Coalesced, Covers, Lossless, SameExcept, AllFlagged, Conserved, BlockCache.Valid,
        FileSound, Owns, Mirrors, RawWrote, Disk.At, Sound, Mapped, PokedAt, SpotOf, TookOne, FirstBlock;
      ghost var rb, s0 := recordBlocks, Now();
      ghost var f := inodes[ino];
      ghost var short := f.extents == [] && buf != [] && offset % 4096 + |buf| <= 4096;
      ConservedSelf(alloc.free, owner, alloc.totalBlocks);
      UncompressedIsRaw(inodes, ino);
      RawWroteNothing(f, D(), offset, buf);
      var done := 0;
      while done < |buf|
        invariant Base() && AllFlagged(inodes) && ino in inodes && done <= |buf|
        invariant recordCache == old(recordCache)
        invariant inodes == s0.inodes[ino := inodes[ino]]
        invariant RawWrote(f, s0.disk, inodes[ino], D(), offset, buf, done)
        invariant 0 < done < |buf| ==> (offset + done) % 4096 == 0
        invariant done == 0 ==> inodes[ino] == f && D() == s0.disk && Ledger() == old(Ledger())
        invariant short && done > 0 ==> done == |buf|
        invariant short && done > 0 ==>
          FirstBlock(old(alloc.free), old(alloc.totalBlocks), s0.disk, alloc.free, alloc.totalBlocks, D(), inodes[ino].extents, offset, buf)
        invariant Conserved(old(alloc.free), old(owner), old(alloc.totalBlocks), alloc.free, owner, alloc.totalBlocks)
      {
        var pos := offset + done;
        var within := pos % 4096;
        var chunk := if BLOCK_SIZE - within < |buf| - done then BLOCK_SIZE - within else |buf| - done;
        ghost var g0, d0, free1, owner1, total1 := inodes[ino], D(), alloc.free, owner, alloc.totalBlocks;
        RawWroteKind(f, s0.disk, g0, d0, offset, buf, done);
        var phys := WriteChunkRaw(ino, pos, buf[done..done + chunk]);
        ConservedTransitive(old(alloc.free), old(owner), old(alloc.totalBlocks), free1, owner1, total1, alloc.free, owner, alloc.totalBlocks);
        RawWriteStep(f, s0.disk, g0, d0, inodes[ino], D(), rb, offset, buf, done, chunk, phys);
        if short {
          assert buf[..|buf|] == buf;
          FirstBlockFrom(f, inodes[ino], rb, free1, total1, d0, phys, alloc.free, alloc.totalBlocks, D(), offset, buf);
        }
        done := done + chunk;
      }
      RawWroteKind(f, s0.disk, inodes[ino], D(), offset, buf, done);
      OwnBlocksOnly(codec, rb, s0, inodes, D(), owner, alloc.free, alloc.firstData, alloc.totalBlocks, ino);
    }

    /** The write goes where the file's bytes can always be kept exactly. */
    ghost predicate Exact(ino: nat, offset: nat, len: nat)
      requires ino in inodes
      reads this
    {
      || inodes[ino].UsesCompression()
      || (inodes[ino].kind.Inline? && offset + len <= INLINE_MAX)
      || FillsItsHoles(inodes[ino], offset, len)
    }

    /** Raise the size of a file to cover a write, if it has to grow. */
    method RaiseSize(ino: nat, end: nat)
      requires Valid() && ino in inodes && !inodes[ino].kind.Inline? && end <= MAX_FILE_SIZE
      requires recordCache.Some? && recordCache.value.ino == ino ==> recordCache.value.dirty
      modifies this`inodes
      ensures Valid()
      ensures var f := old(inodes)[ino]; inodes == old(inodes)[ino := f.(size := if end > f.size then end else f.size)]
    {
      hide AllSound, Owning, Coalesced, Lossless, AllFlagged, BlockCache.Valid, FileSound, Mirrors, RecStart;
      var g := inodes[ino];
      OwnFile(codec, D(), recordBlocks, inodes, owner, alloc.free, alloc.firstData, alloc.totalBlocks, ino);
      SoundFacts(codec, g, D(), recordBlocks);
      if end > g.size { g := g.(size := end); }
      AttributesKeep(codec, D(), recordBlocks, inodes, owner, alloc.free, alloc.firstData, alloc.totalBlocks, ino, g);
      FlagsKeep(inodes, ino, g);
      SizeKeepsCache(codec, recordBlocks, Now(), ino, g);
      inodes := inodes[ino := g];
    }

    /** A small write to a file that lives in its inode. */
    method WriteInPlace(ino: nat, offset: nat, buf: seq<byte>)
      requires Valid() && ino in inodes && inodes[ino].kind.Inline? && buf != [] && offset + |buf| <= INLINE_MAX
      modifies this`inodes
      ensures Valid() && ino in inodes && inodes[ino].kind.Inline?
      ensures SameExcept(codec, recordBlocks, old(Now()), Now(), ino)
      ensures Content(codec, recordBlocks, Now(), ino) == Overwrite(Content(codec, recordBlocks, old(Now()), ino), offset, buf)
      ensures Clean(codec, recordBlocks, Now(), ino) && inodes[ino].UsesCompression() == old(inodes)[ino].UsesCompression()
    {
      hide AllSound, Owning, Coalesced, Covers, Lossless, SameExcept, AllFlagged, BlockCache.Valid, FileSound, Mirrors,
        Content, Clean;
      ghost var rb, s0 := recordBlocks, Now();
      var f := inodes[ino];
      var end := offset + |buf|;
      OwnFile(codec, D(), rb, inodes, owner, alloc.free, alloc.firstData, alloc.totalBlocks, ino);
      SoundFacts(codec, f, D(), rb);
      InlineContent(codec, rb, s0, ino);
      var data := f.inlineData;
      if |data| < end { data := Resize(data, end); }
      data := Splice(data, offset, buf);
      assert data == Overwrite(f.inlineData, offset, buf);
      var g := f.(inlineData := data, size := if end > f.size then end else f.size);
      AttributesKeep(codec, D(), rb, inodes, owner, alloc.free, alloc.firstData, alloc.totalBlocks, ino, g);
      FlagsKeep(inodes, ino, g);
      inodes := inodes[ino := g];
      OwnBlocksOnly(codec, rb, s0, inodes, D(), owner, alloc.free, alloc.firstData, alloc.totalBlocks, ino);
      InlineContent(codec, rb, Now(), ino);
    }

    /** A write to a file that is not compressed. */
    method WriteUncompressed(ino: nat, offset: nat, buf: seq<byte>)
      requires Valid() && ino in inodes && !inodes[ino].UsesCompression() && buf != [] && offset + |buf| <= MAX_FILE_SIZE
      modifies this`inodes, this`owner, alloc, cache, image
      ensures Valid() && ino in inodes && !inodes[ino].kind.Inline?
      ensures SameExcept(codec, recordBlocks, old(Now()), Now(), ino)
      ensures inodes[ino].UsesCompression() == old(inodes)[ino].UsesCompression()
      ensures old(inodes)[ino].extents == [] && old(inodes)[ino].inlineData == [] && offset % 4096 + |buf| <= 4096 ==>
        FirstBlock(old(alloc.free), old(alloc.totalBlocks), old(D()), alloc.free, alloc.totalBlocks, D(), inodes[ino].extents, offset, buf)
      ensures RawLanded(old(inodes)[ino], Content(codec, recordBlocks, old(Now()), ino), Content(codec, recordBlocks, Now(), ino), offset, buf)
      ensures old(Clean(codec, recordBlocks, Now(), ino)) ==>
        GapZero(old(inodes)[ino], Content(codec, recordBlocks, old(Now()), ino), Content(codec, recordBlocks, Now(), ino), offset, buf)
      ensures old(FillsItsHoles(inodes[ino], offset, |buf|)) ==>
        && ((old(Clean(codec, recordBlocks, Now(), ino)) || offset <= old(inodes)[ino].size) ==>
              Content(codec, recordBlocks, Now(), ino) == Overwrite(Content(codec, recordBlocks, old(Now()), ino), offset, buf))
        && (old(Clean(codec, recordBlocks, Now(), ino)) ==> Clean(codec, recordBlocks, Now(), ino))
      ensures Conserved(old(alloc.free), old(owner), old(alloc.totalBlocks), alloc.free, owner, alloc.totalBlocks)
    {
      hide AllSound, Owning, Coalesced, Covers, Lossless, SameExcept, AllFlagged, Conserved, BlockCache.Valid,
        FileSound, RawWrote, Sound, Content, Clean, FillsItsHoles, Disk.Coherent, Disk.At, Mirrors,
        RawByte, VisibleByte, MapBlock, RawLanded, RawWroteAt, GapZero, FirstBlock;
      ghost var rb, s0 := recordBlocks, Now();
      ghost var f := inodes[ino];
      var end := offset + |buf|;
      OwnFile(codec, D(), rb, inodes, owner, alloc.free, alloc.firstData, alloc.totalBlocks, ino);
      SoundFacts(codec, f, D(), rb);
      RawFileBytes(codec, rb, s0, ino);
      ConservedSelf(alloc.free, owner, alloc.totalBlocks);
      SameExceptSelf(codec, rb, s0, ino);
      if inodes[ino].kind.Inline? { PromoteInline(ino); }
      ghost var s1, free1, owner1, total1 := Now(), alloc.free, owner, alloc.totalBlocks;
      PromotedSameRaw(f, s0.disk, inodes[ino], D());
      WriteDataRaw(ino, offset, buf);
      ConservedTransitive(old(alloc.free), old(owner), old(alloc.totalBlocks), free1, owner1, total1, alloc.free, owner, alloc.totalBlocks);
      ghost var s2 := Now();
      SameExceptTransitive(codec, rb, s0, s1, s2, ino);
      RawWroteKind(s1.inodes[ino], s1.disk, inodes[ino], D(), offset, buf, |buf|);
      OwnFile(codec, D(), rb, inodes, owner, alloc.free, alloc.firstData, alloc.totalBlocks, ino);
      RawFileBytes(codec, rb, s2, ino);
      RaiseSize(ino, end);
      RawIsLanded(codec, rb, s0, s1, s2, ino, offset, buf, inodes[ino].size);
      if FillsItsHoles(f, offset, |buf|) {
        RawIsWrote(codec, rb, s0, s1, s2, ino, offset, buf);
        WriteDone(codec, rb, s0, s2, ino, offset, buf, inodes[ino].size);
      } else {
        ResizeBytes(codec, rb, s2, ino, inodes[ino].size);
        SameExceptTransitive(codec, rb, s0, s2, Now(), ino);
      }
    }

    /** Write `buf` at `offset`. */
    method WriteData(ino: nat, offset: nat, buf: seq<byte>) returns (r: Result<nat>)
      requires Valid()
      modifies this`inodes, this`owner, this`recordCache, alloc, cache, image
      ensures Valid()
      ensures r == if !writable then Err(EROFS) else if buf == [] then Ok(0)
                   else if offset + |buf| > MAX_FILE_SIZE then Err(EFBIG)
                   else if ino !in old(inodes) then Err(EIO) else Ok(|buf|)
      ensures r.Err? || buf == [] ==> Now() == old(Now())
      // No other file reads any differently.
      ensures SameExcept(codec, recordBlocks, old(Now()), Now(), ino)
      ensures r.Ok? && buf != [] ==>
        ino in old(inodes) && ino in inodes && inodes[ino].UsesCompression() == old(inodes)[ino].UsesCompression()
      // A file stays in its inode as long as it fits there.
      ensures r.Ok? && buf != [] ==> (inodes[ino].kind.Inline? <==> old(inodes)[ino].kind.Inline? && offset + |buf| <= INLINE_MAX)
      // What was written reads back, and an uncompressed write leaves alone whatever shares no new block with it.
      ensures r.Ok? && buf != [] ==>
        Landed(Content(codec, recordBlocks, old(Now()), ino), Content(codec, recordBlocks, Now(), ino), offset, buf)
      ensures r.Ok? && buf != [] && !old(inodes)[ino].UsesCompression() ==>
        RawLanded(old(inodes)[ino], Content(codec, recordBlocks, old(Now()), ino), Content(codec, recordBlocks, Now(), ino), offset, buf)
      ensures r.Ok? && buf != [] && !old(inodes)[ino].UsesCompression() && old(Clean(codec, recordBlocks, Now(), ino)) ==>
        GapZero(old(inodes)[ino], Content(codec, recordBlocks, old(Now()), ino), Content(codec, recordBlocks, Now(), ino), offset, buf)
      // An uncompressed file without blocks gets the one the allocator chooses, which is not cleared.
      ensures r.Ok? && buf != [] && !old(inodes)[ino].UsesCompression() ==> recordCache == old(recordCache)
      ensures r.Ok? && buf != [] && old(StartsFile(inodes[ino], offset, |buf|)) ==>
        FirstBlock(old(alloc.free), old(alloc.totalBlocks), old(D()), alloc.free, alloc.totalBlocks, D(), inodes[ino].extents, offset, buf)
      // Where the write is exact, the file reads as its old bytes with `buf` written over them and any gap filled with zeros.
      ensures r.Ok? && buf != [] && old(Exact(ino, offset, |buf|)) ==>
        && ((old(Clean(codec, recordBlocks, Now(), ino)) || offset <= old(inodes)[ino].size) ==>
              Content(codec, recordBlocks, Now(), ino) == Overwrite(Content(codec, recordBlocks, old(Now()), ino), offset, buf))
        && (old(Clean(codec, recordBlocks, Now(), ino)) ==> Clean(codec, recordBlocks, Now(), ino))
      ensures Conserved(old(alloc.free), old(owner), old(alloc.totalBlocks), alloc.free, owner, alloc.totalBlocks)
    {
      hide AllSound, Owning, Coalesced, Covers, Lossless, SameExcept, AllFlagged, Conserved, BlockCache.Valid,
        FileSound, RawWrote, Sound, Wrote, WroteAt, CacheOk, Content, Clean, Landed, RawLanded, GapZero, FillsItsHoles, Disk.Coherent, Disk.At, FirstBlock;
      ghost var rb, s0 := recordBlocks, Now();
      ConservedSelf(alloc.free, owner, alloc.totalBlocks);
      SameExceptSelf(codec, rb, s0, ino);
      if !writable { return Err(EROFS); }
      if buf == [] { return Ok(0); }
      var end := offset + |buf|;
      if end > MAX_FILE_SIZE { return Err(EFBIG); }
      if ino !in inodes { return Err(EIO); }
      var f := inodes[ino];
      OwnFile(codec, D(), rb, inodes, owner, alloc.free, alloc.firstData, alloc.totalBlocks, ino);
      SoundFacts(codec, f, D(), rb);
      OverwriteLanded(Content(codec, rb, s0, ino), offset, buf);
      if f.kind.Inline? && end <= INLINE_MAX && f.extents == [] {
        WriteInPlace(ino, offset, buf);
        AllKept(f, Content(codec, rb, s0, ino), offset, buf);
      } else if f.UsesCompression() {
        if f.kind.Inline? {
          WriteInlineAsRecords(ino, offset, buf);
        } else {
          WriteDataCompressed(ino, offset, buf);
          WroteKind(codec, rb, s0, Now(), ino, offset, buf, |buf|);
          ghost var s1 := Now();
          RaiseSize(ino, end);
          WroteParts(codec, rb, s0, s1, ino, offset, buf);
          WriteDone(codec, rb, s0, s1, ino, offset, buf, inodes[ino].size);
          WroteLanded(codec, rb, s0, s1, ino, offset, buf, inodes[ino].size);
        }
      } else {
        WriteUncompressed(ino, offset, buf);
        RawLandedIsLanded(f, Content(codec, rb, s0, ino), Content(codec, rb, Now(), ino), offset, buf);
      }
      return Ok(|buf|);
    }

    // --- truncate_data ----------------------------------------------------------------------

    method FreeExtents(exts: seq<Extent>)
      requires alloc.Valid() && recordBlocks > 0 && Sound(exts, recordBlocks)
      requires forall b: nat :: Owns(exts, b) ==> !Covers(alloc.free, b) && alloc.firstData <= b < alloc.totalBlocks
      modifies alloc`free
      ensures alloc.Valid()
      ensures forall b: nat :: Covers(alloc.free, b) <==> Covers(old(alloc.free), b) || Owns(exts, b)
    {
      hide Coalesced, Covers, Sound, Owns;
      forall b: nat ensures !Owns(exts[..0], b) { assert exts[..0] == []; NoneOwns(b); }
      for k := 0 to |exts|
        invariant alloc.Valid()
        invariant forall b: nat :: Covers(alloc.free, b) <==> Covers(old(alloc.free), b) || Owns(exts[..k], b)
      {
        var ext := exts[k];
        forall b: nat | ext.Holds(b) ensures Owns(exts, b) && !Owns(exts[..k], b) { FirstOwns(exts, recordBlocks, k, b); }
        if ext.PhysLen() > 0 { assert ext.Holds(ext.physical) && ext.Holds(ext.PhysicalEnd() - 1); }
        FreeExtentPhysical(ext);
        forall b: nat ensures Owns(exts[..k + 1], b) <==> Owns(exts[..k], b) || ext.Holds(b) { OwnsSnoc(exts, k, b); }
      }
      assert exts[..|exts|] == exts;
    }

    /** Give up all blocks and keep `data` in the inode. */
    method BecomeInline(ino: nat, data: seq<byte>)
      requires Valid() && recordCache.None? && ino in inodes && |data| <= MAX_FILE_SIZE
      modifies this`inodes, this`owner, alloc`free
      ensures Valid() && ino in inodes
      ensures inodes[ino].size == |data| && inodes[ino].UsesCompression() == old(inodes)[ino].UsesCompression()
      ensures SameExcept(codec, recordBlocks, old(Now()), Now(), ino)
      ensures Content(codec, recordBlocks, Now(), ino) == data && Clean(codec, recordBlocks, Now(), ino)
      ensures inodes[ino].kind.Inline? && inodes[ino].extents == [] && inodes[ino].inlineData == data
      ensures forall b: nat :: Covers(alloc.free, b) <==> Covers(old(alloc.free), b) || Owns(old(inodes)[ino].extents, b)
      ensures Conserved(old(alloc.free), old(owner), old(alloc.totalBlocks), alloc.free, owner, alloc.totalBlocks)
    {
      hide AllSound, Owning, Coalesced, Covers, Lossless, SameExcept, AllFlagged, Conserved, BlockCache.Valid,
        FileSound, Sound, Content, Clean, Disk.Coherent, Owns, Release;
      ghost var s0 := Now();
      var f := inodes[ino];
      OwnFile(codec, D(), recordBlocks, inodes, owner, alloc.free, alloc.firstData, alloc.totalBlocks, ino);
      FreeExtents(f.extents);
      var g := f.(extents := [], size := |data|, kind := Inline, inlineData := data);
      DropKeepsAll(codec, D(), recordBlocks, inodes, owner, old(alloc.free), alloc.free, alloc.firstData, alloc.totalBlocks, ino, g);
      owner := Release(owner, ino, []);
      inodes := inodes[ino := g];
      FlagsKeepRaw(s0.inodes, inodes, ino);
      BecameInline(codec, recordBlocks, s0, Now(), ino);
      InlineContent(codec, recordBlocks, Now(), ino);
    }

    /** Store a record again with its first `keep` bytes only. */
    method ShortenRecord(ino: nat, rec: nat, newSize: nat) returns (ghost data: seq<byte>)
      requires Valid() && recordCache.None? && ino in inodes && !inodes[ino].kind.Inline? && inodes[ino].UsesCompression()
      requires 0 < newSize < inodes[ino].size && rec == RecIndex(recordBlocks, newSize - 1)
      modifies this`inodes, this`owner, alloc, cache, image
      ensures Valid() && recordCache.None? && ino in inodes && !inodes[ino].kind.Inline? && inodes[ino].UsesCompression()
      ensures SameExcept(codec, recordBlocks, old(Now()), Now(), ino)
      ensures RecStart(recordBlocks, rec) * 4096 <= newSize && |data| == newSize - RecStart(recordBlocks, rec) * 4096
      ensures forall w: nat :: w < |data| ==>
        data[w] == StoredByte(codec, old(inodes)[ino].extents, old(D()), recordBlocks, rec, w)
      ensures forall r: nat, w: nat :: w < RecBytes(recordBlocks) ==>
        StoredByte(codec, inodes[ino].extents, D(), recordBlocks, r, w) ==
          if r == rec then ByteOr0(data, w) else StoredByte(codec, old(inodes)[ino].extents, old(D()), recordBlocks, r, w)
      ensures Conserved(old(alloc.free), old(owner), old(alloc.totalBlocks), alloc.free, owner, alloc.totalBlocks)
    {
      hide AllSound, Owning, Coalesced, Covers, Lossless, SameExcept, SameAll, AllFlagged, Conserved, BlockCache.Valid,
        FileSound, Sound, Disk.Coherent, RecordSet, RecStart, RecIndex, CacheOk, StoredByte, Mirrors;
      ghost var rb, s0 := recordBlocks, Now();
      OwnFile(codec, D(), rb, inodes, owner, alloc.free, alloc.firstData, alloc.totalBlocks, ino);
      SoundFacts(codec, inodes[ino], D(), rb);
      PosBound(rb, newSize - 1);
      PosInRecord(rb, newSize - 1);
      var keep := newSize - RecStart(recordBlocks, rec) * 4096;
      var whole := LoadRecord(ino, rec);
      ghost var s1 := Now();
      ReadKeeps(codec, rb, inodes, None, s0.disk, D());
      ShortRecord(codec, rb, s0.inodes[ino], s0.disk, rec, whole, newSize);
      data := whole[..keep];
      StoredAgain(codec, rb, s0, s1, ino);
      StoreRecord(ino, rec, whole[..keep]);
      StoreKeepsCache(codec, rb, s1, inodes, D(), ino, rec, data);
      RecordSetFlagged(codec, rb, s1.inodes, s1.disk, inodes, D(), ino, rec, data);
      RecordSetKind(codec, rb, s1.inodes, s1.disk, inodes, D(), ino, rec, data);
      RecordSetBytes(codec, rb, s1.inodes, s1.disk, inodes, D(), ino, rec, data);
      SameExceptTransitive(codec, rb, s0, s1, Now(), ino);
    }

    /** Shrink a compressed file: rewrite its last record, and punch out all later ones. */
    method CutRecords(ino: nat, newSize: nat)
      requires Valid() && recordCache.None? && ino in inodes && !inodes[ino].kind.Inline? && inodes[ino].UsesCompression()
      requires 0 < newSize < inodes[ino].size
      modifies this`inodes, this`owner, alloc, cache, image
      ensures Valid() && recordCache.None? && ino in inodes && !inodes[ino].kind.Inline? && inodes[ino].UsesCompression()
      ensures inodes[ino].size == newSize
      ensures SameExcept(codec, recordBlocks, old(Now()), Now(), ino)
      ensures Content(codec, recordBlocks, Now(), ino) == Content(codec, recordBlocks, old(Now()), ino)[..newSize]
      ensures Clean(codec, recordBlocks, Now(), ino)
      ensures Conserved(old(alloc.free), old(owner), old(alloc.totalBlocks), alloc.free, owner, alloc.totalBlocks)
    {
      hide AllSound, Owning, Coalesced, Covers, Lossless, SameExcept, AllFlagged, Conserved, BlockCache.Valid,
        FileSound, Sound, Content, Clean, Disk.Coherent, RecStart, RecIndex, Release, Punched, CacheOk, StoredByte, KindFor;
      ghost var rb, s0 := recordBlocks, Now();
      var lastRec := RecIndex(recordBlocks, newSize - 1);
      var recStart := RecStart(recordBlocks, lastRec);
      OwnFile(codec, D(), rb, inodes, owner, alloc.free, alloc.firstData, alloc.totalBlocks, ino);
      SoundFacts(codec, inodes[ino], D(), rb);
      PosBound(rb, newSize - 1);
      ghost var data := ShortenRecord(ino, lastRec, newSize);
      ghost var s2, free2, owner2, total2 := Now(), alloc.free, owner, alloc.totalBlocks;
      OwnFile(codec, D(), rb, inodes, owner, alloc.free, alloc.firstData, alloc.totalBlocks, ino);
      ExtentsBound(codec, inodes[ino], D(), rb);
      PunchLogicalRange(ino, recStart + recordBlocks, HALF_U64);
      ConservedTransitive(old(alloc.free), old(owner), old(alloc.totalBlocks), free2, owner2, total2, alloc.free, owner, alloc.totalBlocks);
      var g := inodes[ino].(size := newSize);
      AttributesKeep(codec, D(), rb, inodes, owner, alloc.free, alloc.firstData, alloc.totalBlocks, ino, g);
      PunchedFlagged(s2.inodes, ino, g, rb, recStart + recordBlocks, HALF_U64);
      inodes := inodes[ino := g];
      assert inodes == s2.inodes[ino := g];
      CutBytes(codec, rb, s0, s2, Now(), ino, newSize, data, HALF_U64);
      BecameInline(codec, rb, s2, Now(), ino);
      SameExceptTransitive(codec, rb, s0, s2, Now(), ino);
      NoCache(codec, rb, Now());
    }

    /** The extents of an uncompressed file up to block `drop`; the rest is freed. */
    method CutExtents(exts: seq<Extent>, drop: nat) returns (kept: seq<Extent>)
      requires alloc.Valid() && recordBlocks > 0 && Sound(exts, recordBlocks) && drop < MAX_LOGICAL
      requires forall e :: e in exts ==> !e.IsCompressed() && e.LogicalEnd() <= MAX_LOGICAL
      requires forall b: nat :: Owns(exts, b) ==> !Covers(alloc.free, b) && alloc.firstData <= b < alloc.totalBlocks
      modifies alloc`free
      ensures alloc.Valid() && kept == Punched(exts, drop, MAX_LOGICAL)
      ensures forall b: nat :: Covers(alloc.free, b) <==> Covers(old(alloc.free), b) || PunchFreesBlock(exts, drop, MAX_LOGICAL, b)
    {
      hide Coalesced, Covers, Sound, Owns, PunchFreesBlock, FreesBlock;
      kept := [];
      assert exts[..0] == [];
      forall b: nat ensures !PunchFreesBlock(exts[..0], drop, MAX_LOGICAL, b) { NoneFrees(drop, MAX_LOGICAL, b); }
      for k := 0 to |exts|
        invariant kept == Punched(exts[..k], drop, MAX_LOGICAL)
        invariant alloc.Valid()
        invariant forall b: nat :: Covers(alloc.free, b) <==> Covers(old(alloc.free), b) || PunchFreesBlock(exts[..k], drop, MAX_LOGICAL, b)
      {
        var ext := exts[k];
        SoundMember(exts, recordBlocks, k);
        forall b: nat | FreesBlock(ext, drop, MAX_LOGICAL, b)
          ensures !Covers(alloc.free, b) && alloc.firstData <= b < alloc.totalBlocks
        {
          PunchRunsApart(exts, recordBlocks, k, drop, MAX_LOGICAL, b);
        }
        var pieces := CutExtent(ext, drop);
        forall b: nat ensures PunchFreesBlock(exts[..k + 1], drop, MAX_LOGICAL, b) <==>
          PunchFreesBlock(exts[..k], drop, MAX_LOGICAL, b) || FreesBlock(ext, drop, MAX_LOGICAL, b)
        {
          PunchFreesSnoc(exts, k, drop, MAX_LOGICAL, b);
        }
        kept := kept + pieces;
        assert exts[..k + 1][..k] == exts[..k];
      }
      assert exts[..|exts|] == exts;
    }

    /** The part of that loop that deals with one extent. */
    method CutExtent(ext: Extent, drop: nat) returns (pieces: seq<Extent>)
      requires alloc.Valid() && SoundExtent(ext, 1) && !ext.IsCompressed() && ext.LogicalEnd() <= MAX_LOGICAL
      requires forall b: nat :: FreesBlock(ext, drop, MAX_LOGICAL, b) ==>
        !Covers(alloc.free, b) && alloc.firstData <= b < alloc.totalBlocks
      modifies alloc`free
      ensures alloc.Valid() && pieces == PunchOne(ext, drop, MAX_LOGICAL)
      ensures forall b: nat :: Covers(alloc.free, b) <==> Covers(old(alloc.free), b) || FreesBlock(ext, drop, MAX_LOGICAL, b)
    {
      hide Coalesced, Covers, FreesBlock, PunchOne;
      CutOneIsPunch(ext, drop, MAX_LOGICAL);
      if ext.LogicalEnd() <= drop { return [ext]; }
      if ext.logical >= drop {
        assert ext.Holds(ext.physical) && ext.Holds(ext.PhysicalEnd() - 1);
        FreeExtentPhysical(ext);
        return [];
      }
      var keepLen := drop - ext.logical;
      var dropLen := ext.length - keepLen;
      forall b: nat | InRange(ext.physical + keepLen, dropLen, b) ensures FreesBlock(ext, drop, MAX_LOGICAL, b) { }
      assert FreesBlock(ext, drop, MAX_LOGICAL, ext.physical + keepLen);
      assert FreesBlock(ext, drop, MAX_LOGICAL, ext.physical + keepLen + dropLen - 1);
      alloc.Free(ext.physical + keepLen, dropLen);
      return [Whole(ext.logical, ext.physical, keepLen)];
    }

    /** Shrink an uncompressed file to whole blocks; the tail of its last block is not cleared. */
    method CutBlocks(ino: nat, newSize: nat)
      requires Valid() && recordCache.None? && ino in inodes && !inodes[ino].kind.Inline? && !inodes[ino].UsesCompression()
      requires newSize < inodes[ino].size
      modifies this`inodes, this`owner, alloc`free
      ensures Valid() && recordCache.None? && ino in inodes && !inodes[ino].kind.Inline? && !inodes[ino].UsesCompression()
      ensures inodes[ino].size == newSize
      ensures SameExcept(codec, recordBlocks, old(Now()), Now(), ino)
      ensures Content(codec, recordBlocks, Now(), ino) == Content(codec, recordBlocks, old(Now()), ino)[..newSize]
      ensures old(Clean(codec, recordBlocks, Now(), ino)) ==>
        (Clean(codec, recordBlocks, Now(), ino) <==> TailZero(Content(codec, recordBlocks, old(Now()), ino), newSize))
      ensures BlocksStay(codec, recordBlocks, old(Now()), Now(), ino, newSize)
      ensures newSize == 0 ==> inodes[ino].extents == []
      ensures newSize == 0 ==> forall b: nat :: Covers(alloc.free, b) <==> Covers(old(alloc.free), b) || Owns(old(inodes)[ino].extents, b)
      ensures newSize <= INLINE_MAX ==> |inodes[ino].extents| <= 1
      ensures Conserved(old(alloc.free), old(owner), old(alloc.totalBlocks), alloc.free, owner, alloc.totalBlocks)
    {
      hide AllSound, Owning, Coalesced, Covers, Lossless, SameExcept, AllFlagged, Conserved, BlockCache.Valid,
        Sound, Content, Clean, Disk.Coherent, Owns, Release, Punched, RawByte, VisibleByte, Readable, PunchFreesBlock, TailZero;
      ghost var rb, s0 := recordBlocks, Now();
      var f := inodes[ino];
      OwnFile(codec, D(), rb, inodes, owner, alloc.free, alloc.firstData, alloc.totalBlocks, ino);
      UncompressedIsRaw(inodes, ino);
      RawFileBytes(codec, rb, s0, ino);
      var firstDrop := (newSize + 4095) / 4096;
      var kept := CutExtents(f.extents, firstDrop);
      var g := f.(extents := kept, size := newSize);
      PunchKeepsAs(codec, D(), rb, inodes, owner, old(alloc.free), alloc.free, alloc.firstData, alloc.totalBlocks, ino, firstDrop, MAX_LOGICAL, g);
      owner := Release(owner, ino, kept);
      inodes := inodes[ino := g];
      CutRaw(f, g, D(), rb, firstDrop, MAX_LOGICAL, 0);
      FlagsKeepRaw(s0.inodes, inodes, ino);
      BecameInline(codec, rb, s0, Now(), ino);
      OwnFile(codec, D(), rb, inodes, owner, alloc.free, alloc.firstData, alloc.totalBlocks, ino);
      RawFileBytes(codec, rb, Now(), ino);
      CutRawContent(codec, rb, s0, Now(), ino, firstDrop, MAX_LOGICAL);
      if newSize <= INLINE_MAX { FirstBlockOnly(f.extents, kept, firstDrop, MAX_LOGICAL, rb); }
      if newSize == 0 { CutToNothing(f.extents, MAX_LOGICAL, rb); }
    }

    /** A short file that is down to one extent goes back into its inode. */
    method TryInline(ino: nat)
      requires Valid() && recordCache.None? && ino in inodes
      modifies this`inodes, this`owner, this`recordCache, alloc, cache, image
      ensures Valid() && recordCache.None? && ino in inodes
      ensures SameExcept(codec, recordBlocks, old(Now()), Now(), ino)
      ensures inodes[ino].UsesCompression() == old(inodes)[ino].UsesCompression()
      ensures Content(codec, recordBlocks, Now(), ino) == Content(codec, recordBlocks, old(Now()), ino)
      ensures old(Clean(codec, recordBlocks, Now(), ino)) ==> Clean(codec, recordBlocks, Now(), ino)
      ensures old(inodes)[ino].size <= INLINE_MAX && |old(inodes)[ino].extents| <= 1 ==>
        inodes[ino].kind.Inline? && Clean(codec, recordBlocks, Now(), ino)
      ensures old(inodes)[ino].size > INLINE_MAX ==> Now() == old(Now())
      ensures old(inodes)[ino].size == 0 && old(inodes)[ino].extents == [] ==>
        && EmptyInline(inodes[ino]) && D() == old(D()) && alloc.totalBlocks == old(alloc.totalBlocks)
        && forall b: nat :: Covers(alloc.free, b) <==> Covers(old(alloc.free), b)
      ensures Conserved(old(alloc.free), old(owner), old(alloc.totalBlocks), alloc.free, owner, alloc.totalBlocks)
    {
      hide AllSound, Owning, Coalesced, Covers, Lossless, SameExcept, SameAll, AllFlagged, Conserved, BlockCache.Valid,
        FileSound, Content, Clean, Disk.Coherent, CacheOk;
      ghost var rb, s0 := recordBlocks, Now();
      ConservedSelf(alloc.free, owner, alloc.totalBlocks);
      SameExceptSelf(codec, rb, s0, ino);
      var newSize := inodes[ino].size;
      if newSize <= INLINE_MAX && |inodes[ino].extents| <= 1 {
        var tmp := ReadData(ino, 0, newSize);
        ghost var s1, free1, owner1, total1 := Now(), alloc.free, owner, alloc.totalBlocks;
        FlushRecordCache();
        ConservedTransitive(old(alloc.free), old(owner), old(alloc.totalBlocks), free1, owner1, total1, alloc.free, owner, alloc.totalBlocks);
        ghost var s2, free2, owner2, total2 := Now(), alloc.free, owner, alloc.totalBlocks;
        SameAllTransitive(codec, rb, s0, s1, s2);
        SameAllExcept(codec, rb, s0, s2, ino);
        WholeSlice(Content(codec, rb, s0, ino));
        BecomeInline(ino, tmp.value);
        ConservedTransitive(old(alloc.free), old(owner), old(alloc.totalBlocks), free2, owner2, total2, alloc.free, owner, alloc.totalBlocks);
        SameExceptTransitive(codec, rb, s0, s2, Now(), ino);
      }
    }

    /** The part of `truncate_data` after the record cache is empty and the size is known to change. */
    method SetSize(ino: nat, newSize: nat)
      requires Valid() && recordCache.None? && ino in inodes && newSize <= MAX_FILE_SIZE && newSize != inodes[ino].size
      modifies this`inodes, this`owner, this`recordCache, alloc, cache, image
      ensures Valid() && ino in inodes
      ensures SameExcept(codec, recordBlocks, old(Now()), Now(), ino)
      ensures Truncated(codec, recordBlocks, old(Now()), Now(), ino, newSize)
      ensures recordCache.None?
      ensures newSize == 0 ==>
        && EmptyInline(inodes[ino]) && D() == old(D()) && alloc.totalBlocks == old(alloc.totalBlocks)
        && forall b: nat :: Covers(alloc.free, b) <==> Covers(old(alloc.free), b) || Owns(old(inodes)[ino].extents, b)
      ensures Conserved(old(alloc.free), old(owner), old(alloc.totalBlocks), alloc.free, owner, alloc.totalBlocks)
    {
      hide AllSound, Owning, Coalesced, Covers, Lossless, SameExcept, AllFlagged, Conserved, BlockCache.Valid,
        FileSound, Content, Clean, Disk.Coherent, CacheOk, VisibleByte;
      ghost var rb, s0 := recordBlocks, Now();
      var f := inodes[ino];
      OwnFile(codec, D(), rb, inodes, owner, alloc.free, alloc.firstData, alloc.totalBlocks, ino);
      SoundFacts(codec, f, D(), rb);
      if f.kind.Inline? {
        InlineContent(codec, rb, s0, ino);
        var g := f.(inlineData := Resize(f.inlineData, newSize), size := newSize);
        ResizeFile(ino, g);
        InlineContent(codec, rb, Now(), ino);
      } else if newSize < f.size {
        if f.UsesCompression() {
          if newSize == 0 {
            BecomeInline(ino, []);
            return;
          }
          CutRecords(ino, newSize);
        } else {
          CutBlocks(ino, newSize);
        }
        ghost var s1, free1, owner1, total1 := Now(), alloc.free, owner, alloc.totalBlocks;
        TryInline(ino);
        ConservedTransitive(old(alloc.free), old(owner), old(alloc.totalBlocks), free1, owner1, total1, alloc.free, owner, alloc.totalBlocks);
        SameExceptTransitive(codec, rb, s0, s1, Now(), ino);
      } else {
        ResizeFile(ino, f.(size := newSize));
        ResizeBytes(codec, rb, s0, ino, newSize);
        GrownContent(codec, rb, s0, Now(), ino, newSize);
      }
    }

    /** Change a file's size and inline bytes, and not its extents. */
    method ResizeFile(ino: nat, g: Inode)
      requires Valid() && recordCache.None? && ino in inodes && g.size <= MAX_FILE_SIZE
      requires g == inodes[ino].(size := g.size, inlineData := g.inlineData) && (g.kind.Inline? ==> |g.inlineData| == g.size)
      modifies this`inodes
      ensures Valid() && inodes == old(inodes)[ino := g]
      ensures SameExcept(codec, recordBlocks, old(Now()), Now(), ino)
      ensures Conserved(old(alloc.free), old(owner), old(alloc.totalBlocks), alloc.free, owner, alloc.totalBlocks)
    {
      hide AllSound, Owning, Coalesced, Covers, Lossless, SameExcept, AllFlagged, Conserved, BlockCache.Valid,
        Disk.Coherent, Sound, Readable;
      ghost var s0 := Now();
      OwnFile(codec, D(), recordBlocks, inodes, owner, alloc.free, alloc.firstData, alloc.totalBlocks, ino);
      AttributesKeep(codec, D(), recordBlocks, inodes, owner, alloc.free, alloc.firstData, alloc.totalBlocks, ino, g);
      FlagsKeep(inodes, ino, g);
      inodes := inodes[ino := g];
      BecameInline(codec, recordBlocks, s0, Now(), ino);
      ConservedSelf(alloc.free, owner, alloc.totalBlocks);
    }

    /** Cut or extend a file to `newSize` bytes. */
    method TruncateData(ino: nat, newSize: nat) returns (r: Result<()>)
      requires Valid()
      modifies this`inodes, this`owner, this`recordCache, alloc, cache, image
      ensures Valid()
      ensures r == if !writable then Err(EROFS) else if newSize > MAX_FILE_SIZE then Err(EFBIG)
                   else if ino !in old(inodes) then Err(EIO) else Ok(())
      ensures r.Err? ==> SameAll(codec, recordBlocks, old(Now()), Now())
      ensures SameExcept(codec, recordBlocks, old(Now()), Now(), ino)
      ensures r.Ok? ==> ino in old(inodes) && ino in inodes && Truncated(codec, recordBlocks, old(Now()), Now(), ino, newSize)
      ensures r.Ok? ==> recordCache.None?
      ensures r.Ok? && newSize == old(inodes)[ino].size && !old(Caches(recordCache, ino)) ==> inodes[ino] == old(inodes)[ino]
      ensures r.Ok? && newSize == old(inodes)[ino].size && old(recordCache).None? ==> Now() == old(Now()) && Ledger() == old(Ledger())
      // Cutting to nothing takes every block from the file and clears none of them.
      ensures r.Ok? && newSize == 0 < old(inodes)[ino].size ==> EmptyInline(inodes[ino])
      ensures r.Ok? && newSize == 0 < old(inodes)[ino].size && old(recordCache).None? ==>
        && D() == old(D()) && alloc.totalBlocks == old(alloc.totalBlocks)
        && forall b: nat :: Covers(alloc.free, b) <==> Covers(old(alloc.free), b) || Owns(old(inodes)[ino].extents, b)
      ensures Conserved(old(alloc.free), old(owner), old(alloc.totalBlocks), alloc.free, owner, alloc.totalBlocks)
    {
      hide AllSound, Owning, Coalesced, Covers, Lossless, SameExcept, SameFile, AllFlagged, Conserved, BlockCache.Valid,
        FileSound, Content, Clean, Disk.Coherent, CacheOk, Truncated;
      ghost var rb, s0 := recordBlocks, Now();
      ConservedSelf(alloc.free, owner, alloc.totalBlocks);
      SameAllSelf(codec, rb, s0);
      SameAllExcept(codec, rb, s0, s0, ino);
      if !writable { return Err(EROFS); }
      if newSize > MAX_FILE_SIZE { return Err(EFBIG); }
      FlushRecordCache();
      SameAllExcept(codec, rb, s0, Now(), ino);
      if ino !in inodes { return Err(EIO); }
      ghost var s1, free1, owner1, total1 := Now(), alloc.free, owner, alloc.totalBlocks;
      if newSize == inodes[ino].size {
        SameTruncated(codec, rb, s1, ino);
      } else {
        SetSize(ino, newSize);
        ConservedTransitive(old(alloc.free), old(owner), old(alloc.totalBlocks), free1, owner1, total1, alloc.free, owner, alloc.totalBlocks);
        SameExceptTransitive(codec, rb, s0, s1, Now(), ino);
      }
      TruncatedFrom(codec, rb, s0, s1, Now(), ino, newSize);
      return Ok(());
    }

    // --- files come and go, change regime, and move ------------------------------------------------

    /** A new inode: empty, inline, with the file system's compression setting. */
    method NewFile(ino: nat, compression: Compression)
      requires Valid() && ino !in inodes
      modifies this`inodes
      ensures Valid() && inodes == old(inodes)[ino := Inode(0, Inline, AsU8(compression), false, [], [])]
      ensures Content(codec, recordBlocks, Now(), ino) == [] && Clean(codec, recordBlocks, Now(), ino)
      ensures forall j: nat :: j in old(inodes) ==> SameFile(codec, recordBlocks, old(Now()), Now(), j)
    {
      hide Coalesced, Covers, Lossless, BlockCache.Valid, Disk.Coherent, Content, Clean, StoredByte, Mirrors, Unpack;
      ghost var s0 := Now();
      var f := Inode(0, Inline, AsU8(compression), false, [], []);
      NewFileKeeps(codec, D(), recordBlocks, inodes, owner, alloc.free, alloc.firstData, alloc.totalBlocks, ino, f);
      inodes := inodes[ino := f];
      InlineContent(codec, recordBlocks, Now(), ino);
    }

    /** Forget the cached record if it belongs to this file, stored or not. */
    method InvalidateRecordCache(ino: nat)
      requires Valid()
      modifies this`recordCache
      ensures Valid() && recordCache == if old(Caches(recordCache, ino)) then None else old(recordCache)
      ensures SameExcept(codec, recordBlocks, old(Now()), Now(), ino)
    {
      hide AllSound, Owning, Coalesced, Lossless, AllFlagged, BlockCache.Valid, Disk.Coherent, Mirrors, StoredByte;
      if recordCache.Some? && recordCache.value.ino == ino { recordCache := None; }
    }

    /**
      A file goes away for good: all its blocks are free, no other block is, and no other file reads differently.
    */
    method DropFile(ino: nat) returns (r: Result<()>)
      requires Valid() && (ino in inodes && inodes[ino].size == 0 ==> inodes[ino].extents == [])
      modifies this`inodes, this`owner, this`recordCache, alloc, cache, image
      ensures Valid()
      ensures r == if ino !in old(inodes) then Err(EIO) else if !writable then Err(EROFS) else Ok(())
      ensures r.Err? ==> SameExcept(codec, recordBlocks, old(Now()), Now(), ino)
      ensures r.Ok? ==> inodes.Keys == old(inodes).Keys - {ino}
      ensures r.Ok? ==> forall j: nat :: j in inodes ==> SameFile(codec, recordBlocks, old(Now()), Now(), j)
      ensures Conserved(old(alloc.free), old(owner), old(alloc.totalBlocks), alloc.free, owner, alloc.totalBlocks)
      ensures r.Ok? && (old(recordCache).None? || old(Caches(recordCache, ino))) ==>
        forall b: nat :: Covers(alloc.free, b) <==> Covers(old(alloc.free), b) || Owns(old(inodes)[ino].extents, b)
    {
      hide AllSound, Owning, Coalesced, Covers, Lossless, SameExcept, SameFile, AllFlagged, Conserved, BlockCache.Valid,
        FileSound, Content, Clean, Disk.Coherent, Truncated, Mirrors, Owns;
      ghost var rb, s0 := recordBlocks, Now();
      ConservedSelf(alloc.free, owner, alloc.totalBlocks);
      InvalidateRecordCache(ino);
      ghost var s1, free0 := Now(), alloc.free;
      if ino !in inodes { return Err(EIO); }
      var cut := TruncateData(ino, 0);
      SameExceptTransitive(codec, rb, s0, s1, Now(), ino);
      if cut.Err? { return cut; }
      ghost var s2 := Now();
      forall b: nat ensures !Owns(inodes[ino].extents, b) { NoneOwns(b); }
      if s1.inodes[ino].size == 0 {
        forall b: nat ensures !Owns(s0.inodes[ino].extents, b) { NoneOwns(b); }
      }
      RemovedKeeps(codec, D(), rb, inodes, owner, alloc.free, alloc.firstData, alloc.totalBlocks, ino);
      inodes := inodes - {ino};
      RemovedSame(codec, rb, s0, s2, Now(), ino);
      return Ok(());
    }

    /** Change the algorithm for future writes. */
    method SetInodeCompression(ino: nat, compression: Compression) returns (r: Result<()>)
      requires Valid()
      modifies this`inodes, this`owner, this`recordCache, alloc, cache, image
      ensures Valid()
      ensures r == if !writable then Err(EROFS) else if ino !in old(inodes) then Err(EIO) else Ok(())
      ensures SameExcept(codec, recordBlocks, old(Now()), Now(), ino)
      ensures ino in old(inodes) ==> ino in inodes
      ensures ino in old(inodes) ==>
        && Content(codec, recordBlocks, Now(), ino) == Content(codec, recordBlocks, old(Now()), ino)
        && (Clean(codec, recordBlocks, Now(), ino) <==> old(Clean(codec, recordBlocks, Now(), ino)))
      ensures !writable ==> Now() == old(Now())
      // The setting is the one asked for; the mark that there may be packed records is never taken away.
      ensures r.Ok? ==> inodes[ino].compression == AsU8(compression)
      ensures r.Ok? && (old(inodes)[ino].flagCompressed || compression.Lz4?) ==> inodes[ino].flagCompressed
      ensures r.Ok? && compression.Lz4? ==> inodes[ino].UsesCompression()
      ensures Conserved(old(alloc.free), old(owner), old(alloc.totalBlocks), alloc.free, owner, alloc.totalBlocks)
    {
      hide AllSound, Owning, Coalesced, Covers, Lossless, SameExcept, SameFile, AllFlagged, Conserved, BlockCache.Valid,
        FileSound, Content, Clean, Disk.Coherent, CacheOk, Sound;
      ghost var rb, s0 := recordBlocks, Now();
      ConservedSelf(alloc.free, owner, alloc.totalBlocks);
      SameAllSelf(codec, rb, s0);
      SameAllExcept(codec, rb, s0, s0, ino);
      if !writable { return Err(EROFS); }
      FlushRecordCache();
      ghost var s1 := Now();
      SameAllExcept(codec, rb, s0, s1, ino);
      if ino !in inodes { return Err(EIO); }
      FlagKept(codec, rb, s0, s1, ino);
      var g := inodes[ino].(compression := AsU8(compression), flagCompressed := inodes[ino].flagCompressed || compression.Lz4?);
      OwnFile(codec, D(), rb, inodes, owner, alloc.free, alloc.firstData, alloc.totalBlocks, ino);
      SoundFacts(codec, inodes[ino], D(), rb);
      AttributesKeep(codec, D(), rb, inodes, owner, alloc.free, alloc.firstData, alloc.totalBlocks, ino, g);
      FlagsKeep(inodes, ino, g);
      inodes := inodes[ino := g];
      NoCache(codec, rb, Now());
      BecameInline(codec, rb, s1, Now(), ino);
      SameExceptTransitive(codec, rb, s0, s1, Now(), ino);
      RegimeBytes(codec, rb, s1, Now(), ino);
      return Ok(());
    }

    /** Cut the free tail of the image and forget the cached blocks past it, as `flush_all` ends. */
    method ShrinkTail()
      requires Valid()
      modifies alloc, cache, image
      ensures Valid() && SameAll(codec, recordBlocks, old(Now()), Now())
      // It shrinks exactly when the last free run reaches the end and is longer than the slack it keeps.
      ensures var tail := old(alloc.free) != map[] && LongTail(old(alloc.free), old(alloc.totalBlocks));
        alloc.totalBlocks == if tail then MaxKey(old(alloc.free).Keys) + SHRINK_SLACK_BLOCKS else old(alloc.totalBlocks)
      ensures forall b: nat :: Covers(alloc.free, b) <==> Covers(old(alloc.free), b) && b < alloc.totalBlocks
      ensures alloc.totalBlocks < old(alloc.totalBlocks) ==> |image.data| <= alloc.totalBlocks * 4096
    {
      hide AllSound, Coalesced, Covers, Lossless, AllFlagged, SameAll, CacheOk, LongTail, Owns;
      ghost var rb, s0, total0 := recordBlocks, Now(), alloc.totalBlocks;
      var shrunk := alloc.MaybeShrink(image);
      cache.DropFrom(alloc.totalBlocks);
      ShrinkOwning(inodes, owner, old(alloc.free), alloc.free, alloc.firstData, total0, alloc.totalBlocks);
      TailGone(codec, rb, s0, Now(), owner, alloc.free, alloc.firstData, alloc.totalBlocks);
    }

    /**
      Carry out any sequence of operations on any files, and collect what the reads return. `files` are the
      plain contents of some files that use compression and are clean, and of those created compressed on
      the way: these behave as plain byte sequences, whatever happens to the others.
    */
    method Run(steps: seq<Step>, ghost files: Files) returns (answers: seq<seq<byte>>)
      requires Valid() && Shows(codec, recordBlocks, Now(), files)
      modifies this`inodes, this`owner, this`recordCache, alloc, cache, image
      ensures Valid() && Shows(codec, recordBlocks, Now(), ApplyAll(writable, files, steps))
      ensures Answered(answers, AnswerAll(writable, files, steps))
      ensures Conserved(old(alloc.free), old(owner), old(alloc.totalBlocks), alloc.free, owner, alloc.totalBlocks)
    {
      hide AllSound, Owning, Coalesced, Covers, Lossless, SameExcept, SameAll, AllFlagged, Conserved, BlockCache.Valid,
        FileSound, Disk.Coherent, CacheOk, Shows;
      ConservedSelf(alloc.free, owner, alloc.totalBlocks);
      answers := [];
      for k := 0 to |steps|
        invariant Valid() && Shows(codec, recordBlocks, Now(), ApplyAll(writable, files, steps[..k]))
        invariant Answered(answers, AnswerAll(writable, files, steps[..k]))
        invariant Conserved(old(alloc.free), old(owner), old(alloc.totalBlocks), alloc.free, owner, alloc.totalBlocks)
      {
        ghost var free1, owner1, total1 := alloc.free, owner, alloc.totalBlocks;
        var answer := RunStep(steps[k], ApplyAll(writable, files, steps[..k]));
        answers := answers + [answer];
        ConservedTransitive(old(alloc.free), old(owner), old(alloc.totalBlocks), free1, owner1, total1, alloc.free, owner, alloc.totalBlocks);
        assert steps[..k + 1][..k] == steps[..k] && steps[..k + 1][k] == steps[k];
      }
      assert steps[..|steps|] == steps;
    }

    method RunStep(step: Step, ghost files: Files) returns (answer: seq<byte>)
      requires Valid() && Shows(codec, recordBlocks, Now(), files)
      modifies this`inodes, this`owner, this`recordCache, alloc, cache, image
      ensures Valid() && Shows(codec, recordBlocks, Now(), Apply(writable, files, step))
      ensures Answer(files, step).Some? ==> answer == Answer(files, step).value
      ensures Conserved(old(alloc.free), old(owner), old(alloc.totalBlocks), alloc.free, owner, alloc.totalBlocks)
    {
      hide AllSound, Owning, Coalesced, Covers, Lossless, SameExcept, SameAll, AllFlagged, Conserved, BlockCache.Valid,
        FileSound, Disk.Coherent, CacheOk, Content, Clean, Shows, SameFile;
      ghost var rb, s0 := recordBlocks, Now();
      ConservedSelf(alloc.free, owner, alloc.totalBlocks);
      ShowsKeys(codec, rb, s0, files);
      answer := [];
      match step {
        case Write(ino, offset, buf) =>
          if ino in inodes { KeptFile(codec, rb, s0, files, ino); }
          var r := WriteData(ino, offset, buf);
          if ino !in files.bytes {
            ShowsOther(codec, rb, s0, Now(), files, ino);
          } else if r.Ok? && buf != [] {
            ShowsChanged(codec, rb, s0, Now(), files, ino, Overwrite(Content(codec, rb, s0, ino), offset, buf));
          }
        case Truncate(ino, size) =>
          if ino in inodes { KeptFile(codec, rb, s0, files, ino); }
          var r := TruncateData(ino, size);
          if ino !in files.bytes {
            ShowsOther(codec, rb, s0, Now(), files, ino);
          } else if r.Ok? {
            CutKept(codec, rb, s0, Now(), ino, size);
            ShowsChanged(codec, rb, s0, Now(), files, ino, Resize(Content(codec, rb, s0, ino), size));
          } else {
            ShowsSame(codec, rb, s0, Now(), files);
          }
        case Read(ino, offset, len) =>
          if ino in inodes { KeptFile(codec, rb, s0, files, ino); }
          var r := ReadData(ino, offset, len);
          if r.Ok? { answer := r.value; }
          ShowsSame(codec, rb, s0, Now(), files);
        case Flush =>
          FlushRecordCache();
          ShowsSame(codec, rb, s0, Now(), files);
        case Create(ino, compression) =>
          if writable && ino !in inodes {
            NewFile(ino, compression);
            ShowsNew(codec, rb, s0, Now(), files, ino, compression.Lz4?);
          }
        case SetCompression(ino, compression) =>
          if ino in inodes { KeptFile(codec, rb, s0, files, ino); }
          var r := SetInodeCompression(ino, compression);
          if ino !in files.bytes {
            ShowsOther(codec, rb, s0, Now(), files, ino);
          } else if r.Ok? && compression.Lz4? {
            assert files.bytes[ino := Content(codec, rb, s0, ino)] == files.bytes;
            ShowsChanged(codec, rb, s0, Now(), files, ino, Content(codec, rb, s0, ino));
          } else if r.Ok? {
            ShowsFewer(codec, rb, s0, files, ino);
            ShowsOther(codec, rb, s0, Now(), files.(bytes := files.bytes - {ino}), ino);
          }
      }
    }
  }
}
