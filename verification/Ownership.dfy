/**
  A file's inode in memory, and which file owns which physical block: every block is free, owned by one
  file, or set aside, and storing, punching and freeing move blocks between these without losing any.
*/
module Ownership {
  import opened Wrappers
  import opened Format
  import opened Store
  import opened Cache
  import opened Alloc
  import opened Compress
  import opened Extents
  import opened Records

  datatype DataKind = Inline | Direct | Tree

  datatype Inode = Inode(size: nat, kind: DataKind, compression: byte, flagCompressed: bool,
                         inlineData: seq<byte>, extents: seq<Extent>) {
    predicate UsesCompression() { compression != 0 || flagCompressed }
  }

  function KindFor(exts: seq<Extent>): (kind: DataKind)
    ensures !kind.Inline? && (kind.Tree? <==> |exts| > 6)
  {
    if |exts| > MAX_DIRECT_EXTENTS then Tree else Direct
  }

  datatype RecordCache = RecordCache(ino: nat, rec: nat, data: seq<byte>, dirty: bool)

  /** No extent reaches past this block: the largest file, rounded up to a record of the largest size. */
  const MAX_LOGICAL: nat := 4294967328

  // --- one file ---------------------------------------------------------------------

  ghost predicate FileSound(codec: Codec, f: Inode, d: Disk, rb: nat)
    requires rb > 0
  {
    && f.size <= MAX_FILE_SIZE
    && Sound(f.extents, rb)
    && Readable(codec, f.extents, d)
    && (forall e :: e in f.extents ==> e.LogicalEnd() <= MAX_LOGICAL)
    && (f.kind.Inline? ==> f.extents == [] && |f.inlineData| == f.size)
  }

  lemma FileSoundSame(codec: Codec, f: Inode, d: Disk, c: Disk, rb: nat)
    requires rb > 0 && FileSound(codec, f, d, rb) && AgreeOn(f.extents, d, c)
    ensures FileSound(codec, f, c, rb)
  {
    ReadableSame(codec, f.extents, d, c, rb);
  }

  ghost predicate AllSound(codec: Codec, inodes: map<nat, Inode>, d: Disk, rb: nat)
    requires rb > 0
  {
    forall i: nat :: i in inodes ==> FileSound(codec, inodes[i], d, rb)
  }

  lemma AllSoundUpdate(codec: Codec, inodes: map<nat, Inode>, d: Disk, rb: nat, ino: nat, f: Inode)
    requires rb > 0 && AllSound(codec, inodes, d, rb) && FileSound(codec, f, d, rb)
    ensures AllSound(codec, inodes[ino := f], d, rb)
  {
    hide FileSound;
  }

  // --- block ownership ----------------------------------------------------------------

  /** `owner` names the one file that holds each block; no owned block is free, and all lie in the data area. */
  ghost predicate Owning(inodes: map<nat, Inode>, owner: map<nat, nat>, free: Runs, first: nat, total: nat) {
    && (forall i: nat, b: nat :: i in inodes ==> (Owns(inodes[i].extents, b) <==> b in owner && owner[b] == i))
    && (forall b: nat :: b in owner ==> owner[b] in inodes && !Covers(free, b) && first <= b < total)
  }

  /** Free and owned blocks together change only by the growth of the image. */
  ghost predicate Conserved(free0: Runs, owner0: map<nat, nat>, total0: nat, free1: Runs, owner1: map<nat, nat>, total1: nat) {
    && total0 <= total1
    && forall b: nat :: Covers(free1, b) || b in owner1 <==> Covers(free0, b) || b in owner0 || total0 <= b < total1
  }

  lemma ConservedSelf(f0: Runs, o0: map<nat, nat>, t0: nat)
    ensures Conserved(f0, o0, t0, f0, o0, t0)
  {
  }

  lemma ConservedTransitive(f0: Runs, o0: map<nat, nat>, t0: nat, f1: Runs, o1: map<nat, nat>, t1: nat, f2: Runs,
          o2: map<nat, nat>, t2: nat)
    requires Conserved(f0, o0, t0, f1, o1, t1) && Conserved(f1, o1, t1, f2, o2, t2)
    ensures Conserved(f0, o0, t0, f2, o2, t2)
  {
  }

  /** The blocks of a run that has been allocated and is not yet anyone's. */
  ghost predicate InFlight(start: nat, len: nat, owner: map<nat, nat>, free: Runs, first: nat, total: nat) {
    forall b: nat :: InRange(start, len, b) ==> b !in owner && !Covers(free, b) && first <= b < total
  }

  lemma AllocatedInFlight(inodes: map<nat, Inode>, owner: map<nat, nat>, free0: Runs, first: nat, total0: nat,
                          free1: Runs, total1: nat, start: nat, want: nat)
    requires Owning(inodes, owner, free0, first, total0) && Took(free0, total0, free1, first, total1, start, want)
    ensures Owning(inodes, owner, free1, first, total1) && InFlight(start, want, owner, free1, first, total1)
  {
    forall b: nat | b in owner ensures !Covers(free1, b) { }
  }

  /** Distinct extents of a file free distinct blocks. */
  lemma PunchRunsApart(exts: seq<Extent>, rb: nat, k: nat, start: nat, end: nat, b: nat)
    requires rb > 0 && Sound(exts, rb) && k < |exts| && FreesBlock(exts[k], start, end, b)
    ensures !PunchFreesBlock(exts[..k], start, end, b)
    ensures Owns(exts, b)
  {
    FreedWasHeld(exts[k], start, end, rb, b);
    assert exts[k] in exts;
    if PunchFreesBlock(exts[..k], start, end, b) {
      var g :| g in exts[..k] && FreesBlock(g, start, end, b);
      var i :| 0 <= i < k && exts[i] == g;
      assert exts[i].LogicalEnd() <= exts[k].logical && SoundExtent(g, rb) && g != exts[k];
      assert Apart(g, exts[k]);
      FreedWasHeld(g, start, end, rb, b);
    }
  }

  lemma PunchFreesSnoc(exts: seq<Extent>, k: nat, start: nat, end: nat, b: nat)
    requires k < |exts|
    ensures PunchFreesBlock(exts[..k + 1], start, end, b) <==>
      PunchFreesBlock(exts[..k], start, end, b) || FreesBlock(exts[k], start, end, b)
  {
    assert exts[..k + 1] == exts[..k] + [exts[k]];
  }

  /** The ownership table without the blocks of file `ino` that its extents no longer hold. */
  ghost function Release(owner: map<nat, nat>, ino: nat, exts: seq<Extent>): (r: map<nat, nat>)
    ensures forall b: nat :: b in r <==> b in owner && (owner[b] == ino ==> Owns(exts, b))
    ensures forall b: nat :: b in r ==> r[b] == owner[b]
  {
    map b: nat | b in owner && (owner[b] != ino || Owns(exts, b)) :: owner[b]
  }

  /** What the invariants say of one file's extents and blocks. */
  lemma OwnFile(codec: Codec, d: Disk, rb: nat, inodes: map<nat, Inode>, owner: map<nat, nat>, free: Runs, first: nat,
          total: nat, ino: nat)
    requires rb > 0 && AllSound(codec, inodes, d, rb) && Owning(inodes, owner, free, first, total) && ino in inodes
    ensures FileSound(codec, inodes[ino], d, rb) && Sound(inodes[ino].extents, rb)
    ensures Release(owner, ino, inodes[ino].extents) == owner
    ensures forall b: nat :: Owns(inodes[ino].extents, b) ==> b in owner && !Covers(free, b) && first <= b < total
    ensures Conserved(free, owner, total, free, owner, total)
  {
    assert forall b: nat :: Owns(inodes[ino].extents, b) <==> b in owner && owner[b] == ino;
  }

  /** Ownership after some of file `ino`'s blocks went back to the free map. */
  lemma ReleasedOwning(inodes: map<nat, Inode>, owner: map<nat, nat>, free0: Runs, free1: Runs, first: nat, total: nat,
                       ino: nat, f: Inode, owner1: map<nat, nat>)
    requires Owning(inodes, owner, free0, first, total) && ino in inodes
    requires forall b: nat :: Owns(f.extents, b) ==> Owns(inodes[ino].extents, b)
    requires owner1 == Release(owner, ino, f.extents)
    requires forall b: nat :: Covers(free1, b) <==> Covers(free0, b) || (b in owner && b !in owner1)
    ensures Owning(inodes[ino := f], owner1, free1, first, total)
    ensures Conserved(free0, owner, total, free1, owner1, total)
  {
    hide Covers, Owns, Release;
    var after := inodes[ino := f];
    forall i: nat, b: nat | i in after ensures Owns(after[i].extents, b) <==> b in owner1 && owner1[b] == i {
      if i == ino { assert Owns(inodes[ino].extents, b) <==> b in owner && owner[b] == ino; }
      else { assert Owns(inodes[i].extents, b) <==> b in owner && owner[b] == i; }
    }
  }

  function Adopt(owner: map<nat, nat>, start: nat, len: nat, ino: nat): (r: map<nat, nat>)
    ensures forall b: nat :: b in r <==> b in owner || InRange(start, len, b)
    ensures forall b: nat :: b in r ==> r[b] == if InRange(start, len, b) then ino else owner[b]
  {
    if len == 0 then owner else Adopt(owner, start, len - 1, ino)[start + len - 1 := ino]
  }

  /** Ownership after file `ino` took over blocks that were in flight. */
  lemma AdoptedOwning(inodes: map<nat, Inode>, owner: map<nat, nat>, free: Runs, first: nat, total: nat,
                      ino: nat, f: Inode, e: Extent, owner1: map<nat, nat>)
    requires Owning(inodes, owner, free, first, total) && ino in inodes
    requires InFlight(e.physical, e.PhysLen(), owner, free, first, total)
    requires forall b: nat :: Owns(f.extents, b) <==> Owns(inodes[ino].extents, b) || e.Holds(b)
    requires forall b: nat :: b in owner1 <==> b in owner || e.Holds(b)
    requires forall b: nat :: b in owner1 ==> owner1[b] == if e.Holds(b) then ino else owner[b]
    ensures Owning(inodes[ino := f], owner1, free, first, total)
  {
    hide Covers, Owns;
    var after := inodes[ino := f];
    forall i: nat, b: nat | i in after ensures Owns(after[i].extents, b) <==> b in owner1 && owner1[b] == i {
      if i == ino { assert Owns(inodes[ino].extents, b) <==> b in owner && owner[b] == ino; }
      else { assert Owns(inodes[i].extents, b) <==> b in owner && owner[b] == i; }
      if e.Holds(b) { assert InRange(e.physical, e.PhysLen(), b); }
    }
    forall b: nat | b in owner1 ensures owner1[b] in after && !Covers(free, b) && first <= b < total {
      if e.Holds(b) { assert InRange(e.physical, e.PhysLen(), b); } else { assert b in owner; }
    }
  }

  lemma PunchFreesOwned(exts: seq<Extent>, rb: nat, start: nat, end: nat, b: nat)
    requires rb > 0 && Sound(exts, rb)
    ensures PunchFreesBlock(exts, start, end, b) ==> Owns(exts, b)
  {
    if PunchFreesBlock(exts, start, end, b) {
      var e :| e in exts && FreesBlock(e, start, end, b);
      FreedWasHeld(e, start, end, rb, b);
    }
  }

  /** What a punch frees is what the file stops owning. */
  lemma PunchReleases(inodes: map<nat, Inode>, owner: map<nat, nat>, free0: Runs, free1: Runs, first: nat, total: nat,
                      ino: nat, rb: nat, start: nat, end: nat, owner1: map<nat, nat>)
    requires rb > 0 && start < end && Owning(inodes, owner, free0, first, total) && ino in inodes && Sound(inodes[ino].extents, rb)
    requires owner1 == Release(owner, ino, Punched(inodes[ino].extents, start, end))
    requires forall b: nat :: Covers(free1, b) <==> Covers(free0, b) || PunchFreesBlock(inodes[ino].extents, start, end, b)
    ensures forall b: nat :: Owns(Punched(inodes[ino].extents, start, end), b) ==> Owns(inodes[ino].extents, b)
    ensures forall b: nat :: Covers(free1, b) <==> Covers(free0, b) || (b in owner && b !in owner1)
  {
    hide Covers, Owns, Punched, PunchFreesBlock, Sound;
    var exts := inodes[ino].extents;
    forall b: nat
      ensures Owns(Punched(exts, start, end), b) ==> Owns(exts, b)
      ensures Covers(free1, b) <==> Covers(free0, b) || (b in owner && b !in owner1)
    {
      PunchedOwns(exts, start, end, rb, b);
      PunchFreesOwned(exts, rb, start, end, b);
      assert Owns(inodes[ino].extents, b) <==> b in owner && owner[b] == ino;
    }
  }

  lemma PunchedFileSound(codec: Codec, f: Inode, d: Disk, rb: nat, start: nat, end: nat)
    requires rb > 0 && start < end && FileSound(codec, f, d, rb)
    ensures var kept := Punched(f.extents, start, end); FileSound(codec, f.(extents := kept, kind := KindFor(kept)), d, rb)
  {
    PunchedSound(f.extents, start, end, rb);
    PunchedReadable(codec, f.extents, d, rb, start, end);
    forall x | x in Punched(f.extents, start, end) ensures x.LogicalEnd() <= MAX_LOGICAL {
      var e :| e in f.extents && x in PunchOne(e, start, end);
      PieceOf(e, start, end, rb, x);
    }
  }

  /** Punching a range out of one file keeps every invariant and loses no block. */
  lemma PunchKeeps(codec: Codec, d: Disk, rb: nat, inodes: map<nat, Inode>, owner: map<nat, nat>, free0: Runs, free1: Runs,
                   first: nat, total: nat, ino: nat, start: nat, end: nat)
    requires rb > 0 && start < end && AllSound(codec, inodes, d, rb) && Owning(inodes, owner, free0, first, total)
    requires ino in inodes
    requires forall b: nat :: Covers(free1, b) <==> Covers(free0, b) || PunchFreesBlock(inodes[ino].extents, start, end, b)
    ensures var f := inodes[ino]; var kept := Punched(f.extents, start, end); var owner1 := Release(owner, ino, kept);
      var inodes1 := inodes[ino := f.(extents := kept, kind := KindFor(kept))];
      && SortByLogical(kept) == kept
      && AllSound(codec, inodes1, d, rb)
      && Owning(inodes1, owner1, free1, first, total)
      && Conserved(free0, owner, total, free1, owner1, total)
      && (forall b: nat :: Covers(free1, b) <==> Covers(free0, b) || (b in owner && b !in owner1))
  {
    var f := inodes[ino];
    assert FileSound(codec, f, d, rb);
    var kept := Punched(f.extents, start, end);
    PunchedSound(f.extents, start, end, rb);
    SortOrdered(kept);
    var f1 := f.(extents := kept, kind := KindFor(kept));
    PunchedFileSound(codec, f, d, rb, start, end);
    hide FileSound, AllSound, Owning, Conserved, Sound, Covers, Owns, Punched, Release;
    var owner1 := Release(owner, ino, kept);
    PunchReleases(inodes, owner, free0, free1, first, total, ino, rb, start, end, owner1);
    ReleasedOwning(inodes, owner, free0, free1, first, total, ino, f1, owner1);
    AllSoundUpdate(codec, inodes, d, rb, ino, f1);
  }

  lemma AddedFileSound(codec: Codec, f: Inode, d: Disk, rb: nat, e: Extent)
    requires rb > 0 && FileSound(codec, f, d, rb) && !f.kind.Inline? && Addable(f.extents, e, rb)
    requires e.LogicalEnd() <= MAX_LOGICAL && (e.IsCompressed() ==> RecordData(codec, d, e).Ok?)
    ensures var exts := Added(f.extents, e); FileSound(codec, f.(extents := exts, kind := KindFor(exts)), d, rb)
  {
    hide Unpack;
    var exts := Added(f.extents, e);
    AddedSound(f.extents, e, rb);
    AddedMembers(f.extents, e, rb);
    forall x | x in exts && x.IsCompressed() ensures RecordData(codec, d, x).Ok? { AddedPacked(f.extents, e, rb, x); }
  }

  /** Adding an extent on blocks in flight keeps every invariant. */
  lemma AddKeeps(codec: Codec, d: Disk, rb: nat, inodes: map<nat, Inode>, owner: map<nat, nat>, free: Runs,
                 first: nat, total: nat, ino: nat, e: Extent)
    requires rb > 0 && AllSound(codec, inodes, d, rb) && Owning(inodes, owner, free, first, total)
    requires ino in inodes && !inodes[ino].kind.Inline? && Addable(inodes[ino].extents, e, rb)
    requires InFlight(e.physical, e.PhysLen(), owner, free, first, total) && e.LogicalEnd() <= MAX_LOGICAL
    requires e.IsCompressed() ==> RecordData(codec, d, e).Ok?
    ensures var f := inodes[ino]; var exts := Added(f.extents, e);
      var inodes1 := inodes[ino := f.(extents := exts, kind := KindFor(exts))];
      && AllSound(codec, inodes1, d, rb)
      && Owning(inodes1, Adopt(owner, e.physical, e.PhysLen(), ino), free, first, total)
  {
    hide AllSound, Owning, Covers, Unpack;
    OwnFile(codec, d, rb, inodes, owner, free, first, total, ino);
    var f := inodes[ino];
    var exts := Added(f.extents, e);
    var f1 := f.(extents := exts, kind := KindFor(exts));
    AddedFileSound(codec, f, d, rb, e);
    AllSoundUpdate(codec, inodes, d, rb, ino, f1);
    forall b: nat ensures Owns(exts, b) <==> Owns(f.extents, b) || e.Holds(b) { AddedOwns(f.extents, e, rb, b); }
    AdoptedOwning(inodes, owner, free, first, total, ino, f1, e, Adopt(owner, e.physical, e.PhysLen(), ino));
  }

  /** Every file sees the same contents in its own blocks. */
  ghost predicate AllAgree(inodes: map<nat, Inode>, d: Disk, c: Disk) {
    forall i: nat :: i in inodes ==> AgreeOn(inodes[i].extents, d, c)
  }

  /** Writing only to blocks in flight disturbs no file. */
  lemma WriteKeeps(codec: Codec, d: Disk, c: Disk, rb: nat, inodes: map<nat, Inode>, owner: map<nat, nat>, free: Runs,
                   first: nat, total: nat, start: nat, len: nat)
    requires rb > 0 && AllSound(codec, inodes, d, rb) && Owning(inodes, owner, free, first, total)
    requires InFlight(start, len, owner, free, first, total)
    requires forall b: nat :: !InRange(start, len, b) ==> c.At(b) == d.At(b)
    ensures AllSound(codec, inodes, c, rb) && AllAgree(inodes, d, c)
  {
    hide FileSound;
    forall i: nat | i in inodes ensures AgreeOn(inodes[i].extents, d, c) && FileSound(codec, inodes[i], c, rb) {
      OwnFile(codec, d, rb, inodes, owner, free, first, total, i);
      FileSoundSame(codec, inodes[i], d, c, rb);
    }
  }

  lemma AllSoundSame(codec: Codec, d: Disk, c: Disk, rb: nat, inodes: map<nat, Inode>)
    requires rb > 0 && AllSound(codec, inodes, d, rb) && AllAgree(inodes, d, c)
    ensures AllSound(codec, inodes, c, rb)
  {
    hide FileSound;
    forall i: nat | i in inodes ensures FileSound(codec, inodes[i], c, rb) { FileSoundSame(codec, inodes[i], d, c, rb); }
  }

  /** Block `b` after the first `n` blocks of `data` were written from `phys` on. */
  function Overlay(d: Disk, phys: nat, n: nat, data: seq<byte>, b: nat): Block {
    if InRange(phys, n, b) then Chunk(data, b - phys) else d.At(b)
  }

  /** What was written block by block is what the new extent holds. */
  lemma PlacedHolds(codec: Codec, d: Disk, c: Disk, e: Extent, raw: seq<byte>, data: seq<byte>)
    requires e.PhysLen() > 0 && e.PhysLen() == BlocksFor(|raw|)
    requires forall b: nat :: c.At(b) == Overlay(d, e.physical, BlocksFor(|raw|), raw, b)
    requires if e.IsCompressed() then Unpack(codec, raw) == Ok(data) && |raw| == e.PhysLen() * 4096
             else raw == data && e.length == e.PhysLen()
    ensures HoldsData(codec, c, e, data) && (e.IsCompressed() ==> RecordData(codec, c, e).Ok?)
  {
    hide Unpack;
    if e.IsCompressed() {
      GatherChunks(c, e.physical, e.PhysLen(), raw);
      assert raw[..e.PhysLen() * 4096] == raw;
    }
  }

  lemma OwnedBelow(inodes: map<nat, Inode>, owner: map<nat, nat>, free: Runs, first: nat, total: nat)
    requires Owning(inodes, owner, free, first, total)
    ensures forall b: nat :: b in owner ==> b < total
  {
  }

  lemma FitsRecord(exts: seq<Extent>, rb: nat, rec: nat, e: Extent, owner: map<nat, nat>, free: Runs, first: nat,
          total: nat)
    requires rb > 0 && Sound(exts, rb) && InFlight(e.physical, e.PhysLen(), owner, free, first, total)
    requires forall b: nat :: Owns(exts, b) ==> b in owner
    requires e.logical == RecStart(rb, rec) && 0 < e.length <= rb && e.physLength > 0 && (e.IsCompressed() || e.physLength == e.length)
    ensures Replaceable(exts, rb, rec, e)
  {
    hide Sound, Owns;
    RecStartAligned(rb, rec);
    forall b: nat | e.Holds(b) ensures !Owns(exts, b) { assert InRange(e.physical, e.PhysLen(), b); }
  }

  /** A record moved to new blocks: the old ones are free, the new ones owned, and none is lost. */
  lemma PlaceConserves(free0: Runs, owner0: map<nat, nat>, total0: nat, free1: Runs, first: nat, total: nat, start: nat, want: nat,
                       owner1: map<nat, nat>, free2: Runs, ino: nat)
    requires Took(free0, total0, free1, first, total, start, want)
    requires forall b: nat :: b in owner1 ==> b in owner0
    requires forall b: nat :: Covers(free2, b) <==> Covers(free1, b) || (b in owner0 && b !in owner1)
    requires forall b: nat :: b in owner0 ==> b < total0
    ensures Conserved(free0, owner0, total0, free2, Adopt(owner1, start, want, ino), total)
  {
    hide Coalesced, Covers;
  }

  lemma StillInFlight(start: nat, len: nat, owner0: map<nat, nat>, free1: Runs, first: nat, total: nat,
          owner1: map<nat, nat>, free2: Runs)
    requires InFlight(start, len, owner0, free1, first, total)
    requires forall b: nat :: b in owner1 ==> b in owner0
    requires forall b: nat :: Covers(free2, b) <==> Covers(free1, b) || (b in owner0 && b !in owner1)
    ensures InFlight(start, len, owner1, free2, first, total)
  {
    hide Covers;
  }
}
