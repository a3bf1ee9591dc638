/** How a directory's entries are stored as file bytes (src/inner.rs). */
module DirCodec {
  import opened Wrappers
  import opened Format
  import opened Tree
  import Namespace
  import opened Ownership
  import opened FileView
  import opened FileWrites
  import opened FileCuts
  import FileData
  import Compress

  type DirEntry = Namespace.DirEntry

  const DIR_MAGIC: seq<byte> := [68, 73, 82, 49]

  function DirFt(ft: FileType): byte {
    match ft
    case File => 1
    case Directory => 2
    case CharDevice => 3
    case BlockDevice => 4
    case Fifo => 5
    case Socket => 6
    case Symlink => 7
  }

  function FromDirFt(v: byte): FileType {
    if v == 2 then Directory else if v == 3 then CharDevice else if v == 4 then BlockDevice
    else if v == 5 then Fifo else if v == 6 then Socket else if v == 7 then Symlink else File
  }

  lemma FtRoundTrip(ft: FileType)
    ensures FromDirFt(DirFt(ft)) == ft
  {
  }

  function Pad(n: nat): nat { (4 - n % 4) % 4 }

  function EntryBytes(e: DirEntry): (r: seq<byte>)
    ensures |r| == 12 + |e.name| + Pad(|e.name|)
  {
    U64Bytes(e.ino) + U16Bytes(|e.name|) + [DirFt(e.ft), 0] + e.name + Zeros(Pad(|e.name|))
  }

  function EntriesBytes(es: seq<DirEntry>): seq<byte> {
    if es == [] then [] else EntryBytes(es[0]) + EntriesBytes(es[1..])
  }

  function Encoded(es: seq<DirEntry>): seq<byte> { DIR_MAGIC + U32Bytes(|es|) + EntriesBytes(es) }

  function DecodedEntries(buf: seq<byte>, off: nat, n: nat, done: seq<DirEntry>): Result<seq<DirEntry>>
    decreases n
  {
    if n == 0 then Ok(done)
    else if off + 12 > |buf| then Err(EIO)
    else
      var len := GetU16(buf, off + 8);
      if off + 12 + len > |buf| then Err(EIO)
      else
        var e := Namespace.DirEntry(GetU64(buf, off), FromDirFt(buf[off + 10]), buf[off + 12..off + 12 + len]);
        DecodedEntries(buf, off + 12 + len + Pad(len), n - 1, done + [e])
  }

  /** An empty file is an empty directory. */
  function Decoded(buf: seq<byte>): Result<seq<DirEntry>> {
    if buf == [] then Ok([])
    else if |buf| < 8 || buf[0..4] != DIR_MAGIC then Err(EIO)
    else DecodedEntries(buf, 8, GetU32(buf, 4), [])
  }

  method EncodeDir(es: seq<DirEntry>) returns (buf: seq<byte>)
    ensures buf == Encoded(es)
  {
    hide EntryBytes, LeBytes;
    buf := DIR_MAGIC;
    buf := buf + U32Bytes(|es|);
    ghost var head := buf;
    for i := 0 to |es|
      invariant buf + EntriesBytes(es[i..]) == head + EntriesBytes(es)
    {
      var e := es[i];
      ghost var was := buf;
      buf := buf + U64Bytes(e.ino);
      buf := buf + U16Bytes(|e.name|);
      buf := buf + [DirFt(e.ft), 0];
      buf := buf + e.name;
      buf := buf + Zeros(Pad(|e.name|));
      EntryAppended(was, e);
      assert es[i..][1..] == es[i + 1..];
      assert was + (EntryBytes(e) + EntriesBytes(es[i + 1..])) == was + EntryBytes(e) + EntriesBytes(es[i + 1..]);
    }
    assert es[|es|..] == [] && buf + [] == buf;
  }

  lemma EntryAppended(buf: seq<byte>, e: DirEntry)
    ensures buf + U64Bytes(e.ino) + U16Bytes(|e.name|) + [DirFt(e.ft), 0] + e.name + Zeros(Pad(|e.name|)) == buf + EntryBytes(e)
  {
    hide LeBytes;
  }

  method DecodeDir(buf: seq<byte>) returns (r: Result<seq<DirEntry>>)
    ensures r == Decoded(buf)
  {
    hide LeNat, GetU16, GetU64, FromDirFt;
    if buf == [] { return Ok([]); }
    if |buf| < 8 || buf[0..4] != DIR_MAGIC { return Err(EIO); }
    var n := GetU32(buf, 4);
    var off := 8;
    var out: seq<DirEntry> := [];
    var i := 0;
    while i < n
      invariant i <= n && off >= 8
      invariant DecodedEntries(buf, 8, n, []) == DecodedEntries(buf, off, n - i, out)
    {
      if off + 12 > |buf| { return Err(EIO); }
      var ino, nlen, ft := GetU64(buf, off), GetU16(buf, off + 8), FromDirFt(buf[off + 10]);
      off := off + 12;
      if off + nlen > |buf| { return Err(EIO); }
      var name := buf[off..off + nlen];
      off := off + nlen + Pad(nlen);
      out := out + [Namespace.DirEntry(ino, ft, name)];
      i := i + 1;
    }
    return Ok(out);
  }

  /** The widths of an entry: a u64 inode number and a u16 name length. */
  predicate Fits(e: DirEntry) { e.ino < U64 && |e.name| < U16 }

  lemma EntryReadBack(buf: seq<byte>, off: nat, e: DirEntry)
    requires At(buf, off, EntryBytes(e)) && Fits(e)
    ensures off + 12 + |e.name| <= |buf| && GetU64(buf, off) == e.ino && GetU16(buf, off + 8) == |e.name|
    ensures buf[off + 10] == DirFt(e.ft) && buf[off + 12..off + 12 + |e.name|] == e.name
  {
    hide LeBytes, LeNat;
    var a, b, c := U64Bytes(e.ino), U16Bytes(|e.name|), [DirFt(e.ft), 0];
    AtConcat(buf, off, a + b + c + e.name, Zeros(Pad(|e.name|)));
    AtConcat(buf, off, a + b + c, e.name);
    AtConcat(buf, off, a + b, c);
    AtConcat(buf, off, a, b);
    U64At(buf, off, e.ino);
    U16At(buf, off + 8, |e.name|);
    assert buf[off + 10] == buf[off + 10..off + 12][0];
  }

  lemma {:induction false} EntriesReadBack(buf: seq<byte>, off: nat, es: seq<DirEntry>, done: seq<DirEntry>)
    requires At(buf, off, EntriesBytes(es)) && forall e :: e in es ==> Fits(e)
    ensures DecodedEntries(buf, off, |es|, done) == Ok(done + es)
    decreases |es|
  {
    hide GetU16, GetU64, EntryBytes, At;
    if es == [] {
      assert done + es == done;
    } else {
      var e := es[0];
      AtConcat(buf, off, EntryBytes(e), EntriesBytes(es[1..]));
      EntryReadBack(buf, off, e);
      FtRoundTrip(e.ft);
      EntriesReadBack(buf, off + |EntryBytes(e)|, es[1..], done + [e]);
      assert done + [e] + es[1..] == done + es;
    }
  }

  /** Decoding undoes encoding, for any list of entries that fit their fields. */
  lemma DirRoundTrip(es: seq<DirEntry>)
    requires |es| < U32 && forall e :: e in es ==> Fits(e)
    ensures Decoded(Encoded(es)) == Ok(es)
  {
    hide LeBytes, LeNat, EntriesBytes, DecodedEntries;
    var buf := Encoded(es);
    assert At(buf, 0, buf) by { assert buf[0..|buf|] == buf; }
    AtConcat(buf, 0, DIR_MAGIC + U32Bytes(|es|), EntriesBytes(es));
    AtConcat(buf, 0, DIR_MAGIC, U32Bytes(|es|));
    U32At(buf, 4, |es|);
    EntriesReadBack(buf, 8, es, []);
    assert [] + es == es;
  }

  // --- a directory is a file -------------------------------------------------------------------------

  /** Replace the bytes of directory `ino` by these entries: cut it to nothing, then write. */
  method WriteDirEntries(fs: FileData.Inner, ino: nat, es: seq<DirEntry>) returns (r: Result<()>)
    requires fs.Valid()
    modifies fs`inodes, fs`owner, fs`recordCache, fs.alloc, fs.cache, fs.image
    ensures fs.Valid()
    ensures r == if !fs.writable then Err(EROFS) else if ino !in old(fs.inodes) then Err(EIO)
                 else if |Encoded(es)| > MAX_FILE_SIZE then Err(EFBIG) else Ok(())
    ensures r.Ok? ==> ino in fs.inodes && Content(fs.codec, fs.recordBlocks, fs.Now(), ino) == Encoded(es)
    // Entries too long for a file leave the directory without any.
    ensures r == Err(EFBIG) ==> ino in fs.inodes && Content(fs.codec, fs.recordBlocks, fs.Now(), ino) == []
    ensures r.Err? && r != Err(EFBIG) ==> SameAll(fs.codec, fs.recordBlocks, old(fs.Now()), fs.Now())
    ensures SameExcept(fs.codec, fs.recordBlocks, old(fs.Now()), fs.Now(), ino)
  {
    hide EntriesBytes, Content, SameExcept, FileData.Inner.Valid, Conserved;
    SomeRecordSize(fs);
    ghost var s0 := fs.Now();
    var raw := EncodeDir(es);
    r := fs.TruncateData(ino, 0);
    if r.Err? { return; }
    ghost var s1 := fs.Now();
    Emptied(fs.codec, fs.recordBlocks, s0, s1, ino);
    var w := fs.WriteData(ino, 0, raw);
    SameExceptTransitive(fs.codec, fs.recordBlocks, s0, s1, fs.Now(), ino);
    if w.Err? { return Err(w.error); }
    LandedOnNothing(Content(fs.codec, fs.recordBlocks, fs.Now(), ino), raw);
    return Ok(());
  }

  lemma SomeRecordSize(fs: FileData.Inner)
    requires fs.Valid()
    ensures fs.recordBlocks > 0
  {
  }

  lemma Emptied(codec: Compress.Codec, rb: nat, a: Snap, b: Snap, ino: nat)
    requires rb > 0 && ino in a.inodes && ino in b.inodes && Truncated(codec, rb, a, b, ino, 0)
    ensures Content(codec, rb, b, ino) == []
  {
  }

  lemma LandedOnNothing(e: seq<byte>, raw: seq<byte>)
    requires Landed([], e, 0, raw)
    ensures e == raw
  {
    assert e[0..|raw|] == e;
  }

  /** The entries of directory `ino`. */
  method ParseDir(fs: FileData.Inner, ino: nat) returns (r: Result<seq<DirEntry>>)
    requires fs.Valid()
    modifies fs`inodes, fs`owner, fs`recordCache, fs.alloc, fs.cache, fs.image
    ensures fs.Valid() && SameAll(fs.codec, fs.recordBlocks, old(fs.Now()), fs.Now())
    ensures ino !in old(fs.inodes) ==> r == Err(EIO)
    ensures ino in old(fs.inodes) ==> r == Decoded(Content(fs.codec, fs.recordBlocks, old(fs.Now()), ino))
  {
    hide Decoded, Content, SameAll, FileData.Inner.Valid, Conserved;
    if ino !in fs.inodes {
      SameAllSelf(fs.codec, fs.recordBlocks, fs.Now());
      return Err(EIO);
    }
    SomeRecordSize(fs);
    ghost var c := Content(fs.codec, fs.recordBlocks, fs.Now(), ino);
    var raw := fs.ReadData(ino, 0, fs.inodes[ino].size);
    WholeFile(c);
    r := DecodeDir(raw.value);
  }

  lemma WholeFile(c: seq<byte>)
    ensures SliceOf(c, 0, |c|) == c
  {
  }

  /** A directory that was written parses to the entries that were written. */
  method WriteThenParse(fs: FileData.Inner, ino: nat, es: seq<DirEntry>) returns (r: Result<seq<DirEntry>>)
    requires fs.Valid() && fs.writable && ino in fs.inodes
    requires |Encoded(es)| <= MAX_FILE_SIZE && |es| < U32 && forall e :: e in es ==> Fits(e)
    modifies fs`inodes, fs`owner, fs`recordCache, fs.alloc, fs.cache, fs.image
    ensures fs.Valid() && r == Ok(es)
  {
    hide Encoded, Decoded, Content, SameAll, SameExcept, FileData.Inner.Valid;
    var w := WriteDirEntries(fs, ino, es);
    r := ParseDir(fs, ino);
    DirRoundTrip(es);
  }
}
