/** Where each field lies on disk, and what any bytes are read as: the formats by their offsets alone. */
module FormatLaws {
  import opened Wrappers
  import opened Format
  import opened Store
  import opened Cache
  import opened Crc
  import opened Extents
  import opened Tree
  import opened Layout
  import Ownership
  import Namespace
  import Alloc
  import DirCodec
  import AllocSnapshot
  import ExtentTree

  // --- directories -------------------------------------------------------------------------------------

  type DirEntry = Namespace.DirEntry

  /** The code byte of a type; a code that is none of them reads as a file. */
  predicate Codes(v: nat, ft: FileType) {
    match ft
    case File => v < 2 || v > 7
    case Directory => v == 2
    case CharDevice => v == 3
    case BlockDevice => v == 4
    case Fifo => v == 5
    case Socket => v == 6
    case Symlink => v == 7
  }

  /** At `off`: the inode number, the length of the name, the code, a byte that is not read, and the name. */
  predicate EntryLies(buf: seq<byte>, off: nat, e: DirEntry) {
    && off + 12 + |e.name| <= |buf| && GetU64(buf, off) == e.ino && GetU16(buf, off + 8) == |e.name|
    && Codes(buf[off + 10], e.ft) && buf[off + 12..off + 12 + |e.name|] == e.name
  }

  /** The next entry starts at a multiple of four. */
  function AfterEntry(off: nat, e: DirEntry): nat { off + 12 + (|e.name| + 3) / 4 * 4 }

  predicate EntriesLie(buf: seq<byte>, off: nat, es: seq<DirEntry>)
    decreases |es|
  {
    es == [] || (EntryLies(buf, off, es[0]) && EntriesLie(buf, AfterEntry(off, es[0]), es[1..]))
  }

  function AfterEntries(off: nat, es: seq<DirEntry>): nat
    decreases |es|
  {
    if es == [] then off else AfterEntries(AfterEntry(off, es[0]), es[1..])
  }

  lemma CodesIff(v: byte, ft: FileType)
    ensures DirCodec.FromDirFt(v) == ft <==> Codes(v, ft)
  {
  }

  /** The entry that decoding takes at `off`, if there is room for it. */
  lemma EntryTaken(buf: seq<byte>, off: nat, e: DirEntry)
    ensures EntryLies(buf, off, e) <==> (
      off + 12 <= |buf| && off + 12 + GetU16(buf, off + 8) <= |buf|
      && e == Namespace.DirEntry(GetU64(buf, off), DirCodec.FromDirFt(buf[off + 10]), buf[off + 12..off + 12 + GetU16(buf, off + 8)]))
  {
    hide GetU16, GetU64, DirCodec.FromDirFt, Codes;
    if off + 12 <= |buf| { CodesIff(buf[off + 10], e.ft); }
  }

  lemma {:induction false} DecodedMore(buf: seq<byte>, off: nat, n: nat, done: seq<DirEntry>)
    ensures DirCodec.DecodedEntries(buf, off, n, done).Err? ==> DirCodec.DecodedEntries(buf, off, n, done) == Err(EIO)
    ensures DirCodec.DecodedEntries(buf, off, n, done).Ok? ==> (
      var all := DirCodec.DecodedEntries(buf, off, n, done).value; |all| == |done| + n && done <= all)
    decreases n
  {
    hide GetU16, GetU64, DirCodec.FromDirFt;
    if n > 0 && off + 12 <= |buf| {
      var len := GetU16(buf, off + 8);
      if off + 12 + len <= |buf| {
        var e := Namespace.DirEntry(GetU64(buf, off), DirCodec.FromDirFt(buf[off + 10]), buf[off + 12..off + 12 + len]);
        DecodedMore(buf, off + 12 + len + DirCodec.Pad(len), n - 1, done + [e]);
      }
    }
  }

  lemma {:induction false} EntriesIff(buf: seq<byte>, off: nat, n: nat, done: seq<DirEntry>, es: seq<DirEntry>)
    ensures DirCodec.DecodedEntries(buf, off, n, done) == Ok(done + es) <==> |es| == n && EntriesLie(buf, off, es)
    decreases n
  {
    hide GetU16, GetU64, DirCodec.FromDirFt, EntryLies, AfterEntry, DirCodec.Pad;
    DecodedMore(buf, off, n, done);
    if n == 0 {
      assert es == [] ==> done + es == done;
    } else if |es| == n {
      EntryTaken(buf, off, es[0]);
      if off + 12 <= |buf| && off + 12 + GetU16(buf, off + 8) <= |buf| {
        var len := GetU16(buf, off + 8);
        var e := Namespace.DirEntry(GetU64(buf, off), DirCodec.FromDirFt(buf[off + 10]), buf[off + 12..off + 12 + len]);
        EntryTaken(buf, off, e);
        Rounded(off, e);
        DecodedMore(buf, AfterEntry(off, e), n - 1, done + [e]);
        EntriesIff(buf, AfterEntry(off, e), n - 1, done + [e], es[1..]);
        if e == es[0] {
          assert done + [e] + es[1..] == done + es;
        } else {
          Diverge(done, e, es);
        }
      }
    }
  }

  lemma Diverge(done: seq<DirEntry>, e: DirEntry, es: seq<DirEntry>)
    requires es != [] && e != es[0]
    ensures !(done + [e] <= done + es)
  {
    assert (done + es)[|done|] != (done + [e])[|done|];
  }

  lemma Rounded(off: nat, e: DirEntry)
    ensures AfterEntry(off, e) == off + 12 + |e.name| + DirCodec.Pad(|e.name|)
  {
  }

  /** Any bytes: a directory file is read as exactly the entries that lie in it, or not at all. */
  lemma DirIff(buf: seq<byte>, es: seq<DirEntry>)
    ensures DirCodec.Decoded(buf) == Ok(es) <==>
      if buf == [] then es == []
      else |buf| >= 8 && buf[0..4] == [68, 73, 82, 49] && GetU32(buf, 4) == |es| && EntriesLie(buf, 8, es)
    ensures DirCodec.Decoded(buf).Err? ==> DirCodec.Decoded(buf) == Err(EIO)
  {
    hide GetU32, DirCodec.DecodedEntries, EntriesLie;
    if |buf| >= 8 {
      EntriesIff(buf, 8, GetU32(buf, 4), [], es);
      DecodedMore(buf, 8, GetU32(buf, 4), []);
      assert [] + es == es;
    }
  }

  lemma {:induction false} EntriesEnd(off: nat, es: seq<DirEntry>)
    ensures AfterEntries(off, es) == off + |DirCodec.EntriesBytes(es)|
    decreases |es|
  {
    hide AfterEntry, DirCodec.Pad, DirCodec.EntryBytes;
    if es != [] {
      Rounded(off, es[0]);
      EntriesEnd(AfterEntry(off, es[0]), es[1..]);
    }
  }

  /** A written directory: the magic, the count, the entries one behind the other, and no more. */
  lemma DirLies(es: seq<DirEntry>)
    requires |es| < U32 && forall e :: e in es ==> DirCodec.Fits(e)
    ensures var buf := DirCodec.Encoded(es);
      && |buf| == AfterEntries(8, es) && buf[0..4] == [68, 73, 82, 49] && GetU32(buf, 4) == |es| && EntriesLie(buf, 8, es)
  {
    hide GetU32, DirCodec.Decoded, EntriesLie, LeBytes, DirCodec.EntriesBytes;
    DirCodec.DirRoundTrip(es);
    DirIff(DirCodec.Encoded(es), es);
    EntriesEnd(8, es);
  }

  // --- the allocator's snapshot ----------------------------------------------------------------------

  /** Record `i` of the `n` at `off` is the last of its start with blocks, and gives `len` from `start` on. */
  predicate LastOf(buf: seq<byte>, off: nat, n: nat, start: nat, len: nat, i: nat) {
    && i < n && off + 16 * n <= |buf|
    && GetU64(buf, off + 16 * i) == start && GetU64(buf, off + 16 * i + 8) == len > 0
    && forall j: nat :: i < j < n ==> NoRun(buf, off, j, start)
  }

  /** Record `j` is of another start, or empty. */
  predicate NoRun(buf: seq<byte>, off: nat, j: nat, start: nat) {
    off + 16 * j + 16 <= |buf| && (GetU64(buf, off + 16 * j) != start || GetU64(buf, off + 16 * j + 8) == 0)
  }

  ghost predicate Recorded(buf: seq<byte>, off: nat, n: nat, start: nat, len: nat) {
    exists i: nat :: LastOf(buf, off, n, start, len, i)
  }

  ghost predicate NoRuns(buf: seq<byte>, off: nat, n: nat, start: nat) { forall j: nat :: j < n ==> NoRun(buf, off, j, start) }

  predicate Free(free: Alloc.Runs, start: nat, len: nat) { start in free && free[start] == len }

  /** Record 0 and the `m` records from `next` on. */
  lemma NextLast(buf: seq<byte>, off: nat, next: nat, m: nat, start: nat, len: nat)
    requires next == off + 16 && next + 16 * m <= |buf|
    ensures Recorded(buf, off, m + 1, start, len) <==>
      Recorded(buf, next, m, start, len) || (GetU64(buf, off) == start && GetU64(buf, off + 8) == len > 0 && NoRuns(buf, next, m, start))
    ensures NoRuns(buf, off, m + 1, start) <==> NoRun(buf, off, 0, start) && NoRuns(buf, next, m, start)
  {
    hide GetU64;
    var n := m + 1;
    assert NoRuns(buf, next, m, start) <==> forall j: nat :: 0 < j < n ==> NoRun(buf, off, j, start) by {
      LaterRuns(buf, off, next, m, start, 0);
    }
    if i: nat :| LastOf(buf, next, m, start, len, i) {
      LastShift(buf, off, next, m, start, len, i);
      assert LastOf(buf, off, n, start, len, i + 1);
    }
    if NoRuns(buf, next, m, start) && GetU64(buf, off) == start && GetU64(buf, off + 8) == len > 0 {
      assert LastOf(buf, off, n, start, len, 0);
    }
    if i: nat :| LastOf(buf, off, n, start, len, i) && i > 0 {
      LastShift(buf, off, next, m, start, len, i - 1);
      assert LastOf(buf, next, m, start, len, i - 1);
    }
  }

  lemma LaterRuns(buf: seq<byte>, off: nat, next: nat, m: nat, start: nat, i: nat)
    requires next == off + 16
    ensures (forall j: nat :: i <= j < m ==> NoRun(buf, next, j, start)) <==> (forall j: nat :: i < j < m + 1 ==> NoRun(buf, off, j, start))
  {
    hide GetU64;
    if forall j: nat :: i < j < m + 1 ==> NoRun(buf, off, j, start) {
      forall j: nat | i <= j < m ensures NoRun(buf, next, j, start) { assert NoRun(buf, off, j + 1, start); }
    }
    if forall j: nat :: i <= j < m ==> NoRun(buf, next, j, start) {
      forall j: nat | i < j < m + 1 ensures NoRun(buf, off, j, start) { assert NoRun(buf, next, j - 1, start); }
    }
  }

  lemma LastShift(buf: seq<byte>, off: nat, next: nat, m: nat, start: nat, len: nat, i: nat)
    requires next == off + 16
    ensures LastOf(buf, next, m, start, len, i) <==> LastOf(buf, off, m + 1, start, len, i + 1)
  {
    hide GetU64, NoRun;
    LaterRuns(buf, off, next, m, start, i + 1);
  }

  lemma {:induction false} RunsAre(buf: seq<byte>, off: nat, n: nat, free: Alloc.Runs, start: nat, len: nat)
    ensures AllocSnapshot.DecodedRuns(buf, off, n, free) == Err(EIO) <==> n > 0 && off + 16 * n > |buf|
    ensures AllocSnapshot.DecodedRuns(buf, off, n, free).Err? ==> AllocSnapshot.DecodedRuns(buf, off, n, free) == Err(EIO)
    ensures AllocSnapshot.DecodedRuns(buf, off, n, free).Ok? ==> (
      Free(AllocSnapshot.DecodedRuns(buf, off, n, free).value, start, len) <==>
        Recorded(buf, off, n, start, len) || (Free(free, start, len) && NoRuns(buf, off, n, start)))
    decreases n
  {
    hide GetU64, Recorded, NoRuns;
    if n == 0 {
      NoRecords(buf, off, start, len);
    } else if off + 16 <= |buf| {
      var s, l := GetU64(buf, off), GetU64(buf, off + 8);
      RunsAre(buf, off + 16, n - 1, if l > 0 then free[s := l] else free, start, len);
      if off + 16 * n <= |buf| { NextLast(buf, off, off + 16, n - 1, start, len); }
    }
  }

  lemma NoRecords(buf: seq<byte>, off: nat, start: nat, len: nat)
    ensures !Recorded(buf, off, 0, start, len) && NoRuns(buf, off, 0, start)
  {
  }

  /** Any bytes: when a snapshot is refused, and otherwise the free runs it is read as. */
  lemma SnapshotIff(buf: seq<byte>)
    ensures AllocSnapshot.Decoded(buf) == Err(EIO) <==> |buf| < 24 || buf[0..4] != [76, 78, 88, 65] || 24 + 16 * GetU32(buf, 20) > |buf|
    ensures AllocSnapshot.Decoded(buf).Err? ==> AllocSnapshot.Decoded(buf) == Err(EIO)
    ensures AllocSnapshot.Decoded(buf).Ok? ==> (
      var s := AllocSnapshot.Decoded(buf).value;
      && s.first == GetU64(buf, 4) && s.total == GetU64(buf, 12)
      && forall start: nat, len: nat :: Free(s.free, start, len) <==> Recorded(buf, 24, GetU32(buf, 20), start, len))
  {
    hide GetU32, GetU64, Recorded, NoRuns, AllocSnapshot.DecodedRuns;
    if |buf| >= 24 {
      var n := GetU32(buf, 20);
      RunsAre(buf, 24, n, map[], 0, 0);
      var r := AllocSnapshot.DecodedRuns(buf, 24, n, map[]);
      forall start: nat, len: nat ensures r.Ok? ==> (Free(r.value, start, len) <==> Recorded(buf, 24, n, start, len)) {
        RunsAre(buf, 24, n, map[], start, len);
      }
    }
  }

  /** Block `i` of the `n` is read: none is after the first that no byte comes from. */
  predicate Reads(n: nat, len: nat, i: nat) { i < n && (i == 0 || (i - 1) * 4080 < len) }

  predicate Missing(data: seq<byte>, start: nat, n: nat, len: nat, i: nat) { Reads(n, len, i) && (start + i + 1) * 4096 > |data| }

  /** Byte `p` of a snapshot whose blocks are `start` to `start + n`: 4080 a block, the first behind its header. */
  function SnapByte(data: seq<byte>, start: nat, n: nat, p: nat): byte {
    if p < 4080 && n > 0 then BlockOf(data, start)[16 + p] else if p < 4080 * n then BlockOf(data, start + p / 4080)[p % 4080] else 0
  }

  lemma {:induction false} GatheredIs(data: seq<byte>, start: nat, n: nat, len: nat, i: nat, bytes: seq<byte>)
    requires |bytes| == len && i <= n && (i == 0 || (i - 1) * 4080 < len)
    requires forall p :: 0 <= p < len ==> bytes[p] == if p < i * 4080 then SnapByte(data, start, n, p) else 0
    ensures var r := AllocSnapshot.Gathered(data, start, n, len, i, bytes);
      && (r == Err(EIO) <==> exists k: nat :: i <= k && Missing(data, start, n, len, k)) && (r.Err? ==> r == Err(EIO))
      && (r.Ok? ==> |r.value| == len && forall p :: 0 <= p < len ==> r.value[p] == SnapByte(data, start, n, p))
    decreases n - i
  {
    hide BlockOf, Splice;
    if i < n {
      assert Reads(n, len, i);
      if (start + i + 1) * 4096 > |data| {
        assert Missing(data, start, n, len, i);
      } else if i * 4080 < len {
        var at, take, from := i * 4080, if len - i * 4080 < 4080 then len - i * 4080 else 4080, if i == 0 then 16 else 0;
        var part := BlockOf(data, start + i)[from..from + take];
        var next := Splice(bytes, at, part);
        forall p | 0 <= p < len ensures next[p] == if p < (i + 1) * 4080 then SnapByte(data, start, n, p) else 0 {
          if at <= p < at + take { InBlock(i, p); }
        }
        GatheredIs(data, start, n, len, i + 1, next);
        assert !Missing(data, start, n, len, i);
      } else {
        assert !Missing(data, start, n, len, i);
      }
    }
  }

  lemma InBlock(i: nat, p: nat)
    requires i * 4080 <= p < i * 4080 + 4080
    ensures p / 4080 == i && p % 4080 == p - i * 4080
  {
  }

  lemma PartOfPart(data: seq<byte>, at: nat, off: nat)
    requires at + 4096 <= |data| && off + 4 <= 4096
    ensures data[at..at + 4096][off..off + 4] == data[at + off..at + off + 4]
  {
    var a, b := data[at..at + 4096][off..off + 4], data[at + off..at + off + 4];
    forall k | 0 <= k < 4 ensures a[k] == b[k] { assert a[k] == data[at..at + 4096][off + k]; }
  }

  /** Any image: when a snapshot cannot be read at `start`, and otherwise the bytes that are decoded. */
  lemma SnapshotRead(data: seq<byte>, start: nat)
    ensures var r := AllocSnapshot.ReadAt(data, start);
      if start == 0 || (start + 1) * 4096 > |data| || data[start * 4096..start * 4096 + 4] != [65, 76, 78, 0] then r == Err(EIO)
      else
        var n, len := GetU32(data, start * 4096 + 4), GetU32(data, start * 4096 + 8);
        if exists k: nat :: Missing(data, start, n, len, k) then r == Err(EIO)
        else r == AllocSnapshot.Decoded(seq(len, p requires 0 <= p < len => SnapByte(data, start, n, p)))
  {
    hide AllocSnapshot.Decoded, AllocSnapshot.Gathered, Missing, SnapByte, LeNat;
    if start > 0 && (start + 1) * 4096 <= |data| {
      PartOfPart(data, start * 4096, 0);
      PartOfPart(data, start * 4096, 4);
      PartOfPart(data, start * 4096, 8);
      var n, len := GetU32(data, start * 4096 + 4), GetU32(data, start * 4096 + 8);
      GatheredIs(data, start, n, len, 0, Zeros(len));
      var r := AllocSnapshot.Gathered(data, start, n, len, 0, Zeros(len));
      if r.Ok? { assert r.value == seq(len, p requires 0 <= p < len => SnapByte(data, start, n, p)); }
    }
  }

  // --- extent trees ----------------------------------------------------------------------------------

  function Fewer(a: nat, b: nat): nat { if a < b then a else b }

  lemma {:induction false} ReadExtsAre(block: Block, off: nat, limit: nat)
    requires off <= 4096
    ensures |ExtentTree.ReadExts(block, off, limit)| == Fewer(limit, (4096 - off) / 20)
    ensures forall k: nat :: k < |ExtentTree.ReadExts(block, off, limit)| ==>
      off + 20 * k + 20 <= 4096 && ExtentTree.ReadExts(block, off, limit)[k] == ExtAt(block, off + 20 * k)
    decreases limit
  {
    hide ExtAt;
    if limit > 0 && off + 20 <= 4096 {
      ReadExtsAre(block, off + 20, limit - 1);
      var rest := ExtentTree.ReadExts(block, off + 20, limit - 1);
      var all := ExtentTree.ReadExts(block, off, limit);
      forall k: nat | k < |all| ensures off + 20 * k + 20 <= 4096 && all[k] == ExtAt(block, off + 20 * k) {
        if k > 0 { assert all[k] == rest[k - 1]; }
      }
    }
  }

  /** Extent `k` of a tree: 204 in each block, behind a header of 16 bytes in the first. */
  function TreeExtent(d: Disk, tree: nat, k: nat): Extent {
    ExtAt(d.At(tree + k / 204), k % 204 * 20 + if k < 204 then 16 else 0)
  }

  lemma {:induction false} ReadBlocksAre(d: Disk, tree: nat, n: nat, b: nat, remaining: nat)
    requires b <= n
    ensures |ExtentTree.ReadBlocks(d, tree, n, b, remaining)| == Fewer(remaining, 204 * (n - b))
    ensures forall k: nat :: k < |ExtentTree.ReadBlocks(d, tree, n, b, remaining)| ==>
      ExtentTree.ReadBlocks(d, tree, n, b, remaining)[k] == TreeExtent(d, tree, 204 * b + k)
    decreases n - b
  {
    hide ExtAt, ExtentTree.ReadExts, Disk.At;
    if b < n {
      var from := if b == 0 then 16 else 0;
      ReadExtsAre(d.At(tree + b), from, remaining);
      var part := ExtentTree.ReadExts(d.At(tree + b), from, remaining);
      ReadBlocksAre(d, tree, n, b + 1, remaining - |part|);
      var rest := ExtentTree.ReadBlocks(d, tree, n, b + 1, remaining - |part|);
      var all := ExtentTree.ReadBlocks(d, tree, n, b, remaining);
      assert all == part + rest;
      forall k: nat | k < |all| ensures all[k] == TreeExtent(d, tree, 204 * b + k) {
        if k < |part| {
          InTreeBlock(b, k);
        } else {
          assert |part| == 204 && all[k] == rest[k - 204];
        }
      }
    }
  }

  lemma InTreeBlock(b: nat, k: nat)
    requires k < 204
    ensures (204 * b + k) / 204 == b && (204 * b + k) % 204 == k
  {
  }

  /** Any blocks: how many extents a tree of either layout is read as, and which. */
  lemma TreeRead(d: Disk, tree: nat)
    ensures var first := d.At(tree); var es, count := ExtentTree.Loaded(d, tree), GetU32(first, 0);
      if first[8..12] == [69, 88, 84, 50] then
        var n := if GetU32(first, 4) == 0 then 1 else GetU32(first, 4);
        && ExtentTree.LoadedBlocks(d, tree) == n && |es| == Fewer(count, 204 * n)
        && forall k: nat :: k < |es| ==> es[k] == TreeExtent(d, tree, k)
      else
        && ExtentTree.LoadedBlocks(d, tree) == 1 && |es| == Fewer(count, 200)
        && forall k: nat :: k < |es| ==> 8 + 20 * k + 20 <= 4096 && es[k] == ExtAt(first, 8 + 20 * k)
  {
    hide ExtAt, LeNat, ExtentTree.ReadExts, ExtentTree.ReadBlocks, Disk.At;
    var first := d.At(tree);
    ReadBlocksAre(d, tree, ExtentTree.TreeBlocks(first), 0, GetU32(first, 0));
    ReadExtsAre(first, 8, Fewer(GetU32(first, 0), 200));
  }

  // --- the inode and the superblock ----------------------------------------------------------------------

  /** Seconds in two's complement, then nanoseconds. */
  predicate TimeLies(buf: seq<byte>, off: nat, t: Timespec) {
    && off + 12 <= |buf| && GetU32(buf, off + 8) == t.nsec
    && GetU64(buf, off) == (if t.sec < 0 then t.sec + 0x1_0000_0000_0000_0000 else t.sec)
    && -0x8000_0000_0000_0000 <= t.sec < 0x8000_0000_0000_0000
  }

  /** Extent `k` of those at `off`. */
  predicate ExtLies(buf: seq<byte>, off: nat, k: nat, e: Extent) {
    && off + 20 * k + 20 <= |buf|
    && e == Extent(GetU64(buf, off + 20 * k), GetU64(buf, off + 20 * k + 8), GetU32(buf, off + 20 * k + 16), 0, 0)
  }

  predicate ExtsLie(buf: seq<byte>, off: nat, es: seq<Extent>) { forall k: nat :: k < |es| ==> ExtLies(buf, off, k, es[k]) }

  predicate KindLies(v: nat, kind: DataKind) {
    match kind
    case Direct => v == 1
    case Tree => v == 2
    case Inline => v == 0 || v > 2
  }

  predicate NumbersLie(buf: seq<byte>, i: Inode)
    requires |buf| >= 256
  {
    && GetU16(buf, 0) == i.mode && GetU32(buf, 2) == i.nlink && GetU32(buf, 6) == i.uid && GetU32(buf, 10) == i.gid
    && GetU64(buf, 14) == i.size && GetU64(buf, 22) == i.blocks
    && GetU64(buf, 78) == i.rdev && GetU32(buf, 86) == i.flags && GetU32(buf, 90) == i.generation
    && KindLies(buf[94], i.kind) && buf[95] == i.compression && GetU64(buf, 96) == i.extentTree && GetU64(buf, 240) == i.xattrBlock
  }

  predicate TimesLie(buf: seq<byte>, i: Inode) {
    TimeLies(buf, 30, i.atime) && TimeLies(buf, 42, i.mtime) && TimeLies(buf, 54, i.ctime) && TimeLies(buf, 66, i.btime)
  }

  /** Inline bytes or extents, as many as the count says and there is room for. */
  predicate DataLies(buf: seq<byte>, i: Inode)
    requires |buf| >= 256
  {
    if i.kind.Inline? then
      i.extents == [] && |i.inlineData| == Fewer(GetU16(buf, 104), 128) && buf[106..106 + |i.inlineData|] == i.inlineData
    else i.inlineData == [] && |i.extents| == Fewer(GetU16(buf, 104), 6) && ExtsLie(buf, 106, i.extents)
  }

  lemma TimeIff(buf: seq<byte>, off: nat, t: Timespec)
    requires off + 12 <= |buf|
    ensures TimeAt(buf, off) == t <==> TimeLies(buf, off, t)
  {
    hide LeNat;
  }

  lemma ExtsLieNext(buf: seq<byte>, off: nat, next: nat, es: seq<Extent>)
    requires es != [] && next == off + 20
    ensures ExtsLie(buf, off, es) <==> ExtLies(buf, off, 0, es[0]) && ExtsLie(buf, next, es[1..])
  {
    hide GetU64, GetU32;
    var rest := es[1..];
    forall k: nat | k < |rest| ensures ExtLies(buf, next, k, rest[k]) == ExtLies(buf, off, k + 1, es[k + 1]) { }
    if ExtLies(buf, off, 0, es[0]) && ExtsLie(buf, next, rest) {
      forall k: nat | k < |es| ensures ExtLies(buf, off, k, es[k]) {
        if k > 0 { assert ExtLies(buf, next, k - 1, rest[k - 1]); }
      }
    }
  }

  lemma {:induction false} ExtsIff(buf: seq<byte>, off: nat, es: seq<Extent>)
    requires off + 20 * |es| <= |buf|
    ensures ExtsAt(buf, off, |es|) == es <==> ExtsLie(buf, off, es)
    decreases |es|
  {
    hide GetU64, GetU32, ExtsLie;
    if es == [] {
      NoExts(buf, off);
    } else {
      var rest := es[1..];
      ExtsLieNext(buf, off, off + 20, es);
      ExtsIff(buf, off + 20, rest);
      assert es == [es[0]] + rest;
    }
  }

  lemma NoExts(buf: seq<byte>, off: nat)
    ensures ExtsLie(buf, off, [])
  {
  }

  lemma KindIff(v: byte, kind: DataKind)
    ensures KindOf(v) == kind <==> KindLies(v, kind)
  {
  }

  /** Any bytes: an inode is read exactly when it is long enough, sealed and in use, and as the fields that lie in it. */
  lemma InodeIff(ino: nat, buf: seq<byte>, i: Inode)
    ensures DecodedInode(ino, buf) == Ok(i) <==> (
      && |buf| >= 256 && Crc32(buf[0..252]) == GetU32(buf, 252) && GetU16(buf, 0) != 0
      && i.ino == ino && NumbersLie(buf, i) && TimesLie(buf, i) && DataLies(buf, i))
    ensures DecodedInode(ino, buf).Err? ==> DecodedInode(ino, buf) == Err(EIO)
  {
    hide GetU64, GetU32, GetU16, TimeAt, TimeLies, ExtsAt, ExtsLie, KindOf, KindLies, Crc32;
    if |buf| >= 256 {
      TimeIff(buf, 30, i.atime);
      TimeIff(buf, 42, i.mtime);
      TimeIff(buf, 54, i.ctime);
      TimeIff(buf, 66, i.btime);
      KindIff(buf[94], i.kind);
      if |i.extents| <= 6 { ExtsIff(buf, 106, i.extents); }
    }
  }

  predicate SizesLie(buf: seq<byte>, s: Superblock)
    requires |buf| >= 4096
  {
    && GetU32(buf, 16) == s.journalBlocks && GetU32(buf, 20) == s.firstDataBlock && GetU64(buf, 24) == s.totalBlocks
    && GetU64(buf, 32) == s.inodeCount && GetU64(buf, 40) == s.freeInodeCount && GetU64(buf, 48) == s.nextInode
    && GetU64(buf, 56) == s.rootIno && GetU64(buf, 64) == s.generation && buf[72..88] == s.uuid && GetU64(buf, 88) == s.features
  }

  predicate MarksLie(buf: seq<byte>, s: Superblock)
    requires |buf| >= 4096
  {
    && TimeLies(buf, 96, s.mtime) && buf[108] == s.defaultCompression && buf[109] == s.recordBlocks
    && GetU64(buf, 112) == s.allocBlock && GetU64(buf, 120) == s.journalSeq && GetU32(buf, 128) == s.journalHead
    && GetU32(buf, 132) == s.journalTail && GetU64(buf, 136) == s.journalCommitted
    && |s.inodeTable| == Fewer(GetU32(buf, 144), 16) && ExtsLie(buf, 148, s.inodeTable)
  }

  /** Any bytes: a superblock is read exactly when it is sealed and of this format, and as the fields that lie in it. */
  lemma SuperIff(buf: seq<byte>, s: Superblock)
    ensures DecodedSuper(buf) == Ok(s) <==> (
      && |buf| >= 4096 && Crc32(buf[0..4092]) == GetU32(buf, 4092)
      && buf[0..8] == [76, 78, 88, 70, 73, 76, 69, 0] && GetU32(buf, 8) == 1 && GetU32(buf, 12) == 4096
      && SizesLie(buf, s) && MarksLie(buf, s))
    ensures DecodedSuper(buf).Err? ==> DecodedSuper(buf) == Err(EIO)
  {
    hide GetU64, GetU32, TimeAt, TimeLies, ExtsAt, ExtsLie, Crc32;
    if |buf| >= 4096 {
      TimeIff(buf, 96, s.mtime);
      if |s.inodeTable| <= 16 { ExtsIff(buf, 148, s.inodeTable); }
    }
  }
}
