/** The allocator's snapshot (src/alloc.rs): encoding, spreading over blocks, and reading back. */
module AllocSnapshot {
  import opened Wrappers
  import opened Format
  import opened Store
  import opened Alloc

  const MAGIC: seq<byte> := [76, 78, 88, 65]
  const BLOCK_MAGIC: seq<byte> := [65, 76, 78, 0]
  const PER: nat := 4080

  datatype Snapshot = Snapshot(free: Runs, first: nat, total: nat)

  // --- encoding ----------------------------------------------------------------------------

  /** The runs that start at `keys`, in ascending order. */
  function RunsBytes(free: Runs, keys: set<nat>): (r: seq<byte>)
    requires keys <= free.Keys
    ensures |r| == 16 * |keys|
  {
    if keys == {} then []
    else
      var k := MinKey(keys);
      U64Bytes(k) + U64Bytes(free[k]) + RunsBytes(free, keys - {k})
  }

  function Encoded(a: Snapshot): (r: seq<byte>)
    ensures |r| == 24 + 16 * |a.free|
  {
    MAGIC + U64Bytes(a.first) + U64Bytes(a.total) + U32Bytes(|a.free|) + RunsBytes(a.free, a.free.Keys)
  }

  function DecodedRuns(buf: seq<byte>, off: nat, n: nat, free: Runs): Result<Runs>
    decreases n
  {
    if n == 0 then Ok(free)
    else if off + 16 > |buf| then Err(EIO)
    else
      var start, len := GetU64(buf, off), GetU64(buf, off + 8);
      DecodedRuns(buf, off + 16, n - 1, if len > 0 then free[start := len] else free)
  }

  function Decoded(buf: seq<byte>): Result<Snapshot> {
    if |buf| < 24 || buf[0..4] != MAGIC then Err(EIO)
    else
      match DecodedRuns(buf, 24, GetU32(buf, 20), map[])
      case Err(e) => Err(e)
      case Ok(free) => Ok(Snapshot(free, GetU64(buf, 4), GetU64(buf, 12)))
  }

  method Encode(a: Snapshot) returns (buf: seq<byte>)
    ensures buf == Encoded(a)
  {
    hide RunsBytes, LeBytes;
    buf := MAGIC;
    buf := buf + U64Bytes(a.first);
    buf := buf + U64Bytes(a.total);
    buf := buf + U32Bytes(|a.free|);
    ghost var head := buf;
    var rest := a.free.Keys;
    while rest != {}
      invariant rest <= a.free.Keys
      invariant buf + RunsBytes(a.free, rest) == head + RunsBytes(a.free, a.free.Keys)
      decreases rest
    {
      var start: nat := MinKey(rest);
      NextRun(buf, a.free, rest);
      buf := buf + U64Bytes(start);
      buf := buf + U64Bytes(a.free[start]);
      rest := rest - {start};
    }
    NoRuns(a.free);
    assert buf + [] == buf;
  }

  lemma NextRun(buf: seq<byte>, free: Runs, keys: set<nat>)
    requires keys <= free.Keys && keys != {}
    ensures var k := MinKey(keys); buf + RunsBytes(free, keys) == buf + U64Bytes(k) + U64Bytes(free[k]) + RunsBytes(free, keys - {k})
  {
    hide LeBytes;
    var k := MinKey(keys);
    assert RunsBytes(free, keys) == U64Bytes(k) + U64Bytes(free[k]) + RunsBytes(free, keys - {k});
  }

  lemma NoRuns(free: Runs)
    ensures RunsBytes(free, {}) == []
  {
  }

  method Decode(buf: seq<byte>) returns (r: Result<Snapshot>)
    ensures r == Decoded(buf)
  {
    if |buf| < 24 || buf[0..4] != MAGIC { return Err(EIO); }
    var n := GetU32(buf, 20);
    var free: Runs := map[];
    var off := 24;
    var i := 0;
    while i < n
      invariant i <= n
      invariant DecodedRuns(buf, 24, n, map[]) == DecodedRuns(buf, off, n - i, free)
      invariant off >= 24
    {
      if off + 16 > |buf| { return Err(EIO); }
      var start, len := GetU64(buf, off), GetU64(buf, off + 8);
      if len > 0 { free := free[start := len]; }
      off := off + 16;
      i := i + 1;
    }
    return Ok(Snapshot(free, GetU64(buf, 4), GetU64(buf, 12)));
  }

  /** The widths of the encoding: u64 block numbers, and a u32 count of bytes. */
  predicate Narrow(a: Snapshot) {
    && a.first < U64 && a.total < U64 && 24 + 16 * |a.free| < U32
    && forall s :: s in a.free ==> s < U64 && 0 < a.free[s] < U64
  }

  function Only(free: Runs, keys: set<nat>): Runs
    requires keys <= free.Keys
  {
    map k | k in keys :: free[k]
  }

  lemma {:induction false} RunsReadBack(buf: seq<byte>, off: nat, free: Runs, keys: set<nat>, done: Runs)
    requires keys <= free.Keys && At(buf, off, RunsBytes(free, keys))
    requires forall s :: s in free ==> s < U64 && 0 < free[s] < U64
    ensures DecodedRuns(buf, off, |keys|, done) == Ok(done + Only(free, keys))
    decreases keys
  {
    hide LeBytes, GetU64;
    if keys == {} {
      assert done + Only(free, keys) == done;
    } else {
      var k := MinKey(keys);
      var rest := keys - {k};
      AtConcat(buf, off, U64Bytes(k) + U64Bytes(free[k]), RunsBytes(free, rest));
      AtConcat(buf, off, U64Bytes(k), U64Bytes(free[k]));
      U64At(buf, off, k);
      U64At(buf, off + 8, free[k]);
      RunsReadBack(buf, off + 16, free, rest, done[k := free[k]]);
      assert done[k := free[k]] + Only(free, rest) == done + Only(free, keys);
    }
  }

  /** Decoding undoes encoding. */
  lemma EncodeDecode(a: Snapshot)
    requires Narrow(a)
    ensures Decoded(Encoded(a)) == Ok(a)
  {
    hide LeNat, LeBytes, Encoded, At;
    assert At(Encoded(a), 0, Encoded(a)) by { AtSelf(Encoded(a)); }
    EncodedFields(Encoded(a), a);
    AllRuns(a.free);
  }

  lemma AtSlice(buf: seq<byte>, off: nat, part: seq<byte>)
    requires At(buf, off, part)
    ensures off + |part| <= |buf| && buf[off..off + |part|] == part
  {
  }

  lemma AtSelf(buf: seq<byte>)
    ensures At(buf, 0, buf)
  {
    assert buf[0..|buf|] == buf;
  }

  lemma AllRuns(free: Runs)
    ensures map[] + Only(free, free.Keys) == free
  {
  }

  lemma EncodedFields(buf: seq<byte>, a: Snapshot)
    requires Narrow(a) && At(buf, 0, Encoded(a))
    ensures |buf| >= 24 && buf[0..4] == MAGIC && GetU64(buf, 4) == a.first && GetU64(buf, 12) == a.total && GetU32(buf, 20) == |a.free|
    ensures DecodedRuns(buf, 24, |a.free|, map[]) == Ok(map[] + Only(a.free, a.free.Keys))
  {
    hide LeBytes, LeNat, RunsBytes, DecodedRuns, At, GetU32, GetU64;
    assert |a.free.Keys| == |a.free|;
    AtConcat(buf, 0, MAGIC + U64Bytes(a.first) + U64Bytes(a.total) + U32Bytes(|a.free|), RunsBytes(a.free, a.free.Keys));
    AtConcat(buf, 0, MAGIC + U64Bytes(a.first) + U64Bytes(a.total), U32Bytes(|a.free|));
    AtConcat(buf, 0, MAGIC + U64Bytes(a.first), U64Bytes(a.total));
    AtConcat(buf, 0, MAGIC, U64Bytes(a.first));
    U64Stands(buf, 4, a.first);
    U64Stands(buf, 12, a.total);
    U32Stands(buf, 20, |a.free|);
    assert |buf| >= 24 && buf[0..4] == MAGIC by { AtSlice(buf, 0, MAGIC); }
    RunsReadBack(buf, 24, a.free, a.free.Keys, map[]);
  }

  // --- spreading over blocks ---------------------------------------------------------------------

  /** Bytes `[4080 * i, 4080 * (i + 1))`, as far as there are that many. */
  function Chunk(bytes: seq<byte>, i: nat): (r: seq<byte>)
    ensures |r| <= PER
  {
    var lo := i * 4080;
    if lo >= |bytes| then [] else if lo + 4080 <= |bytes| then bytes[lo..lo + 4080] else bytes[lo..]
  }

  function Header(n: nat, len: nat): (r: seq<byte>)
    ensures |r| == 12
  {
    BLOCK_MAGIC + U32Bytes(n) + U32Bytes(len)
  }

  /** Block `i` of a snapshot of `n` blocks; the first holds a header before its bytes. */
  function SnapBlock(bytes: seq<byte>, n: nat, i: nat): Block {
    var c := Chunk(bytes, i);
    if i == 0 then Splice(Splice(Zeros(BLOCK_SIZE), 0, Header(n, |bytes|)), 16, c)
    else Splice(Zeros(BLOCK_SIZE), 0, c)
  }

  /** The blocks an earlier snapshot occupies, as its header tells. */
  function OldRun(data: seq<byte>, existing: nat): nat {
    if existing != 0 && (existing + 1) * 4096 <= |data| && BlockOf(data, existing)[0..4] == BLOCK_MAGIC then GetU32(BlockOf(data, existing), 4)
    else 0
  }

  function AtLeastOne(n: nat): (m: nat)
    ensures m > 0 && m >= n && (n > 0 ==> m == n)
  {
    if n < 1 then 1 else n
  }

  /** How many blocks `len` bytes and some slack need. */
  function SnapshotBlocks(len: nat): (n: nat)
    ensures n > 0 && len + 64 <= n * 4080 <= len + 64 + 4080
  {
    AtLeastOne((len + 64 + 4079) / 4080)
  }

  /** An allocation adds at most one run, so the estimate made before it suffices. */
  lemma OneMoreRun(free0: Runs, total0: nat, image0: seq<byte>, want: nat, start: nat, free1: Runs, total1: nat,
          image1: seq<byte>)
    requires Chosen(free0, total0, image0, want, start, free1, total1, image1)
    ensures |free1| <= |free0| + 1 && |free0| <= |free1| + 1
  {
    if Fits(free0, want) {
      MapLess(free0, start);
      MapMore(free0 - {start}, start + want, free0[start] - want);
    } else {
      MapMore(free0, start + want, total1 - (start + want));
    }
  }

  lemma MapLess(m: Runs, k: nat)
    ensures |m| - 1 <= |m - {k}| <= |m|
  {
    assert (m - {k}).Keys == m.Keys - {k};
  }

  lemma MapMore(m: Runs, k: nat, v: int)
    ensures v >= 0 ==> |m| <= |m[k := v]| <= |m| + 1
  {
    if v >= 0 { assert m[k := v].Keys == m.Keys + {k}; }
  }

  /** The snapshot blocks stand at `start`. */
  ghost predicate Spread(data: seq<byte>, start: nat, bytes: seq<byte>, n: nat) {
    forall i: nat :: i < n ==> Stands(data, start, bytes, n, i)
  }

  predicate Stands(data: seq<byte>, start: nat, bytes: seq<byte>, n: nat, i: nat) {
    (start + i + 1) * 4096 <= |data| && BlockOf(data, start + i) == SnapBlock(bytes, n, i)
  }

  /** Give back the blocks of an earlier snapshot. */
  method FreeOld(image: Image, alloc: Allocator, existing: nat)
    modifies alloc`free
    ensures alloc.free == Freed(old(alloc.free), existing, OldRun(image.data, existing))
    ensures old(alloc.Valid() && Freeable(alloc.free, alloc.firstData, alloc.totalBlocks, existing, OldRun(image.data, existing))) ==>
      alloc.Valid()
  {
    hide BlockOf, Covers, Coalesced, Freeable, Freed;
    if existing != 0 && (existing + 1) * 4096 <= image.Len() {
      var hdr := image.ReadBlock(existing);
      if hdr.value[0..4] == BLOCK_MAGIC {
        var oldN := GetU32(hdr.value, 4);
        if oldN > 0 { alloc.Free(existing, oldN); }
      }
    }
    NoFree(old(alloc.free), existing);
  }

  method WriteAllocBlocks(image: Image, alloc: Allocator, existing: nat) returns (start: nat)
    requires alloc.Valid() && image.Valid()
    // An earlier snapshot's blocks are in use.
    requires OldRun(image.data, existing) > 0 ==> alloc.firstData <= existing && existing + OldRun(image.data, existing) <= alloc.totalBlocks
    requires forall b: nat :: InRange(existing, OldRun(image.data, existing), b) ==> !Covers(alloc.free, b)
    modifies image, alloc
    ensures alloc.Valid() && image.Valid()
    ensures var a := Snapshot(alloc.free, alloc.firstData, alloc.totalBlocks);
      exists n: nat :: n > 0 && |Encoded(a)| <= n * 4080 && Spread(image.data, start, Encoded(a), n)
        // The snapshot shows its own blocks as used, and no others but the ones it gave up are affected.
        && (forall b: nat :: InRange(start, n, b) ==> !Covers(alloc.free, b))
        && Took(Freed(old(alloc.free), existing, OldRun(old(image.data), existing)), old(alloc.totalBlocks),
                alloc.free, alloc.firstData, alloc.totalBlocks, start, n)
        && (forall b: nat :: !InRange(start, n, b) ==> BlockOf(image.data, b) == BlockOf(old(image.data), b))
        // The next snapshot will take exactly these blocks for the ones to give back.
        && (alloc.firstData > 0 && Narrow(a) ==> OldRun(image.data, start) == n)
    // Reading it gives exactly the allocator left in memory.
    ensures var a := Snapshot(alloc.free, alloc.firstData, alloc.totalBlocks);
      alloc.firstData > 0 && Narrow(a) ==> ReadAt(image.data, start) == Ok(a)
  {
    hide ReadAt, Spread, Narrow, Encoded, BlockOf, OldRun, Freed, Took, Covers, Coalesced, SnapBlock, Chosen;
    FreeOld(image, alloc, existing);
    ghost var free0 := alloc.free;
    var before := Encode(Snapshot(alloc.free, alloc.firstData, alloc.totalBlocks));
    var n := SnapshotBlocks(|before|);
    ghost var image0 := image.data;
    var r := alloc.Allocate(image, n);
    start := r.value;
    OneMoreRun(free0, old(alloc.totalBlocks), image0, n, start, alloc.free, alloc.totalBlocks, image.data);
    var bytes := Encode(Snapshot(alloc.free, alloc.firstData, alloc.totalBlocks));
    assert |bytes| <= n * 4080;
    WriteChunks(image, start, bytes, n);
    OwnBlocksUsed(free0, old(alloc.totalBlocks), alloc.free, alloc.firstData, alloc.totalBlocks, start, n);
    if alloc.firstData > 0 && Narrow(Snapshot(alloc.free, alloc.firstData, alloc.totalBlocks)) {
      NarrowCount(Snapshot(alloc.free, alloc.firstData, alloc.totalBlocks));
      SnapshotReadBack(image.data, start, Snapshot(alloc.free, alloc.firstData, alloc.totalBlocks), n);
      OldRunBack(image.data, start, bytes, n);
    }
  }

  /** A snapshot's header tells how many blocks it takes. */
  lemma OldRunBack(data: seq<byte>, start: nat, bytes: seq<byte>, n: nat)
    requires start > 0 && 0 < n < U32 && |bytes| < U32 && Spread(data, start, bytes, n)
    ensures OldRun(data, start) == n
  {
    hide LeBytes, LeNat, BlockOf;
    assert Stands(data, start, bytes, n, 0) by { SpreadAt(data, start, bytes, n, 0); }
    HeaderBack(bytes, n);
  }

  lemma NarrowCount(a: Snapshot)
    requires Narrow(a)
    ensures 24 + 16 * |a.free| < U32
  {
  }

  lemma NoFree(free: Runs, start: nat)
    ensures Freed(free, start, 0) == free
  {
  }

  lemma OwnBlocksUsed(free0: Runs, total0: nat, free1: Runs, first: nat, total1: nat, start: nat, n: nat)
    requires Took(free0, total0, free1, first, total1, start, n)
    ensures (forall b: nat :: InRange(start, n, b) ==> !Covers(free1, b)) && first <= start
  {
  }

  method WriteChunks(image: Image, start: nat, bytes: seq<byte>, n: nat)
    requires image.Valid()
    modifies image
    ensures image.Valid() && Spread(image.data, start, bytes, n)
    ensures forall b: nat :: !InRange(start, n, b) ==> BlockOf(image.data, b) == BlockOf(old(image.data), b)
  {
    hide BlockOf, Splice;
    var i := 0;
    while i < n
      invariant i <= n && image.Valid()
      invariant forall j: nat :: j < i ==> Stands(image.data, start, bytes, n, j)
      invariant forall b: nat :: !InRange(start, i, b) ==> BlockOf(image.data, b) == BlockOf(old(image.data), b)
    {
      var blk := Zeros(BLOCK_SIZE);
      if i == 0 {
        blk := Splice(blk, 0, Header(n, |bytes|));
      }
      blk := Splice(blk, if i == 0 then 16 else 0, Chunk(bytes, i));
      ghost var was := image.data;
      image.WriteBlock(start + i, blk);
      forall j: nat | j <= i ensures Stands(image.data, start, bytes, n, j) {
        if j < i { assert Stands(was, start, bytes, n, j); }
      }
      i := i + 1;
    }
  }

  // --- reading back -------------------------------------------------------------------------------------

  /** The bytes gathered from block `i` on, into a buffer of `len` bytes. */
  function Gathered(data: seq<byte>, start: nat, n: nat, len: nat, i: nat, bytes: seq<byte>): (r: Result<seq<byte>>)
    requires i <= n && |bytes| == len
    decreases n - i
  {
    if i == n then Ok(bytes)
    else if (start + i + 1) * 4096 > |data| then Err(EIO)
    else
      var at := i * 4080;
      if at >= len then Ok(bytes)
      else
        var take := if len - at < 4080 then len - at else 4080;
        var from := if i == 0 then 16 else 0;
        Gathered(data, start, n, len, i + 1, Splice(bytes, at, BlockOf(data, start + i)[from..from + take]))
  }

  /** What reading a snapshot at `start` gives. */
  function ReadAt(data: seq<byte>, start: nat): Result<Snapshot> {
    if start == 0 || (start + 1) * 4096 > |data| || BlockOf(data, start)[0..4] != BLOCK_MAGIC then Err(EIO)
    else
      var n, len := GetU32(BlockOf(data, start), 4), GetU32(BlockOf(data, start), 8);
      match Gathered(data, start, n, len, 0, Zeros(len))
      case Err(e) => Err(e)
      case Ok(bytes) => Decoded(bytes)
  }

  method ReadAllocBlocks(image: Image, start: nat) returns (r: Result<Snapshot>)
    ensures r == ReadAt(image.data, start)
  {
    hide BlockOf, Splice, Decoded, LeNat;
    if start == 0 { return Err(EIO); }
    var first := image.ReadBlock(start);
    if first.Err? { return Err(EIO); }
    var hdr := first.value;
    if hdr[0..4] != BLOCK_MAGIC { return Err(EIO); }
    var n, len := GetU32(hdr, 4), GetU32(hdr, 8);
    var bytes := Zeros(len);
    var i := 0;
    while i < n
      invariant i <= n && |bytes| == len
      invariant Gathered(image.data, start, n, len, 0, Zeros(len)) == Gathered(image.data, start, n, len, i, bytes)
    {
      var blk := image.ReadBlock(start + i);
      if blk.Err? { return Err(EIO); }
      var at := i * 4080;
      if at >= len { break; }
      var take := if len - at < 4080 then len - at else 4080;
      var from := if i == 0 then 16 else 0;
      bytes := Splice(bytes, at, blk.value[from..from + take]);
      i := i + 1;
    }
    r := Decode(bytes);
  }

  /** A block of the snapshot holds its chunk behind the header. */
  lemma ChunkAt(bytes: seq<byte>, n: nat, i: nat)
    ensures var from := if i == 0 then 16 else 0; SnapBlock(bytes, n, i)[from..from + |Chunk(bytes, i)|] == Chunk(bytes, i)
  {
    hide Chunk;
  }

  /** With `i` chunks in place, the next one extends the part that is right. */
  lemma NextChunk(bytes: seq<byte>, buf: seq<byte>, i: nat)
    requires |buf| == |bytes| && i * 4080 < |bytes| && buf[..i * 4080] == bytes[..i * 4080]
    ensures i * 4080 + |Chunk(bytes, i)| <= |bytes|
    ensures var end := i * 4080 + |Chunk(bytes, i)|; Splice(buf, i * 4080, Chunk(bytes, i))[..end] == bytes[..end]
  {
    var at := i * 4080;
    var c := Chunk(bytes, i);
    var next := Splice(buf, at, c);
    forall j | 0 <= j < at + |c| ensures next[j] == bytes[j] {
      if j < at { assert buf[..at][j] == bytes[..at][j]; }
    }
  }

  lemma {:induction false} GatheredBack(data: seq<byte>, start: nat, bytes: seq<byte>, n: nat, i: nat, buf: seq<byte>)
    requires Spread(data, start, bytes, n) && |bytes| <= n * 4080 && i <= n && |buf| == |bytes|
    requires i * 4080 <= |bytes| ==> buf[..i * 4080] == bytes[..i * 4080]
    requires i * 4080 > |bytes| ==> buf == bytes
    ensures Gathered(data, start, n, |bytes|, i, buf) == Ok(bytes)
    decreases n - i
  {
    hide BlockOf, Splice, SnapBlock;
    if i * 4080 >= |bytes| {
      assert i * 4080 == |bytes| ==> buf[..i * 4080] == buf && bytes[..i * 4080] == bytes;
      if i < n { assert Stands(data, start, bytes, n, i); }
    } else {
      assert i < n;
      assert Stands(data, start, bytes, n, i);
      ChunkAt(bytes, n, i);
      NextChunk(bytes, buf, i);
      var next := Splice(buf, i * 4080, Chunk(bytes, i));
      if (i + 1) * 4080 > |bytes| { assert next[..|bytes|] == next && bytes[..|bytes|] == bytes; }
      GatheredBack(data, start, bytes, n, i + 1, next);
    }
  }

  /** Reading a written snapshot gives the allocator it was made of. */
  lemma SnapshotReadBack(data: seq<byte>, start: nat, a: Snapshot, n: nat)
    requires start > 0 && 0 < n < U32 && Narrow(a) && |Encoded(a)| <= n * 4080 && Spread(data, start, Encoded(a), n)
    ensures ReadAt(data, start) == Ok(a)
  {
    hide LeBytes, LeNat, Encoded, Decoded, BlockOf, Gathered, Spread;
    var bytes := Encoded(a);
    assert Stands(data, start, bytes, n, 0) by { SpreadAt(data, start, bytes, n, 0); }
    HeaderBack(bytes, n);
    GatheredBack(data, start, bytes, n, 0, Zeros(|bytes|));
    EncodeDecode(a);
  }

  lemma SpreadAt(data: seq<byte>, start: nat, bytes: seq<byte>, n: nat, i: nat)
    requires Spread(data, start, bytes, n) && i < n
    ensures Stands(data, start, bytes, n, i)
  {
  }

  lemma HeaderBack(bytes: seq<byte>, n: nat)
    requires n < U32 && |bytes| < U32
    ensures var blk := SnapBlock(bytes, n, 0);
      blk[0..4] == BLOCK_MAGIC && GetU32(blk, 4) == n && GetU32(blk, 8) == |bytes|
  {
    hide LeBytes, LeNat, Chunk;
    var blk := SnapBlock(bytes, n, 0);
    var h := Header(n, |bytes|);
    forall k | 0 <= k < 12 ensures blk[k] == h[k] {}
    assert blk[0..4] == h[0..4] == BLOCK_MAGIC;
    assert blk[4..8] == h[4..8] == U32Bytes(n);
    assert blk[8..12] == h[8..12] == U32Bytes(|bytes|);
    U32At(blk, 4, n);
    U32At(blk, 8, |bytes|);
  }
}
