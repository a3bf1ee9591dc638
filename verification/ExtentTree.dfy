/** Extents beyond the six an inode holds are kept in tree blocks (src/inner.rs). */
module ExtentTree {
  import opened Wrappers
  import opened Format
  import opened Store
  import opened Cache
  import opened Alloc
  import opened Extents
  import opened Layout
  import opened Ownership

  const TREE_MAGIC: seq<byte> := [69, 88, 84, 50]
  const PER: nat := 204

  /** The extents that go to tree block `b`. */
  function Part(es: seq<Extent>, b: nat): (r: seq<Extent>)
    ensures |r| <= PER
  {
    var lo := b * 204;
    if lo >= |es| then [] else if lo + 204 <= |es| then es[lo..lo + 204] else es[lo..]
  }

  function Header(count: nat, blocks: nat): (r: seq<byte>)
    ensures |r| == 12
  {
    U32Bytes(count) + U32Bytes(blocks) + TREE_MAGIC
  }

  /** Tree block `b` of `n`: the first has a header of 16 bytes. */
  function TreeBlock(es: seq<Extent>, n: nat, b: nat): Block {
    if b == 0 then Splice(Splice(Zeros(BLOCK_SIZE), 0, Header(|es|, n)), 16, ExtsBytes(Part(es, 0)))
    else Splice(Zeros(BLOCK_SIZE), 0, ExtsBytes(Part(es, b)))
  }

  function TreeBlocksFor(count: nat): (n: nat)
    ensures count <= n * 204 && (n - 1) * 204 < count + 204 && n >= 1
  {
    if count == 0 then 1 else (count + 203) / 204
  }

  // --- reading -----------------------------------------------------------------------------

  /** At most `limit` extents from `off` on, as many as the block holds. */
  function ReadExts(block: Block, off: nat, limit: nat): (r: seq<Extent>)
    ensures |r| <= limit
    decreases limit
  {
    if limit == 0 || off + 20 > BLOCK_SIZE then [] else [ExtAt(block, off)] + ReadExts(block, off + 20, limit - 1)
  }

  function ReadBlocks(d: Disk, tree: nat, n: nat, b: nat, remaining: nat): seq<Extent>
    requires b <= n
    decreases n - b
  {
    if b == n then []
    else
      var part := ReadExts(d.At(tree + b), if b == 0 then 16 else 0, remaining);
      part + ReadBlocks(d, tree, n, b + 1, remaining - |part|)
  }

  function TreeBlocks(first: Block): nat { if GetU32(first, 4) < 1 then 1 else GetU32(first, 4) }

  /** The extents of the tree at `tree`; the older layout keeps at most 200 in one block. */
  function Loaded(d: Disk, tree: nat): seq<Extent> {
    var first := d.At(tree);
    var count := GetU32(first, 0);
    if first[8..12] == TREE_MAGIC then ReadBlocks(d, tree, TreeBlocks(first), 0, count)
    else ReadExts(first, 8, if count < 200 then count else 200)
  }

  /** How many blocks it takes: the older layout always one. */
  function LoadedBlocks(d: Disk, tree: nat): nat {
    if d.At(tree)[8..12] == TREE_MAGIC then TreeBlocks(d.At(tree)) else 1
  }

  method LoadExts(block: Block, from: nat, limit: nat) returns (es: seq<Extent>)
    ensures es == ReadExts(block, from, limit)
  {
    hide ExtAt;
    es := [];
    var off: nat, remaining: nat := from, limit;
    while remaining > 0 && off + 20 <= BLOCK_SIZE
      invariant es + ReadExts(block, off, remaining) == ReadExts(block, from, limit)
      decreases remaining
    {
      es := es + [ExtAt(block, off)];
      off := off + 20;
      remaining := remaining - 1;
    }
    assert es + [] == es;
  }

  /** What an inode records of its tree, beside how its data is kept. */
  datatype TreeRef = TreeRef(block: nat, blocks: nat, kind: DataKind)

  /** Replace the extents `es0` of an inode by those of its tree, if it has one. */
  method LoadExtentTree(cache: BlockCache, image: Image, es0: seq<Extent>, had: TreeRef)
    returns (es: seq<Extent>, now: TreeRef)
    requires cache.Valid() && Disk(cache.entries, image.data).Coherent()
    modifies cache, image
    ensures cache.Valid() && Disk(cache.entries, image.data).Coherent()
    ensures forall b: nat :: Disk(cache.entries, image.data).At(b) == old(Disk(cache.entries, image.data)).At(b)
    ensures had.block == 0 ==> es == es0 && now == had
    ensures had.block != 0 ==> es == Loaded(old(Disk(cache.entries, image.data)), had.block)
    ensures had.block != 0 ==> now == had.(blocks := LoadedBlocks(old(Disk(cache.entries, image.data)), had.block))
  {
    hide ReadExts, LeNat, Disk.At, Disk.Coherent, BlockCache.Valid;
    ghost var d := Disk(cache.entries, image.data);
    if had.block == 0 { return es0, had; }
    var tree := had.block;
    var first := cache.Get(image, tree);
    var count := GetU32(first, 0);
    if first[8..12] == TREE_MAGIC {
      var n := TreeBlocks(first);
      now := had.(blocks := n);
      es := [];
      var remaining: nat := count;
      var b := 0;
      while b < n
        invariant b <= n && cache.Valid() && Disk(cache.entries, image.data).Coherent()
        invariant forall k: nat :: Disk(cache.entries, image.data).At(k) == d.At(k)
        invariant es + ReadBlocks(d, tree, n, b, remaining) == ReadBlocks(d, tree, n, 0, count)
      {
        var block := cache.Get(image, tree + b);
        var part := LoadExts(block, if b == 0 then 16 else 0, remaining);
        AppendPart(es, part, ReadBlocks(d, tree, n, b + 1, remaining - |part|));
        es := es + part;
        remaining := remaining - |part|;
        b := b + 1;
      }
      assert es + [] == es;
    } else {
      now := had.(blocks := 1);
      es := LoadExts(first, 8, if count < 200 then count else 200);
    }
  }

  lemma AppendPart(a: seq<Extent>, b: seq<Extent>, c: seq<Extent>)
    ensures a + (b + c) == a + b + c
  {
  }

  // --- writing ----------------------------------------------------------------------------------

  /** The tree stands at `tree`. */
  ghost predicate Stored(d: Disk, tree: nat, es: seq<Extent>, n: nat) {
    forall b: nat :: b < n ==> StandsAt(d, tree, es, n, b)
  }

  predicate StandsAt(d: Disk, tree: nat, es: seq<Extent>, n: nat, b: nat) { d.At(tree + b) == TreeBlock(es, n, b) }

  /** The length of the run that goes back: a count of zero stands for one block. */
  function OldBlocks(had: TreeRef): (n: nat)
    ensures had.block == 0 ==> n == 0
    ensures had.block != 0 ==> n >= 1 && (had.blocks >= 1 ==> n == had.blocks) && (had.blocks == 0 ==> n == 1)
  {
    if had.block == 0 then 0 else Max(had.blocks, 1)
  }

  /** Give the old tree's blocks back, and keep more than six extents in a new one. */
  method StoreExtentTree(cache: BlockCache, image: Image, alloc: Allocator, es: seq<Extent>,
          had: TreeRef) returns (now: TreeRef)
    requires cache.Valid() && image.Valid() && alloc.Valid() && Disk(cache.entries, image.data).Coherent()
    requires had.block != 0 ==> alloc.firstData <= had.block && had.block + OldBlocks(had) <= alloc.totalBlocks
    requires forall b: nat :: InRange(had.block, OldBlocks(had), b) ==> !Covers(alloc.free, b)
    modifies cache, image, alloc
    ensures cache.Valid() && image.Valid() && alloc.Valid() && Disk(cache.entries, image.data).Coherent()
    ensures |es| <= MAX_DIRECT_EXTENTS ==> now == (if had.block != 0 then TreeRef(0, 0, Direct) else had)
    ensures |es| <= MAX_DIRECT_EXTENTS ==> alloc.free == Freed(old(alloc.free), had.block, OldBlocks(had))
    ensures |es| <= MAX_DIRECT_EXTENTS ==> forall b: nat :: Disk(cache.entries, image.data).At(b) == old(Disk(cache.entries, image.data)).At(b)
    ensures |es| > MAX_DIRECT_EXTENTS ==> (
      && now.kind == DataKind.Tree && now.blocks == TreeBlocksFor(|es|) && Stored(Disk(cache.entries, image.data), now.block, es, now.blocks)
      && Took(Freed(old(alloc.free), had.block, OldBlocks(had)), old(alloc.totalBlocks), alloc.free, alloc.firstData, alloc.totalBlocks, now.block, now.blocks)
      && forall b: nat :: !InRange(now.block, now.blocks, b) ==> Disk(cache.entries, image.data).At(b) == old(Disk(cache.entries, image.data)).At(b))
  {
    hide TreeBlock, Freed, Took, Covers, Coalesced, Chosen, BlockCache.Valid;
    NoneFreed(alloc.free, had.block);
    var oldBlocks := OldBlocks(had);
    if had.block != 0 { alloc.Free(had.block, oldBlocks); }
    if |es| <= MAX_DIRECT_EXTENTS { return if had.block != 0 then TreeRef(0, 0, Direct) else had; }
    ghost var image0 := image.data;
    var n := TreeBlocksFor(|es|);
    var r := alloc.Allocate(image, n);
    var tree := r.value;
    GrownDisk(cache.entries, image0, image.data);
    var b := 0;
    while b < n
      modifies cache, image
      invariant b <= n && cache.Valid() && Disk(cache.entries, image.data).Coherent()
      invariant forall k: nat :: k < b ==> StandsAt(Disk(cache.entries, image.data), tree, es, n, k)
      invariant forall k: nat :: !InRange(tree, b, k) ==> Disk(cache.entries, image.data).At(k) == old(Disk(cache.entries, image.data)).At(k)
    {
      var block := TreeBlock(es, n, b);
      ghost var d := Disk(cache.entries, image.data);
      cache.InsertDirty(image, tree + b, block);
      forall k: nat | k <= b ensures StandsAt(Disk(cache.entries, image.data), tree, es, n, k) {
        if k < b { assert StandsAt(d, tree, es, n, k); }
      }
      b := b + 1;
    }
    return TreeRef(tree, n, DataKind.Tree);
  }

  lemma NoneFreed(free: Runs, start: nat)
    ensures Freed(free, start, 0) == free
  {
  }

  lemma GrownDisk(entries: map<nat, Entry>, image0: seq<byte>, image1: seq<byte>)
    requires Disk(entries, image0).Coherent() && |image1| % 4096 == 0
    requires forall b: nat :: BlockOf(image1, b) == BlockOf(image0, b)
    ensures Disk(entries, image1).Coherent() && forall b: nat :: Disk(entries, image1).At(b) == Disk(entries, image0).At(b)
  {
  }

  // --- the round trip -----------------------------------------------------------------------------

  /** As many extents as are wanted, or as the block has room for, come back. */
  lemma {:induction false} ExtsReadBack(block: Block, off: nat, es: seq<Extent>, limit: nat)
    requires At(block, off, ExtsBytes(es)) && (forall e :: e in es ==> ExtFits(e))
    requires limit == |es| || (limit > |es| && off + 20 * |es| + 20 > BLOCK_SIZE)
    ensures ReadExts(block, off, limit) == BareAll(es)
    decreases |es|
  {
    hide ExtBytes, ExtAt, At;
    if es != [] {
      AtConcat(block, off, ExtBytes(es[0]), ExtsBytes(es[1..]));
      ExtStands(block, off, es[0]);
      ExtsReadBack(block, off + 20, es[1..], limit - 1);
      assert BareAll(es) == [Bare(es[0])] + BareAll(es[1..]);
    }
  }

  lemma PartAt(es: seq<Extent>, n: nat, b: nat)
    ensures At(TreeBlock(es, n, b), if b == 0 then 16 else 0, ExtsBytes(Part(es, b)))
  {
    hide Part, ExtsBytes;
  }

  lemma {:induction false} BlocksReadBack(d: Disk, tree: nat, es: seq<Extent>, n: nat, b: nat)
    requires Stored(d, tree, es, n) && n == TreeBlocksFor(|es|) && b <= n && (forall e :: e in es ==> ExtFits(e))
    requires b * 204 <= |es| || b == n
    ensures ReadBlocks(d, tree, n, b, if b * 204 <= |es| then |es| - b * 204 else 0) == if b * 204 <= |es| then BareAll(es[b * 204..]) else []
    decreases n - b
  {
    hide TreeBlock, ReadExts, ExtsBytes, Disk.At;
    if b < n {
      assert StandsAt(d, tree, es, n, b);
      var part := Part(es, b);
      PartAt(es, n, b);
      ExtsReadBack(d.At(tree + b), if b == 0 then 16 else 0, part, |es| - b * 204);
      BlocksReadBack(d, tree, es, n, b + 1);
      NextPart(es, b);
    } else {
      assert b * 204 <= |es| ==> es[b * 204..] == [];
    }
  }

  lemma NextPart(es: seq<Extent>, b: nat)
    requires b * 204 <= |es|
    ensures var part := Part(es, b);
      BareAll(es[b * 204..]) == BareAll(part) + if (b + 1) * 204 <= |es| then BareAll(es[(b + 1) * 204..]) else []
  {
  }

  /** Loading undoes storing, for any number of extents. */
  lemma TreeRoundTrip(d: Disk, tree: nat, es: seq<Extent>, n: nat)
    requires n == TreeBlocksFor(|es|) && Stored(d, tree, es, n)
    requires |es| < U32 && n < U32 && forall e :: e in es ==> ExtFits(e)
    ensures Loaded(d, tree) == BareAll(es) && LoadedBlocks(d, tree) == n
  {
    hide TreeBlock, ReadBlocks, LeNat;
    assert StandsAt(d, tree, es, n, 0);
    HeaderBack(es, n);
    BlocksReadBack(d, tree, es, n, 0);
    assert es[0 * 204..] == es;
  }

  lemma HeaderBack(es: seq<Extent>, n: nat)
    requires |es| < U32 && n < U32
    ensures var blk := TreeBlock(es, n, 0); GetU32(blk, 0) == |es| && GetU32(blk, 4) == n && blk[8..12] == TREE_MAGIC
  {
    hide LeBytes, LeNat, Part, ExtsBytes;
    var blk := TreeBlock(es, n, 0);
    var h := Header(|es|, n);
    forall k | 0 <= k < 12 ensures blk[k] == h[k] {}
    assert blk[0..4] == h[0..4] == U32Bytes(|es|);
    assert blk[4..8] == h[4..8] == U32Bytes(n);
    assert blk[8..12] == h[8..12] == TREE_MAGIC;
    U32At(blk, 0, |es|);
    U32At(blk, 4, n);
  }
}
