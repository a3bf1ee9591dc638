/** The host file of src/store.rs: bytes that grow in 1 MiB steps and read as zero where never written. */
module Store {
  import opened Wrappers
  import opened Format

  /** Block `b` of the image, all zero past its end. */
  function BlockOf(data: seq<byte>, b: nat): Block {
    if (b + 1) * 4096 <= |data| then data[b * 4096..(b + 1) * 4096] else Zeros(BLOCK_SIZE)
  }

  function GrownLen(len: nat, newLen: nat): (r: nat)
    ensures r >= len && r >= newLen
    ensures if newLen <= len then r == len else r % 1048576 == 0 && r < newLen + 1048576
    ensures len % 4096 == 0 ==> r % 4096 == 0
  {
    if newLen <= len then len
    else
      var mib := (newLen + 1048575) / 1048576;
      assert mib * 1048576 == (mib * 256) * 4096;
      mib * 1048576
  }

  function Grown(data: seq<byte>, newLen: nat): seq<byte> {
    data + Zeros(GrownLen(|data|, newLen) - |data|)
  }

  lemma GrownReadsTheSame(data: seq<byte>, newLen: nat, b: nat)
    requires |data| % 4096 == 0
    ensures BlockOf(Grown(data, newLen), b) == BlockOf(data, b)
  {
    var g := Grown(data, newLen);
    if (b + 1) * 4096 <= |data| {
      assert g[b * 4096..(b + 1) * 4096] == data[b * 4096..(b + 1) * 4096];
    } else if (b + 1) * 4096 <= |g| {
      assert b * 4096 >= |data|;
      assert g[b * 4096..(b + 1) * 4096] == Zeros(BLOCK_SIZE);
    }
  }

  /** The image after writing `buf` at byte `offset`. */
  function Written(data: seq<byte>, offset: nat, buf: seq<byte>): (r: seq<byte>)
    ensures |r| == GrownLen(|data|, offset + |buf|)
  {
    Splice(Grown(data, offset + |buf|), offset, buf)
  }

  lemma WrittenBlock(data: seq<byte>, block: nat, buf: Block, b: nat)
    requires |data| % 4096 == 0
    ensures BlockOf(Written(data, block * 4096, buf), b) == if b == block then buf else BlockOf(data, b)
  {
    var off := block * 4096;
    var g := Grown(data, off + |buf|);
    var w := Written(data, off, buf);
    GrownReadsTheSame(data, off + |buf|, b);
    var lo, hi := b * 4096, (b + 1) * 4096;
    if b == block {
      assert w[lo..hi] == buf;
    } else if hi <= |w| {
      assert hi <= off || off + |buf| <= lo;
      assert w[lo..hi] == g[lo..hi];
    }
  }

  lemma ShrunkBlock(data: seq<byte>, keep: nat, b: nat)
    requires keep * 4096 <= |data|
    ensures BlockOf(data[..keep * 4096], b) == if b < keep then BlockOf(data, b) else Zeros(BLOCK_SIZE)
  {
    if b < keep {
      var lo, hi := b * 4096, (b + 1) * 4096;
      assert hi <= keep * 4096;
      assert data[..keep * 4096][lo..hi] == data[lo..hi];
    } else {
      assert (b + 1) * 4096 > keep * 4096;
    }
  }

  lemma ZeroBlock(blocks: nat, b: nat)
    ensures BlockOf(Zeros(blocks * 4096), b) == Zeros(BLOCK_SIZE)
  {
  }

  class Image {
    var data: seq<byte>

    /** The file always ends on a block boundary. */
    ghost predicate Valid() reads this { |data| % 4096 == 0 }

    constructor (initialBlocks: nat)
      ensures Valid() && data == Zeros(initialBlocks * 4096)
    {
      data := Zeros(initialBlocks * 4096);
    }

    function Len(): nat reads this { |data| }

    method GrowTo(newLen: nat)
      requires Valid()
      modifies this
      ensures Valid() && data == Grown(old(data), newLen)
      ensures forall b: nat :: BlockOf(data, b) == BlockOf(old(data), b)
    {
      forall b: nat ensures BlockOf(Grown(data, newLen), b) == BlockOf(data, b) { GrownReadsTheSame(data, newLen, b); }
      if newLen <= |data| {
        assert Grown(data, newLen) == data;
        return;
      }
      var aligned := (newLen + 1048575) / 1048576 * 1048576;
      data := data + Zeros(aligned - |data|);
    }

    method ShrinkTo(newLen: nat)
      requires Valid()
      modifies this
      ensures newLen % 4096 == 0 ==> Valid()
      ensures data == if newLen >= |old(data)| then old(data) else old(data)[..newLen]
    {
      if newLen >= |data| { return; }
      data := data[..newLen];
    }

    method ReadExactAt(n: nat, offset: nat) returns (r: Result<seq<byte>>)
      ensures offset + n > |data| ==> r == Err(EIO)
      ensures offset + n <= |data| ==> r == Ok(data[offset..offset + n])
    {
      if offset + n > |data| { return Err(EIO); }
      return Ok(data[offset..offset + n]);
    }

    method WriteAllAt(buf: seq<byte>, offset: nat)
      requires Valid()
      modifies this
      ensures Valid() && data == Written(old(data), offset, buf)
    {
      var end := offset + |buf|;
      assert end <= |data| ==> Grown(data, end) == data;
      if end > |data| { GrowTo(end); }
      data := Splice(data, offset, buf);
    }

    method ReadBlock(block: nat) returns (r: Result<Block>)
      ensures (block + 1) * 4096 > |data| ==> r == Err(EIO)
      ensures (block + 1) * 4096 <= |data| ==> r == Ok(BlockOf(data, block))
    {
      var raw := ReadExactAt(BLOCK_SIZE, block * 4096);
      match raw {
        case Err(e) => return Err(e);
        case Ok(s) => return Ok(s);
      }
    }

    method WriteBlock(block: nat, buf: Block)
      requires Valid()
      modifies this
      ensures Valid() && data == Written(old(data), block * 4096, buf)
      ensures forall b: nat :: BlockOf(data, b) == if b == block then buf else BlockOf(old(data), b)
    {
      forall b: nat ensures BlockOf(Written(data, block * 4096, buf), b) == if b == block then buf else BlockOf(data, b) {
        WrittenBlock(data, block, buf, b);
      }
      WriteAllAt(buf, block * 4096);
    }
  }
}
