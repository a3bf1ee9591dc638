/** The metadata log of src/journal.rs: how transactions are written, and what replay makes of any bytes. */
module Journal {
  import opened Wrappers
  import opened Format
  import opened Store
  import opened Crc

  const JMAGIC: seq<byte> := [74, 82, 78, 76]
  const OP_BEGIN: nat := 1
  const OP_INODE: nat := 2
  const OP_BLOCK: nat := 3
  const OP_COMMIT: nat := 4

  datatype LogOp = InodeOp(key: nat, raw: seq<byte>) | BlockOp(key: nat, raw: seq<byte>) {
    function Code(): nat { if InodeOp? then OP_INODE else OP_BLOCK }
    /** The widths of the log's fields: a u64 key and a u32 length. */
    predicate Fits() { key < U64 && |raw| < U32 }
  }

  datatype Tx = Tx(seqNo: nat, ops: seq<LogOp>) {
    predicate Fits() { 0 < seqNo < U64 && forall op :: op in ops ==> op.Fits() }
  }

  // --- writing ---------------------------------------------------------------------------

  function OpBytes(op: LogOp): seq<byte> { U32Bytes(op.Code()) + U64Bytes(op.key) + U32Bytes(|op.raw|) + op.raw }

  function OpsBytes(ops: seq<LogOp>): seq<byte> { if ops == [] then [] else OpBytes(ops[0]) + OpsBytes(ops[1..]) }

  /** A transaction up to its last operation. */
  function TxBody(tx: Tx): seq<byte> { JMAGIC + U32Bytes(OP_BEGIN) + U64Bytes(tx.seqNo) + OpsBytes(tx.ops) }

  /** What the checksum covers. */
  function TxSummed(tx: Tx): seq<byte> { TxBody(tx) + U32Bytes(OP_COMMIT) + U64Bytes(tx.seqNo) }

  function TxBytes(tx: Tx): seq<byte> { TxSummed(tx) + U32Bytes(Crc32(TxSummed(tx))) }

  function LogBytes(txs: seq<Tx>): seq<byte> { if txs == [] then [] else TxBytes(txs[0]) + LogBytes(txs[1..]) }

  lemma {:induction false} OpsBytesSnoc(ops: seq<LogOp>, op: LogOp)
    ensures OpsBytes(ops + [op]) == OpsBytes(ops) + OpBytes(op)
  {
    if ops == [] {
      assert [op][1..] == [];
    } else {
      assert (ops + [op])[1..] == ops[1..] + [op];
      OpsBytesSnoc(ops[1..], op);
    }
  }

  lemma {:induction false} LogBytesSnoc(txs: seq<Tx>, tx: Tx)
    ensures LogBytes(txs + [tx]) == LogBytes(txs) + TxBytes(tx)
  {
    if txs == [] {
      assert [tx][1..] == [];
    } else {
      assert (txs + [tx])[1..] == txs[1..] + [tx];
      LogBytesSnoc(txs[1..], tx);
    }
  }

  lemma OneMoreOp(buf: seq<byte>, tx: Tx, op: LogOp)
    requires buf == TxBody(tx)
    ensures buf + U32Bytes(op.Code()) + U64Bytes(op.key) + U32Bytes(|op.raw|) + op.raw == TxBody(Tx(tx.seqNo, tx.ops + [op]))
  {
    hide OpsBytes, LeBytes;
    OpsBytesSnoc(tx.ops, op);
    assert buf + U32Bytes(op.Code()) + U64Bytes(op.key) + U32Bytes(|op.raw|) + op.raw == buf + OpBytes(op);
    assert JMAGIC + U32Bytes(OP_BEGIN) + U64Bytes(tx.seqNo) + (OpsBytes(tx.ops) + OpBytes(op))
      == JMAGIC + U32Bytes(OP_BEGIN) + U64Bytes(tx.seqNo) + OpsBytes(tx.ops) + OpBytes(op);
  }

  class Transaction {
    var seqNo: nat
    var buf: seq<byte>
    /** The operations written so far. */
    ghost var ops: seq<LogOp>

    ghost predicate Valid() reads this { buf == TxBody(Tx(seqNo, ops)) }

    constructor (seqNo: nat)
      ensures Valid() && this.seqNo == seqNo && ops == []
    {
      this.seqNo := seqNo;
      buf := JMAGIC + U32Bytes(OP_BEGIN) + U64Bytes(seqNo);
      ops := [];
    }

    method Append(op: LogOp)
      requires Valid()
      modifies this
      ensures Valid() && seqNo == old(seqNo) && ops == old(ops) + [op]
    {
      hide TxBody, LeBytes;
      OneMoreOp(buf, Tx(seqNo, ops), op);
      ops := ops + [op];
      buf := buf + U32Bytes(op.Code());
      buf := buf + U64Bytes(op.key);
      buf := buf + U32Bytes(|op.raw|);
      buf := buf + op.raw;
    }

    method WriteInode(ino: nat, raw: seq<byte>)
      requires Valid()
      modifies this
      ensures Valid() && seqNo == old(seqNo) && ops == old(ops) + [InodeOp(ino, raw)]
    {
      Append(InodeOp(ino, raw));
    }

    method WriteBlock(block: nat, data: seq<byte>)
      requires Valid()
      modifies this
      ensures Valid() && seqNo == old(seqNo) && ops == old(ops) + [BlockOp(block, data)]
    {
      Append(BlockOp(block, data));
    }
  }

  /** The journal fields of the superblock. */
  class Marks {
    var seqNo: nat
    var head: nat
    var tail: nat
    var committed: nat

    /** As a new image has them. */
    constructor ()
      ensures seqNo == 0 && head == 0 && tail == 0 && committed == 0
    {
      seqNo, head, tail, committed := 0, 0, 0, 0;
    }
  }

  /** The bytes of a journal area of `blocks` blocks, which starts at block 1. */
  function AreaOf(data: seq<byte>, blocks: nat): (area: seq<byte>)
    requires (1 + blocks) * 4096 <= |data|
    ensures |area| == blocks * 4096
  {
    data[4096..(1 + blocks) * 4096]
  }

  /** The transactions were numbered from 1 up to `seqNo`. */
  predicate NumberedTo(txs: seq<Tx>, seqNo: nat) { forall t :: t in txs ==> 0 < t.seqNo <= seqNo }

  predicate ZeroFrom(area: seq<byte>, head: nat) { forall i :: head <= i < |area| ==> area[i] == 0 }

  class Log {
    const blocks: nat
    var seqNo: nat
    var head: nat
    /** The transactions committed since the head was last at the start. */
    ghost var txs: seq<Tx>
    /** The head has never gone back: nothing has been written behind it. */
    ghost var unwrapped: bool

    ghost predicate Valid(image: Image) reads this, image {
      && image.Valid() && (1 + blocks) * 4096 <= |image.data|
      && head <= blocks * 4096 && AreaOf(image.data, blocks)[..head] == LogBytes(txs)
      && NumberedTo(txs, seqNo)
      && (unwrapped ==> ZeroFrom(AreaOf(image.data, blocks), head))
    }

    /** Taken up from the superblock's fields: after `logged`, the transactions in front of the head; none in a new image. */
    constructor (image: Image, blocks: nat, seqNo: nat, head: nat, ghost logged: seq<Tx>)
      requires image.Valid() && (1 + blocks) * 4096 <= |image.data| && head <= blocks * 4096
      requires AreaOf(image.data, blocks)[..head] == LogBytes(logged) && NumberedTo(logged, seqNo)
      ensures Valid(image) && this.blocks == blocks && this.seqNo == seqNo && this.head == head && txs == logged
      ensures unwrapped == ZeroFrom(AreaOf(image.data, blocks), head)
    {
      this.blocks, this.seqNo, this.head, txs, unwrapped := blocks, seqNo, head, logged, ZeroFrom(AreaOf(image.data, blocks), head);
    }

    /** Start a transaction under the next number. */
    method Begin() returns (tx: Transaction)
      modifies this
      ensures fresh(tx) && tx.Valid() && tx.ops == [] && tx.seqNo == seqNo == old(seqNo) + 1
      ensures head == old(head) && txs == old(txs) && unwrapped == old(unwrapped)
    {
      seqNo := seqNo + 1;
      tx := new Transaction(seqNo);
    }

    /** The record goes where the head is, or to the start when it does not fit behind it. */
    method Commit(image: Image, sb: Marks, tx: Transaction) returns (r: Result<()>)
      requires Valid(image) && tx.Valid() && 0 < tx.seqNo <= seqNo
      modifies this, image, sb, tx
      ensures Valid(image) && seqNo == old(seqNo)
      ensures var rec := old(TxBytes(Tx(tx.seqNo, tx.ops)));
        r == if |rec| + 8 > blocks * 4096 then Err(EIO) else Ok(())
      ensures r.Err? ==> image.data == old(image.data) && head == old(head) && txs == old(txs) && unwrapped == old(unwrapped)
      ensures r.Ok? ==> (
        var rec := old(TxBytes(Tx(tx.seqNo, tx.ops)));
        var wraps := old(head) + |rec| + 8 > blocks * 4096;
        && txs == (if wraps then [] else old(txs)) + [old(Tx(tx.seqNo, tx.ops))]
        && unwrapped == (old(unwrapped) && !wraps)
        && head == (if wraps then 0 else old(head)) + |rec|
        && image.data == Splice(old(image.data), 4096 + head - |rec|, rec))
      ensures r.Ok? ==> sb.seqNo == sb.committed == seqNo && sb.head == sb.tail == head
    {
      hide TxBody, TxBytes, LogBytes, LeBytes, Crc32, Splice, Written, AreaOf, ZeroFrom;
      ghost var t := Tx(tx.seqNo, tx.ops);
      Sealed(tx.buf, t);
      tx.buf := tx.buf + U32Bytes(OP_COMMIT);
      tx.buf := tx.buf + U64Bytes(tx.seqNo);
      var csum := Crc32(tx.buf);
      tx.buf := tx.buf + U32Bytes(csum);
      var need := |tx.buf| + 8;
      if need > blocks * 4096 { return Err(EIO); }
      if head + need > blocks * 4096 {
        head := 0;
        txs, unwrapped := [], false;
        EmptyLog();
      }
      var off := 4096 + head;
      CommitAppends(image.data, blocks, head, txs, t);
      image.WriteAllAt(tx.buf, off);
      head := head + |tx.buf|;
      txs := txs + [t];
      sb.seqNo := seqNo;
      sb.head := head;
      sb.tail := head;
      sb.committed := seqNo;
      return Ok(());
    }
  }

  lemma Sealed(buf: seq<byte>, tx: Tx)
    requires buf == TxBody(tx)
    ensures var summed := buf + U32Bytes(OP_COMMIT) + U64Bytes(tx.seqNo); summed + U32Bytes(Crc32(summed)) == TxBytes(tx)
  {
    hide TxBody, LeBytes, Crc32;
  }

  lemma EmptyLog()
    ensures LogBytes([]) == []
  {
  }

  lemma CommitAppends(data: seq<byte>, blocks: nat, head: nat, txs: seq<Tx>, tx: Tx)
    requires (1 + blocks) * 4096 <= |data| && head + |TxBytes(tx)| <= blocks * 4096
    requires AreaOf(data, blocks)[..head] == LogBytes(txs)
    ensures Written(data, 4096 + head, TxBytes(tx)) == Splice(data, 4096 + head, TxBytes(tx))
    ensures AreaOf(Splice(data, 4096 + head, TxBytes(tx)), blocks)[..head + |TxBytes(tx)|] == LogBytes(txs + [tx])
    ensures ZeroFrom(AreaOf(data, blocks), head) ==>
      ZeroFrom(AreaOf(Splice(data, 4096 + head, TxBytes(tx)), blocks), head + |TxBytes(tx)|)
  {
    hide LogBytes, TxBytes, AreaOf, ZeroFrom;
    LogBytesSnoc(txs, tx);
    SpliceInArea(data, blocks, head, TxBytes(tx));
  }

  lemma SpliceInArea(data: seq<byte>, blocks: nat, head: nat, rec: seq<byte>)
    requires (1 + blocks) * 4096 <= |data| && head + |rec| <= blocks * 4096
    ensures Written(data, 4096 + head, rec) == Splice(data, 4096 + head, rec)
    ensures AreaOf(Splice(data, 4096 + head, rec), blocks)[..head + |rec|] == AreaOf(data, blocks)[..head] + rec
    ensures forall i :: head + |rec| <= i < blocks * 4096 ==>
      AreaOf(Splice(data, 4096 + head, rec), blocks)[i] == AreaOf(data, blocks)[i]
    ensures ZeroFrom(AreaOf(data, blocks), head) ==> ZeroFrom(AreaOf(Splice(data, 4096 + head, rec), blocks), head + |rec|)
  {
    hide Splice;
    assert Grown(data, 4096 + head + |rec|) == data;
    var after := Splice(data, 4096 + head, rec);
    var area, was := AreaOf(after, blocks), AreaOf(data, blocks);
    forall i | 0 <= i < head + |rec| ensures area[i] == (was[..head] + rec)[i] {
      assert area[i] == after[4096 + i];
    }
    forall i | head + |rec| <= i < blocks * 4096 ensures area[i] == was[i] { assert area[i] == after[4096 + i]; }
  }

  // --- reading: any bytes --------------------------------------------------------------------

  datatype Parsed = Parsed(ops: seq<LogOp>, end: nat)

  /** The operations from `off` to a commit record with the right number and checksum. */
  function ParseOps(buf: seq<byte>, begin: nat, seqNo: nat, off: nat, done: seq<LogOp>): (r: Option<Parsed>)
    requires begin <= off <= |buf|
    ensures r.Some? ==> off < r.value.end <= |buf|
    decreases |buf| - off
  {
    if off + 4 > |buf| then None
    else
      var code := GetU32(buf, off);
      if code == OP_INODE || code == OP_BLOCK then
        if off + 16 > |buf| then None
        else
          var n := GetU32(buf, off + 12);
          if off + 16 + n > |buf| then None
          else
            var raw := buf[off + 16..off + 16 + n];
            var op := if code == OP_INODE then InodeOp(GetU64(buf, off + 4), raw) else BlockOp(GetU64(buf, off + 4), raw);
            ParseOps(buf, begin, seqNo, off + 16 + n, done + [op])
      else if code == OP_COMMIT then
        if off + 16 > |buf| || GetU64(buf, off + 4) != seqNo || Crc32(buf[begin..off + 12]) != GetU32(buf, off + 12) then None
        else Some(Parsed(done, off + 16))
      else None
  }

  /** The transaction that starts at `off`. */
  function ParseTx(buf: seq<byte>, committed: nat, off: nat): (r: Option<Parsed>)
    ensures r.Some? ==> off < r.value.end <= |buf|
  {
    if off + 16 > |buf| || buf[off..off + 4] != JMAGIC || GetU32(buf, off + 4) != OP_BEGIN then None
    else
      var seqNo := GetU64(buf, off + 8);
      if seqNo == 0 || seqNo > committed then None
      else ParseOps(buf, off, seqNo, off + 16, [])
  }

  /** The transactions replay finds from `off` on, up to the first that does not parse. */
  function Found(buf: seq<byte>, committed: nat, off: nat): seq<seq<LogOp>>
    decreases |buf| - off
  {
    var p := ParseTx(buf, committed, off);
    if p.None? then [] else [p.value.ops] + Found(buf, committed, p.value.end)
  }

  /** One logged operation: whole blocks are written, everything else is ignored. */
  function ApplyOp(data: seq<byte>, op: LogOp): seq<byte> {
    if op.BlockOp? && |op.raw| == BLOCK_SIZE then Written(data, op.key * 4096, op.raw) else data
  }

  function ApplyOps(data: seq<byte>, ops: seq<LogOp>): seq<byte>
    decreases |ops|
  {
    if ops == [] then data else ApplyOps(ApplyOp(data, ops[0]), ops[1..])
  }

  function Flat(txs: seq<seq<LogOp>>): seq<LogOp> { if txs == [] then [] else txs[0] + Flat(txs[1..]) }

  /** The image after a replay. */
  function Replayed(data: seq<byte>, blocks: nat, committed: nat): seq<byte>
    requires (1 + blocks) * 4096 <= |data|
  {
    ApplyOps(data, Flat(Found(AreaOf(data, blocks), committed, 0)))
  }

  lemma {:induction false} ApplyConcat(data: seq<byte>, a: seq<LogOp>, b: seq<LogOp>)
    ensures ApplyOps(data, a + b) == ApplyOps(ApplyOps(data, a), b)
    decreases |a|
  {
    if a == [] {
      assert a + b == b;
    } else {
      assert (a + b)[1..] == a[1..] + b;
      ApplyConcat(ApplyOp(data, a[0]), a[1..], b);
    }
  }

  lemma {:induction false} FlatSnoc(txs: seq<seq<LogOp>>, ops: seq<LogOp>)
    ensures Flat(txs + [ops]) == Flat(txs) + ops
  {
    if txs == [] {
      assert [ops][1..] == [];
    } else {
      assert (txs + [ops])[1..] == txs[1..] + [ops];
      FlatSnoc(txs[1..], ops);
    }
  }

  /** The inner loop of replay: operations up to the commit record. */
  method ReadTx(buf: seq<byte>, begin: nat, seqNo: nat, start: nat) returns (r: Option<Parsed>)
    requires begin <= start <= |buf|
    ensures r == ParseOps(buf, begin, seqNo, start, [])
  {
    hide GetU32, GetU64, Crc32;
    var off := start;
    var ops: seq<LogOp> := [];
    while off + 4 <= |buf|
      invariant begin <= off <= |buf|
      invariant ParseOps(buf, begin, seqNo, start, []) == ParseOps(buf, begin, seqNo, off, ops)
      decreases |buf| - off
    {
      var code := GetU32(buf, off);
      if code == OP_INODE || code == OP_BLOCK {
        if off + 16 > |buf| { break; }
        var key, n := GetU64(buf, off + 4), GetU32(buf, off + 12);
        if off + 16 + n > |buf| { break; }
        var raw := buf[off + 16..off + 16 + n];
        ops := ops + [if code == OP_INODE then InodeOp(key, raw) else BlockOp(key, raw)];
        off := off + 16 + n;
      } else if code == OP_COMMIT {
        if off + 16 > |buf| { break; }
        if GetU64(buf, off + 4) != seqNo { break; }
        if Crc32(buf[begin..off + 12]) != GetU32(buf, off + 12) { break; }
        return Some(Parsed(ops, off + 16));
      } else {
        break;
      }
    }
    return None;
  }

  method ApplyTx(image: Image, ops: seq<LogOp>)
    requires image.Valid()
    modifies image
    ensures image.Valid() && image.data == ApplyOps(old(image.data), ops)
  {
    ghost var before := image.data;
    for i := 0 to |ops|
      invariant image.Valid() && image.data == ApplyOps(before, ops[..i])
    {
      assert ops[..i + 1] == ops[..i] + [ops[i]];
      ApplyConcat(before, ops[..i], [ops[i]]);
      assert [ops[i]][1..] == [];
      if ops[i].BlockOp? && |ops[i].raw| == BLOCK_SIZE {
        image.WriteBlock(ops[i].key, ops[i].raw);
      }
    }
    assert ops[..|ops|] == ops;
  }

  /** Any journal bytes: the image becomes the fold of the complete transactions, each whole or not at all. */
  method Replay(image: Image, blocks: nat, committed: nat) returns (r: Result<nat>)
    requires image.Valid()
    modifies image
    ensures image.Valid()
    ensures blocks == 0 ==> r == Ok(0) && image.data == old(image.data)
    ensures blocks > 0 && (1 + blocks) * 4096 > |old(image.data)| ==> r == Err(EIO) && image.data == old(image.data)
    ensures (1 + blocks) * 4096 <= |old(image.data)| ==>
      r == Ok(|Found(AreaOf(old(image.data), blocks), committed, 0)|) && image.data == Replayed(old(image.data), blocks, committed)
  {
    hide ParseOps, ApplyOps, Crc32, LeNat, Flat;
    NothingFound(image.data, committed);
    if blocks == 0 {
      assert 4096 <= |image.data| ==> AreaOf(image.data, 0) == [];
      return Ok(0);
    }
    var read := image.ReadExactAt(blocks * 4096, 4096);
    if read.Err? { return Err(read.error); }
    var buf := read.value;
    ghost var before := image.data;
    assert buf == AreaOf(before, blocks);
    ghost var seen: seq<seq<LogOp>> := [];
    var applied := 0;
    var off := 0;
    while off + 16 <= |buf|
      invariant image.Valid() && off <= |buf|
      invariant applied == |seen| && Found(buf, committed, 0) == seen + Found(buf, committed, off)
      invariant image.data == ApplyOps(before, Flat(seen))
      decreases |buf| - off
    {
      if buf[off..off + 4] != JMAGIC { break; }
      if GetU32(buf, off + 4) != OP_BEGIN { break; }
      var seqNo := GetU64(buf, off + 8);
      if seqNo == 0 || seqNo > committed { break; }
      var tx := ReadTx(buf, off, seqNo, off + 16);
      if tx.None? { break; }
      ApplyTx(image, tx.value.ops);
      FlatSnoc(seen, tx.value.ops);
      ApplyConcat(before, Flat(seen), tx.value.ops);
      seen := seen + [tx.value.ops];
      applied := applied + 1;
      off := tx.value.end;
    }
    assert Found(buf, committed, off) == [];
    assert Found(buf, committed, 0) == seen;
    return Ok(applied);
  }

  lemma NothingFound(data: seq<byte>, committed: nat)
    ensures ApplyOps(data, Flat([])) == data && Found([], committed, 0) == []
  {
  }

  // --- replaying again ---------------------------------------------------------------------------

  /** The block a run of operations leaves at `b`, if it writes there. */
  function LastWrite(ops: seq<LogOp>, b: nat): Option<Block>
    decreases |ops|
  {
    if ops == [] then None
    else
      var later := LastWrite(ops[1..], b);
      if later.Some? then later
      else if ops[0].BlockOp? && |ops[0].raw| == BLOCK_SIZE && ops[0].key == b then Some(ops[0].raw) else None
  }

  lemma {:induction false} AppliedBlock(data: seq<byte>, ops: seq<LogOp>, b: nat)
    requires |data| % 4096 == 0
    ensures |ApplyOps(data, ops)| % 4096 == 0
    ensures BlockOf(ApplyOps(data, ops), b) == if LastWrite(ops, b).Some? then LastWrite(ops, b).value else BlockOf(data, b)
    decreases |ops|
  {
    hide BlockOf, Written;
    if ops != [] {
      if ops[0].BlockOp? && |ops[0].raw| == BLOCK_SIZE { WrittenBlock(data, ops[0].key, ops[0].raw, b); }
      AppliedBlock(ApplyOp(data, ops[0]), ops[1..], b);
    }
  }

  /** Every block written lies within a file of `len` bytes. */
  predicate EndsWithin(ops: seq<LogOp>, len: nat) {
    forall op :: op in ops ==> op.BlockOp? && |op.raw| == BLOCK_SIZE ==> (op.key + 1) * 4096 <= len
  }

  lemma {:induction false} AppliedLength(data: seq<byte>, ops: seq<LogOp>)
    ensures EndsWithin(ops, |ApplyOps(data, ops)|) && |ApplyOps(data, ops)| >= |data|
    ensures EndsWithin(ops, |data|) ==> |ApplyOps(data, ops)| == |data|
    decreases |ops|
  {
    hide Written;
    if ops != [] {
      var next := ApplyOp(data, ops[0]);
      AppliedLength(next, ops[1..]);
      assert ops == [ops[0]] + ops[1..];
    }
  }

  lemma SameBlocksSameData(x: seq<byte>, y: seq<byte>)
    requires |x| == |y| && |x| % 4096 == 0 && forall b: nat :: BlockOf(x, b) == BlockOf(y, b)
    ensures x == y
  {
    forall i | 0 <= i < |x| ensures x[i] == y[i] {
      var b := i / 4096;
      assert (b + 1) * 4096 <= |x|;
      assert BlockOf(x, b)[i - b * 4096] == x[i] && BlockOf(y, b)[i - b * 4096] == y[i];
    }
  }

  /** Applying the same operations twice is applying them once. */
  lemma ApplyTwice(data: seq<byte>, ops: seq<LogOp>)
    requires |data| % 4096 == 0
    ensures ApplyOps(ApplyOps(data, ops), ops) == ApplyOps(data, ops)
  {
    hide BlockOf;
    var once := ApplyOps(data, ops);
    AppliedLength(data, ops);
    AppliedLength(once, ops);
    AppliedBlock(data, ops, 0);
    AppliedBlock(once, ops, 0);
    forall b: nat ensures BlockOf(ApplyOps(once, ops), b) == BlockOf(once, b) {
      AppliedBlock(data, ops, b);
      AppliedBlock(once, ops, b);
    }
    SameBlocksSameData(ApplyOps(once, ops), once);
  }

  /** No logged block lies in the journal area. */
  predicate SparesArea(ops: seq<LogOp>, blocks: nat) {
    forall op :: op in ops && op.BlockOp? && |op.raw| == BLOCK_SIZE ==> !(1 <= op.key <= blocks)
  }

  lemma {:induction false} AreaSpared(data: seq<byte>, ops: seq<LogOp>, blocks: nat)
    requires (1 + blocks) * 4096 <= |data| && SparesArea(ops, blocks)
    ensures (1 + blocks) * 4096 <= |ApplyOps(data, ops)| && AreaOf(ApplyOps(data, ops), blocks) == AreaOf(data, blocks)
    decreases |ops|
  {
    hide AreaOf;
    if ops != [] {
      OpSparesArea(data, ops[0], blocks);
      AreaSpared(ApplyOp(data, ops[0]), ops[1..], blocks);
    }
  }

  lemma OpSparesArea(data: seq<byte>, op: LogOp, blocks: nat)
    requires (1 + blocks) * 4096 <= |data|
    requires op.BlockOp? && |op.raw| == BLOCK_SIZE ==> !(1 <= op.key <= blocks)
    ensures (1 + blocks) * 4096 <= |ApplyOp(data, op)| && AreaOf(ApplyOp(data, op), blocks) == AreaOf(data, blocks)
  {
    var next := ApplyOp(data, op);
    forall i | 4096 <= i < (1 + blocks) * 4096 ensures next[i] == data[i] {}
  }

  /** A replay that stopped after any number of block writes is made good by another. */
  lemma ReplayAgain(data: seq<byte>, blocks: nat, committed: nat, k: nat)
    requires |data| % 4096 == 0 && (1 + blocks) * 4096 <= |data|
    requires k <= |Flat(Found(AreaOf(data, blocks), committed, 0))|
    requires SparesArea(Flat(Found(AreaOf(data, blocks), committed, 0)), blocks)
    ensures var part := ApplyOps(data, Flat(Found(AreaOf(data, blocks), committed, 0))[..k]);
      (1 + blocks) * 4096 <= |part| && Replayed(part, blocks, committed) == Replayed(data, blocks, committed)
  {
    hide AreaOf, ApplyOp, Found, Flat;
    var ops := Flat(Found(AreaOf(data, blocks), committed, 0));
    var first := ops[..k];
    var part := ApplyOps(data, first);
    assert ops == first + ops[k..];
    AreaSpared(data, first, blocks);
    ApplyConcat(part, first, ops[k..]);
    ApplyConcat(data, first, ops[k..]);
    ApplyTwice(data, first);
  }

  // --- reading back what was written -----------------------------------------------------------------

  /** An operation's fields, read back. */
  lemma OpReadBack(buf: seq<byte>, off: nat, op: LogOp)
    requires At(buf, off, OpBytes(op)) && op.Fits()
    ensures off + 16 + |op.raw| <= |buf| && |OpBytes(op)| == 16 + |op.raw|
    ensures GetU32(buf, off) == op.Code() && GetU64(buf, off + 4) == op.key && GetU32(buf, off + 12) == |op.raw|
    ensures buf[off + 16..off + 16 + |op.raw|] == op.raw
  {
    hide LeBytes, LeNat;
    var a, b, c := U32Bytes(op.Code()), U64Bytes(op.key), U32Bytes(|op.raw|);
    AtConcat(buf, off, a + b + c, op.raw);
    AtConcat(buf, off, a + b, c);
    AtConcat(buf, off, a, b);
    U32At(buf, off, op.Code());
    U64At(buf, off + 4, op.key);
    U32At(buf, off + 12, |op.raw|);
  }

  lemma OpParsed(buf: seq<byte>, begin: nat, seqNo: nat, off: nat, done: seq<LogOp>, op: LogOp)
    requires begin <= off && At(buf, off, OpBytes(op)) && op.Fits()
    ensures off + |OpBytes(op)| <= |buf|
    ensures ParseOps(buf, begin, seqNo, off, done) == ParseOps(buf, begin, seqNo, off + |OpBytes(op)|, done + [op])
  {
    hide GetU32, GetU64, Crc32;
    OpReadBack(buf, off, op);
  }

  lemma {:induction false} OpsReadBack(buf: seq<byte>, begin: nat, seqNo: nat, off: nat, done: seq<LogOp>, ops: seq<LogOp>)
    requires begin <= off && At(buf, off, OpsBytes(ops)) && forall op :: op in ops ==> op.Fits()
    ensures off + |OpsBytes(ops)| <= |buf|
    ensures ParseOps(buf, begin, seqNo, off, done) == ParseOps(buf, begin, seqNo, off + |OpsBytes(ops)|, done + ops)
    decreases |ops|
  {
    hide ParseOps, OpBytes;
    if ops == [] {
      assert done + ops == done;
    } else {
      AtConcat(buf, off, OpBytes(ops[0]), OpsBytes(ops[1..]));
      OpParsed(buf, begin, seqNo, off, done, ops[0]);
      OpsReadBack(buf, begin, seqNo, off + |OpBytes(ops[0])|, done + [ops[0]], ops[1..]);
      assert done + [ops[0]] + ops[1..] == done + ops;
    }
  }

  /** A whole transaction, read back from wherever it stands. */
  lemma TxReadBack(buf: seq<byte>, off: nat, tx: Tx, committed: nat)
    requires At(buf, off, TxBytes(tx)) && tx.Fits() && tx.seqNo <= committed
    ensures ParseTx(buf, committed, off) == Some(Parsed(tx.ops, off + |TxBytes(tx)|))
  {
    hide LeBytes, LeNat, OpsBytes, ParseOps, Crc32;
    var ops := OpsBytes(tx.ops);
    var sum := Crc32(TxSummed(tx));
    Crc32Bound(TxSummed(tx));
    var e := off + 16 + |ops|;
    AtConcat(buf, off, TxSummed(tx), U32Bytes(sum));
    AtConcat(buf, off, TxBody(tx) + U32Bytes(OP_COMMIT), U64Bytes(tx.seqNo));
    AtConcat(buf, off, TxBody(tx), U32Bytes(OP_COMMIT));
    AtConcat(buf, off, JMAGIC + U32Bytes(OP_BEGIN) + U64Bytes(tx.seqNo), ops);
    AtConcat(buf, off, JMAGIC + U32Bytes(OP_BEGIN), U64Bytes(tx.seqNo));
    AtConcat(buf, off, JMAGIC, U32Bytes(OP_BEGIN));
    U32At(buf, off + 4, OP_BEGIN);
    U64At(buf, off + 8, tx.seqNo);
    U32At(buf, e, OP_COMMIT);
    U64At(buf, e + 4, tx.seqNo);
    U32At(buf, e + 12, sum);
    OpsReadBack(buf, off, tx.seqNo, off + 16, [], tx.ops);
    assert [] + tx.ops == tx.ops;
    CommitRead(buf, off, tx.seqNo, e, tx.ops);
  }

  lemma CommitRead(buf: seq<byte>, begin: nat, seqNo: nat, e: nat, ops: seq<LogOp>)
    requires begin <= e && e + 16 <= |buf| && GetU32(buf, e) == OP_COMMIT && GetU64(buf, e + 4) == seqNo
    requires GetU32(buf, e + 12) == Crc32(buf[begin..e + 12])
    ensures ParseOps(buf, begin, seqNo, e, ops) == Some(Parsed(ops, e + 16))
  {
  }

  function OpsOf(txs: seq<Tx>): seq<seq<LogOp>> { seq(|txs|, i requires 0 <= i < |txs| => txs[i].ops) }

  /** The committed transactions come back in order, and then whatever parses behind them. */
  lemma {:induction false} LogReadBack(buf: seq<byte>, off: nat, txs: seq<Tx>, committed: nat)
    requires At(buf, off, LogBytes(txs)) && forall t :: t in txs ==> t.Fits() && t.seqNo <= committed
    ensures Found(buf, committed, off) == OpsOf(txs) + Found(buf, committed, off + |LogBytes(txs)|)
    decreases |txs|
  {
    hide ParseTx, TxBytes, Found, At, OpsOf;
    OpsOfSplit(txs);
    if txs == [] {
      assert [] + Found(buf, committed, off) == Found(buf, committed, off);
    } else {
      var mid := off + |TxBytes(txs[0])|;
      AtConcat(buf, off, TxBytes(txs[0]), LogBytes(txs[1..]));
      TxReadBack(buf, off, txs[0], committed);
      FoundStep(buf, committed, off, Parsed(txs[0].ops, mid));
      LogReadBack(buf, mid, txs[1..], committed);
      var rest := Found(buf, committed, off + |LogBytes(txs)|);
      assert [txs[0].ops] + (OpsOf(txs[1..]) + rest) == [txs[0].ops] + OpsOf(txs[1..]) + rest;
    }
  }

  lemma FoundStep(buf: seq<byte>, committed: nat, off: nat, p: Parsed)
    requires ParseTx(buf, committed, off) == Some(p)
    ensures Found(buf, committed, off) == [p.ops] + Found(buf, committed, p.end)
  {
  }

  lemma OpsOfSplit(txs: seq<Tx>)
    ensures OpsOf(txs) == if txs == [] then [] else [txs[0].ops] + OpsOf(txs[1..])
  {
  }

  /**
    Replay finds exactly the transactions logged since the head was last at the start, if and only if
    the bytes behind the head do not parse as one more.
  */
  lemma RecoversExactlyIff(area: seq<byte>, head: nat, txs: seq<Tx>, committed: nat)
    requires head <= |area| && area[..head] == LogBytes(txs)
    requires forall t :: t in txs ==> t.Fits() && t.seqNo <= committed
    ensures Found(area, committed, 0) == OpsOf(txs) <==> ParseTx(area, committed, head).None?
  {
    hide ParseTx, LogBytes;
    assert area[0..head] == area[..head];
    LogReadBack(area, 0, txs, committed);
  }

  /** A log written from the start into an area of zeros, without wrapping, is recovered exactly. */
  lemma FreshLogRecovered(area: seq<byte>, head: nat, txs: seq<Tx>, committed: nat)
    requires head <= |area| && area[..head] == LogBytes(txs) && ZeroFrom(area, head)
    requires forall t :: t in txs ==> t.Fits() && t.seqNo <= committed
    ensures Found(area, committed, 0) == OpsOf(txs)
  {
    RecoversExactlyIff(area, head, txs, committed);
    if head + 16 <= |area| { assert area[head..head + 4][0] == 0; }
  }

  /** The same of a log at any time: what the last commit left behind the head decides, wrapped or not. */
  lemma LogRecoveredIff(image: Image, log: Log)
    requires log.Valid(image) && forall t :: t in log.txs ==> t.Fits()
    ensures var area := AreaOf(image.data, log.blocks);
      && (Found(area, log.seqNo, 0) == OpsOf(log.txs) <==> ParseTx(area, log.seqNo, log.head).None?)
      && (log.unwrapped ==> Found(area, log.seqNo, 0) == OpsOf(log.txs))
  {
    hide ParseTx, LogBytes, AreaOf, ZeroFrom, Found;
    var area := AreaOf(image.data, log.blocks);
    RecoversExactlyIff(area, log.head, log.txs, log.seqNo);
    if log.unwrapped { FreshLogRecovered(area, log.head, log.txs, log.seqNo); }
  }

  /**
    After a wrap the old records stay. When the new record ends where an old one starts, replay applies
    the old transaction after the new one, although it was committed before.
  */
  lemma StaleAfterWrap(area: seq<byte>, recent: Tx, stale: Tx, committed: nat)
    requires recent.Fits() && stale.Fits() && stale.seqNo < recent.seqNo <= committed
    requires At(area, 0, TxBytes(recent) + TxBytes(stale))
    ensures var found := Found(area, committed, 0); |found| >= 2 && found[0] == recent.ops && found[1] == stale.ops
  {
    hide ParseTx, TxBytes;
    AtConcat(area, 0, TxBytes(recent), TxBytes(stale));
    TxReadBack(area, 0, recent, committed);
    TxReadBack(area, |TxBytes(recent)|, stale, committed);
  }
}
