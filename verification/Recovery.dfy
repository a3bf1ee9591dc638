/** Whole sessions of src/journal.rs: operations logged and committed, a crash, and the replay that follows. */
module Recovery {
  import opened Wrappers
  import opened Format
  import opened Store
  import opened Crc
  import opened Journal

  /** The lists of operations as transactions, numbered from `seqNo + 1` on. */
  function Numbered(seqNo: nat, lists: seq<seq<LogOp>>): (txs: seq<Tx>)
    ensures |txs| == |lists| && forall i :: 0 <= i < |txs| ==> txs[i] == Tx(seqNo + 1 + i, lists[i])
  {
    seq(|lists|, i requires 0 <= i < |lists| => Tx(seqNo + 1 + i, lists[i]))
  }

  /** Log one transaction: begin, write each operation, commit. */
  method LogOps(image: Image, log: Log, sb: Marks, ops: seq<LogOp>) returns (r: Result<()>)
    requires log.Valid(image)
    modifies image, log, sb
    ensures log.Valid(image) && log.seqNo == old(log.seqNo) + 1
    ensures var t := Tx(log.seqNo, ops); var rec := TxBytes(t);
      && r == (if |rec| + 8 > log.blocks * 4096 then Err(EIO) else Ok(()))
      && (r.Ok? ==>
            var wraps := old(log.head) + |rec| + 8 > log.blocks * 4096;
            && log.txs == (if wraps then [] else old(log.txs)) + [t]
            && log.unwrapped == (old(log.unwrapped) && !wraps)
            && log.head == (if wraps then 0 else old(log.head)) + |rec|
            && |image.data| == |old(image.data)|
            && image.data == Splice(old(image.data), 4096 + log.head - |rec|, rec)
            && sb.committed == log.seqNo)
  {
    hide TxBytes, TxBody, LogBytes, AreaOf, ZeroFrom;
    var tx := log.Begin();
    for k := 0 to |ops|
      invariant tx.Valid() && tx.seqNo == log.seqNo && tx.ops == ops[..k]
      modifies tx
    {
      match ops[k] {
        case InodeOp(ino, raw) => tx.WriteInode(ino, raw);
        case BlockOp(block, data) => tx.WriteBlock(block, data);
      }
      assert ops[..k + 1] == ops[..k] + [ops[k]];
    }
    assert ops[..|ops|] == ops;
    r := log.Commit(image, sb, tx);
  }

  lemma {:induction false} LogBytesMono(txs: seq<Tx>, k: nat)
    requires k <= |txs|
    ensures |LogBytes(txs[..k])| <= |LogBytes(txs)|
    decreases |txs| - k
  {
    if k < |txs| {
      assert txs[..k + 1] == txs[..k] + [txs[k]];
      LogBytesSnoc(txs[..k], txs[k]);
      LogBytesMono(txs, k + 1);
    } else {
      assert txs[..k] == txs;
    }
  }

  /**
    A whole session: any lists of operations logged one after the other into a new log large enough for them, a
    crash, and a replay. Replay counts them all, and the image is the fold of their block writes in order.
  */
  method Session(image: Image, log: Log, sb: Marks, lists: seq<seq<LogOp>>) returns (r: Result<nat>)
    requires log.Valid(image) && log.head == 0 && log.txs == [] && log.unwrapped
    requires |LogBytes(Numbered(log.seqNo, lists))| + 8 <= log.blocks * 4096
    requires log.seqNo + |lists| < U64 && forall ops, op :: ops in lists && op in ops ==> op.Fits()
    modifies image, log, sb
    ensures r == Ok(|lists|)
    ensures var logged := Splice(old(image.data), 4096, LogBytes(Numbered(old(log.seqNo), lists)));
      image.data == ApplyOps(logged, Flat(lists))
  {
    hide TxBytes, LogBytes, AreaOf, ZeroFrom, Found, ApplyOps;
    ghost var seq0, data0 := log.seqNo, image.data;
    ghost var txs := Numbered(seq0, lists);
    EmptyLog();
    for k := 0 to |lists|
      invariant log.Valid(image) && log.unwrapped && log.seqNo == seq0 + k && log.txs == txs[..k]
      invariant |image.data| == |data0| && log.head == |LogBytes(txs[..k])|
      invariant k > 0 ==> sb.committed == log.seqNo
      invariant image.data == Splice(data0, 4096, LogBytes(txs[..k]))
    {
      assert txs[..k + 1] == txs[..k] + [txs[k]];
      LogBytesSnoc(txs[..k], txs[k]);
      LogBytesMono(txs, k + 1);
      var done := LogOps(image, log, sb, lists[k]);
      assert image.data == Splice(data0, 4096, LogBytes(txs[..k + 1]));
    }
    assert txs[..|lists|] == txs;
    LogRecoveredIff(image, log);
    if lists == [] { FreshLogRecovered(AreaOf(image.data, log.blocks), 0, [], sb.committed); }
    assert OpsOf(txs) == lists;
    r := Replay(image, log.blocks, sb.committed);
  }

  // --- a log that wraps ------------------------------------------------------------------------

  lemma NewArea(blocks: nat)
    ensures ZeroFrom(AreaOf(Zeros((1 + blocks) * 4096), blocks), 0)
  {
  }

  lemma TwoLogged(a: Tx, b: Tx)
    ensures LogBytes([a, b]) == TxBytes(a) + TxBytes(b) && OpsOf([a, b]) == [a.ops, b.ops]
  {
    hide TxBytes;
    EmptyLog();
    LogBytesSnoc([], a);
    LogBytesSnoc([a], b);
    assert [] + [a] == [a] && [a] + [b] == [a, b];
  }

  /** Of two transactions that each write one block over and over, the one replayed last decides. */
  lemma LastOfTwo(data: seq<byte>, a: LogOp, b: LogOp, block: nat)
    requires |data| % 4096 == 0 && b.BlockOp? && |b.raw| == BLOCK_SIZE && b.key == block
    ensures BlockOf(ApplyOps(data, Flat([[a, a, a], [b, b, b]])), block) == b.raw
  {
    hide BlockOf, ApplyOps;
    FlatSnoc([], [a, a, a]);
    FlatSnoc([[a, a, a]], [b, b, b]);
    assert [] + [[a, a, a]] == [[a, a, a]] && [[a, a, a]] + [[b, b, b]] == [[a, a, a], [b, b, b]];
    var front := [a, a, a] + [b, b];
    assert Flat([[a, a, a], [b, b, b]]) == front + [b];
    ApplyConcat(data, front, [b]);
    AppliedBlock(data, front, block);
    assert [b][1..] == [];
    AppliedBlock(ApplyOps(data, front), [b], block);
    assert LastWrite([b], block) == Some(b.raw);
  }

  lemma ThreeBlocksLength(seqNo: nat, block: nat, data: Block)
    ensures var w := BlockOp(block, data); |TxBytes(Tx(seqNo, [w, w, w]))| == 12368
  {
    hide LeBytes, Crc32;
    var w := BlockOp(block, data);
    assert |OpBytes(w)| == 4112;
    OpsBytesSnoc([w, w], w);
    OpsBytesSnoc([w], w);
    OpsBytesSnoc([], w);
    assert [] + [w] == [w] && [w] + [w] == [w, w] && [w, w] + [w] == [w, w, w];
    assert OpsBytes([]) == [];
  }

  /** The third of three records of one length has gone over the first, and the second is still behind it. */
  lemma ThirdOverFirst(data: seq<byte>, a: seq<byte>, b: seq<byte>, c: seq<byte>, blocks: nat)
    requires (1 + blocks) * 4096 <= |data| && |a| == |b| == |c| && |a| + |b| <= blocks * 4096
    requires ZeroFrom(AreaOf(data, blocks), 0)
    ensures var area := AreaOf(Splice(Splice(Splice(data, 4096, a), 4096 + |a|, b), 4096, c), blocks);
      area[..|c| + |b|] == c + b && ZeroFrom(area, |c| + |b|)
  {
    hide Splice;
    var d1 := Splice(data, 4096, a);
    var d2 := Splice(d1, 4096 + |a|, b);
    var d3 := Splice(d2, 4096, c);
    var area := AreaOf(d3, blocks);
    forall i | 0 <= i < |c| + |b| ensures area[i] == (c + b)[i] { assert area[i] == d3[4096 + i]; }
    forall i | |c| + |b| <= i < |area| ensures area[i] == 0 {
      assert area[i] == d3[4096 + i] == data[4096 + i] == AreaOf(data, blocks)[i];
    }
  }

  /**
    Three transactions, each writing one block of the image three times, committed into the smallest log: the third
    wraps, and a replay puts back what the second wrote although the third was committed after it.
  */
  method WrapThenReplay(block: nat, first: Block, second: Block, third: Block) returns (r: Result<nat>, image: Image)
    requires 8 < block < U64
    ensures r == Ok(2) && BlockOf(image.data, block) == second
    ensures fresh(image)
  {
    hide TxBytes, LogBytes, AreaOf, ZeroFrom, Found, ApplyOps, Splice, LastWrite;
    image := new Image(9);
    ghost var data0 := image.data;
    NewArea(8);
    EmptyLog();
    var log := new Log(image, 8, 0, 0, []);
    var sb := new Marks();
    var w1, w2, w3 := BlockOp(block, first), BlockOp(block, second), BlockOp(block, third);
    ghost var t2, t3 := Tx(2, [w2, w2, w2]), Tx(3, [w3, w3, w3]);
    ThreeBlocksLength(1, block, first);
    ThreeBlocksLength(2, block, second);
    ThreeBlocksLength(3, block, third);
    var done1 := LogOps(image, log, sb, [w1, w1, w1]);
    var done2 := LogOps(image, log, sb, [w2, w2, w2]);
    var done3 := LogOps(image, log, sb, [w3, w3, w3]);
    ThirdOverFirst(data0, TxBytes(Tx(1, [w1, w1, w1])), TxBytes(t2), TxBytes(t3), 8);
    TwoLogged(t3, t2);
    assert w2.Fits() && w3.Fits();
    FreshLogRecovered(AreaOf(image.data, 8), 24736, [t3, t2], 3);
    ghost var logged := image.data;
    r := Replay(image, 8, sb.committed);
    LastOfTwo(logged, w3, w2, block);
  }
}
