/**
  What replay lets through: exactly the bytes of written transactions, each under its checksum, and nothing
  from a damaged record on.
*/
module JournalLaws {
  import opened Wrappers
  import opened Format
  import opened Store
  import opened Crc
  import opened Journal

  // --- what parses was written -----------------------------------------------------------------

  lemma Put32(s: seq<byte>, off: nat)
    requires off + 4 <= |s|
    ensures U32Bytes(GetU32(s, off)) == s[off..off + 4]
  {
    LeRoundTripBytes(s[off..off + 4]);
  }

  lemma Put64(s: seq<byte>, off: nat)
    requires off + 8 <= |s|
    ensures U64Bytes(GetU64(s, off)) == s[off..off + 8]
  {
    LeRoundTripBytes(s[off..off + 8]);
  }

  /** The operation whose code, key and length stand at `off`. */
  lemma OpStands(buf: seq<byte>, off: nat, op: LogOp)
    requires off + 16 + |op.raw| <= |buf| && GetU32(buf, off) == op.Code() && GetU64(buf, off + 4) == op.key
    requires GetU32(buf, off + 12) == |op.raw| && buf[off + 16..off + 16 + |op.raw|] == op.raw
    ensures At(buf, off, OpBytes(op)) && |OpBytes(op)| == 16 + |op.raw| && op.Fits()
  {
    hide LeBytes, LeNat, At, GetU32, GetU64;
    Put32(buf, off);
    Put64(buf, off + 4);
    Put32(buf, off + 12);
    var a, b, c := U32Bytes(op.Code()), U64Bytes(op.key), U32Bytes(|op.raw|);
    AtSlice(buf, off, a);
    AtSlice(buf, off + 4, b);
    AtSlice(buf, off + 12, c);
    AtSlice(buf, off + 16, op.raw);
    AtConcat(buf, off, a, b);
    AtConcat(buf, off, a + b, c);
    AtConcat(buf, off, a + b + c, op.raw);
  }

  lemma AtSlice(buf: seq<byte>, off: nat, part: seq<byte>)
    requires off + |part| <= |buf| && buf[off..off + |part|] == part
    ensures At(buf, off, part)
  {
  }

  /** What stands in front of a commit record that parsed, and the commit record. */
  ghost predicate Committed(buf: seq<byte>, begin: nat, seqNo: nat, off: nat, ops: seq<LogOp>, end: nat) {
    && (forall op :: op in ops ==> op.Fits())
    && At(buf, off, OpsBytes(ops)) && end == off + |OpsBytes(ops)| + 16 <= |buf| && begin <= off
    && GetU32(buf, end - 16) == OP_COMMIT && GetU64(buf, end - 12) == seqNo
    && GetU32(buf, end - 4) == Crc32(buf[begin..end - 4])
  }

  lemma {:induction false} ParsedOps(buf: seq<byte>, begin: nat, seqNo: nat, off: nat, done: seq<LogOp>) returns (ops: seq<LogOp>)
    requires begin <= off <= |buf| && ParseOps(buf, begin, seqNo, off, done).Some?
    ensures var p := ParseOps(buf, begin, seqNo, off, done).value; p.ops == done + ops && Committed(buf, begin, seqNo, off, ops, p.end)
    decreases |buf| - off
  {
    hide GetU32, GetU64, Crc32, At, OpBytes;
    if GetU32(buf, off) == OP_COMMIT {
      ops := [];
      AtNothing(buf, off);
    } else {
      var n := GetU32(buf, off + 12);
      var raw := buf[off + 16..off + 16 + n];
      var op := if GetU32(buf, off) == OP_INODE then InodeOp(GetU64(buf, off + 4), raw) else BlockOp(GetU64(buf, off + 4), raw);
      OpStands(buf, off, op);
      var rest := ParsedOps(buf, begin, seqNo, off + 16 + n, done + [op]);
      ops := [op] + rest;
      AtConcat(buf, off, OpBytes(op), OpsBytes(rest));
      assert ops[1..] == rest && done + [op] + rest == done + ops;
    }
  }

  lemma AtNothing(buf: seq<byte>, off: nat)
    requires off <= |buf|
    ensures OpsBytes([]) == [] && At(buf, off, [])
  {
  }

  /** A transaction stands whole at `off`, fits the log's fields, and is numbered up to `committed`. */
  predicate Stands(buf: seq<byte>, committed: nat, off: nat, tx: Tx) {
    tx.Fits() && tx.seqNo <= committed && At(buf, off, TxBytes(tx))
  }

  lemma {:induction false} ParsedTx(buf: seq<byte>, committed: nat, off: nat) returns (tx: Tx)
    requires ParseTx(buf, committed, off).Some?
    ensures Stands(buf, committed, off, tx) && ParseTx(buf, committed, off) == Some(Parsed(tx.ops, off + |TxBytes(tx)|))
  {
    hide GetU32, GetU64, Crc32, At, ParseOps, OpsBytes, LeBytes;
    var seqNo := GetU64(buf, off + 8);
    var ops := ParsedOps(buf, off, seqNo, off + 16, []);
    tx := Tx(seqNo, ops);
    assert [] + ops == ops;
    var e := off + 16 + |OpsBytes(ops)|;
    HeadStands(buf, off, seqNo, OpsBytes(ops));
    TailStands(buf, off, tx, e);
  }

  lemma HeadStands(buf: seq<byte>, off: nat, seqNo: nat, ops: seq<byte>)
    requires off + 16 <= |buf| && buf[off..off + 4] == JMAGIC && GetU32(buf, off + 4) == OP_BEGIN && GetU64(buf, off + 8) == seqNo
    requires At(buf, off + 16, ops)
    ensures At(buf, off, JMAGIC + U32Bytes(OP_BEGIN) + U64Bytes(seqNo) + ops)
  {
    hide LeBytes, LeNat, At, GetU32, GetU64;
    Put32(buf, off + 4);
    Put64(buf, off + 8);
    AtSlice(buf, off, JMAGIC);
    AtSlice(buf, off + 4, U32Bytes(OP_BEGIN));
    AtSlice(buf, off + 8, U64Bytes(seqNo));
    AtConcat(buf, off, JMAGIC, U32Bytes(OP_BEGIN));
    AtConcat(buf, off, JMAGIC + U32Bytes(OP_BEGIN), U64Bytes(seqNo));
    AtConcat(buf, off, JMAGIC + U32Bytes(OP_BEGIN) + U64Bytes(seqNo), ops);
  }

  lemma TailStands(buf: seq<byte>, off: nat, tx: Tx, e: nat)
    requires At(buf, off, TxBody(tx)) && e == off + |TxBody(tx)| && e + 16 <= |buf|
    requires GetU32(buf, e) == OP_COMMIT && GetU64(buf, e + 4) == tx.seqNo && GetU32(buf, e + 12) == Crc32(buf[off..e + 12])
    ensures At(buf, off, TxBytes(tx)) && |TxBytes(tx)| == |TxBody(tx)| + 16
  {
    hide LeBytes, LeNat, At, GetU32, GetU64, TxBody, Crc32;
    Put32(buf, e);
    Put64(buf, e + 4);
    Put32(buf, e + 12);
    var body := TxBody(tx);
    AtSlice(buf, e, U32Bytes(OP_COMMIT));
    AtSlice(buf, e + 4, U64Bytes(tx.seqNo));
    AtConcat(buf, off, body, U32Bytes(OP_COMMIT));
    AtConcat(buf, off, body + U32Bytes(OP_COMMIT), U64Bytes(tx.seqNo));
    AtIs(buf, off, TxSummed(tx));
    AtSlice(buf, e + 12, U32Bytes(Crc32(TxSummed(tx))));
    AtConcat(buf, off, TxSummed(tx), U32Bytes(Crc32(TxSummed(tx))));
  }

  lemma AtIs(buf: seq<byte>, off: nat, part: seq<byte>)
    requires At(buf, off, part)
    ensures off + |part| <= |buf| && buf[off..off + |part|] == part
  {
  }

  /** A transaction parses exactly where one was written, and as that one. */
  lemma ParsesIffWritten(buf: seq<byte>, committed: nat, off: nat)
    ensures ParseTx(buf, committed, off).Some? <==> exists tx: Tx :: Stands(buf, committed, off, tx)
    ensures forall tx: Tx :: Stands(buf, committed, off, tx) ==>
      ParseTx(buf, committed, off) == Some(Parsed(tx.ops, off + |TxBytes(tx)|))
  {
    hide ParseTx, TxBytes, At;
    if ParseTx(buf, committed, off).Some? { var tx := ParsedTx(buf, committed, off); }
    forall tx: Tx | Stands(buf, committed, off, tx) ensures ParseTx(buf, committed, off) == Some(Parsed(tx.ops, off + |TxBytes(tx)|)) {
      TxReadBack(buf, off, tx, committed);
    }
  }

  /** On any bytes: replay finds the longest log of written transactions that stands there. */
  lemma {:induction false} FoundWasWritten(buf: seq<byte>, committed: nat, off: nat) returns (txs: seq<Tx>, end: nat)
    requires off <= |buf|
    ensures Found(buf, committed, off) == OpsOf(txs) && At(buf, off, LogBytes(txs)) && end == off + |LogBytes(txs)|
    ensures forall t :: t in txs ==> t.Fits() && t.seqNo <= committed
    ensures forall tx: Tx :: !Stands(buf, committed, end, tx)
    decreases |buf| - off
  {
    hide ParseTx, TxBytes, Found, At, OpsOf;
    ParsesIffWritten(buf, committed, off);
    if ParseTx(buf, committed, off).None? {
      txs, end := [], off;
      FoundNone(buf, committed, off);
      OpsOfSplit(txs);
      AtNothing(buf, off);
    } else {
      var tx := ParsedTx(buf, committed, off);
      var mid := off + |TxBytes(tx)|;
      FoundStep(buf, committed, off, Parsed(tx.ops, mid));
      ParsedFurther(buf, committed, off);
      var rest;
      rest, end := FoundWasWritten(buf, committed, mid);
      txs := [tx] + rest;
      assert txs[0] == tx && txs[1..] == rest;
      OpsOfSplit(txs);
      AtConcat(buf, off, TxBytes(tx), LogBytes(rest));
    }
  }

  lemma FoundNone(buf: seq<byte>, committed: nat, off: nat)
    requires ParseTx(buf, committed, off).None?
    ensures Found(buf, committed, off) == []
  {
  }

  lemma ParsedFurther(buf: seq<byte>, committed: nat, off: nat)
    requires ParseTx(buf, committed, off).Some?
    ensures off < ParseTx(buf, committed, off).value.end <= |buf|
  {
  }

  // --- the checksum --------------------------------------------------------------------------------

  /**
    A record from `off` to `end`: the magic, a number from 1 to `committed` that stands at both ends, and in
    its last four bytes the checksum of all the others.
  */
  predicate Sealed(buf: seq<byte>, committed: nat, off: nat, end: nat) {
    && off + 32 <= end <= |buf| && buf[off..off + 4] == [74, 82, 78, 76]
    && 1 <= GetU64(buf, off + 8) <= committed && GetU64(buf, end - 12) == GetU64(buf, off + 8)
    && GetU32(buf, end - 4) == Crc32(buf[off..end - 4])
  }

  /** Nothing parses that is not sealed. */
  lemma ParsedIsSealed(buf: seq<byte>, committed: nat, off: nat)
    requires ParseTx(buf, committed, off).Some?
    ensures Sealed(buf, committed, off, ParseTx(buf, committed, off).value.end)
  {
    hide GetU32, GetU64, Crc32, At, ParseOps, OpsBytes, LeBytes;
    var ops := ParsedOps(buf, off, GetU64(buf, off + 8), off + 16, []);
  }

  /** What is written is sealed. */
  lemma TxIsSealed(tx: Tx)
    requires tx.Fits()
    ensures Sealed(TxBytes(tx), tx.seqNo, 0, |TxBytes(tx)|)
  {
    hide TxBytes, ParseTx, Sealed;
    AtWhole(TxBytes(tx));
    TxReadBack(TxBytes(tx), 0, tx, tx.seqNo);
    ParsedIsSealed(TxBytes(tx), tx.seqNo, 0);
  }

  lemma AtWhole(buf: seq<byte>)
    ensures At(buf, 0, buf)
  {
  }

  // --- damage ----------------------------------------------------------------------------------------

  lemma {:induction false} OpsBytesConcat(a: seq<LogOp>, b: seq<LogOp>)
    ensures OpsBytes(a + b) == OpsBytes(a) + OpsBytes(b)
    decreases |a|
  {
    hide OpBytes;
    if a == [] {
      assert a + b == b;
    } else {
      assert (a + b)[1..] == a[1..] + b;
      OpsBytesConcat(a[1..], b);
    }
  }

  /** A transaction one of whose operations writes `raw` to block `key`. */
  function Writing(seqNo: nat, front: seq<LogOp>, key: nat, raw: seq<byte>, back: seq<LogOp>): Tx {
    Tx(seqNo, front + [BlockOp(key, raw)] + back)
  }

  /** Its bytes before the block's data, which depend on the length of the data alone. */
  function BeforeData(seqNo: nat, front: seq<LogOp>, key: nat, n: nat): seq<byte> {
    JMAGIC + U32Bytes(OP_BEGIN) + U64Bytes(seqNo) + OpsBytes(front) + (U32Bytes(OP_BLOCK) + U64Bytes(key) + U32Bytes(n))
  }

  function BehindData(seqNo: nat, back: seq<LogOp>): seq<byte> { OpsBytes(back) + U32Bytes(OP_COMMIT) + U64Bytes(seqNo) }

  lemma SummedAround(seqNo: nat, front: seq<LogOp>, key: nat, raw: seq<byte>, back: seq<LogOp>)
    ensures TxSummed(Writing(seqNo, front, key, raw, back)) == BeforeData(seqNo, front, key, |raw|) + raw + BehindData(seqNo, back)
  {
    hide LeBytes, OpsBytes;
    var op := BlockOp(key, raw);
    OpsBytesConcat(front + [op], back);
    OpsBytesSnoc(front, op);
    var head := JMAGIC + U32Bytes(OP_BEGIN) + U64Bytes(seqNo);
    var o := U32Bytes(OP_BLOCK) + U64Bytes(key) + U32Bytes(|raw|);
    assert OpBytes(op) == o + raw;
    assert TxBody(Writing(seqNo, front, key, raw, back)) == head + (OpsBytes(front) + (o + raw) + OpsBytes(back));
    assert head + (OpsBytes(front) + (o + raw) + OpsBytes(back)) == head + OpsBytes(front) + o + raw + OpsBytes(back);
  }

  /** A change of at most four bytes of the data changes the checksum. */
  lemma DataBurst(seqNo: nat, front: seq<LogOp>, key: nat, a: seq<byte>, u: seq<byte>, v: seq<byte>, b: seq<byte>, back: seq<LogOp>)
    requires |u| == |v| <= 4 && u != v
    ensures Crc32(TxSummed(Writing(seqNo, front, key, a + u + b, back))) != Crc32(TxSummed(Writing(seqNo, front, key, a + v + b, back)))
  {
    hide Crc32, TxSummed, BeforeData, BehindData;
    SummedAround(seqNo, front, key, a + u + b, back);
    SummedAround(seqNo, front, key, a + v + b, back);
    var head, tail := BeforeData(seqNo, front, key, |a + u + b|), BehindData(seqNo, back);
    assert head + (a + u + b) + tail == (head + a) + u + (b + tail);
    assert head + (a + v + b) + tail == (head + a) + v + (b + tail);
    BurstDetected(head + a, u, v, b + tail);
  }

  /** A record as it was written, but for the bytes of one transaction under the checksum of another. */
  function Damaged(now: Tx, was: Tx): seq<byte> { TxSummed(now) + U32Bytes(Crc32(TxSummed(was))) }

  lemma DamagedNotParsed(buf: seq<byte>, committed: nat, off: nat, now: Tx, was: Tx)
    requires now.Fits() && At(buf, off, Damaged(now, was)) && Crc32(TxSummed(now)) != Crc32(TxSummed(was))
    ensures ParseTx(buf, committed, off) == None
  {
    hide LeBytes, LeNat, OpsBytes, ParseOps, Crc32;
    var ops, sum := OpsBytes(now.ops), Crc32(TxSummed(was));
    Crc32Bound(TxSummed(was));
    var e := off + 16 + |ops|;
    AtConcat(buf, off, TxSummed(now), U32Bytes(sum));
    AtConcat(buf, off, TxBody(now) + U32Bytes(OP_COMMIT), U64Bytes(now.seqNo));
    AtConcat(buf, off, TxBody(now), U32Bytes(OP_COMMIT));
    AtConcat(buf, off, JMAGIC + U32Bytes(OP_BEGIN) + U64Bytes(now.seqNo), ops);
    AtConcat(buf, off, JMAGIC + U32Bytes(OP_BEGIN), U64Bytes(now.seqNo));
    U64At(buf, off + 8, now.seqNo);
    U32At(buf, e, OP_COMMIT);
    U32At(buf, e + 12, sum);
    OpsReadBack(buf, off, now.seqNo, off + 16, [], now.ops);
    BadSum(buf, off, now.seqNo, e, [] + now.ops);
  }

  lemma BadSum(buf: seq<byte>, begin: nat, seqNo: nat, e: nat, ops: seq<LogOp>)
    requires begin <= e && e + 16 <= |buf| && GetU32(buf, e) == OP_COMMIT && GetU32(buf, e + 12) != Crc32(buf[begin..e + 12])
    ensures ParseOps(buf, begin, seqNo, e, ops) == None
  {
  }

  /**
    A log whose next record had up to four consecutive bytes of a block's data changed after it was written:
    replay finds the transactions in front of it and stops there.
  */
  lemma DamageStopsReplay(area: seq<byte>, committed: nat, good: seq<Tx>, seqNo: nat, front: seq<LogOp>, key: nat,
                          a: seq<byte>, u: seq<byte>, v: seq<byte>, b: seq<byte>, back: seq<LogOp>)
    requires forall t :: t in good ==> t.Fits() && t.seqNo <= committed
    requires Writing(seqNo, front, key, a + u + b, back).Fits() && |u| == |v| <= 4 && u != v
    requires At(area, 0, LogBytes(good)
      + Damaged(Writing(seqNo, front, key, a + v + b, back), Writing(seqNo, front, key, a + u + b, back)))
    ensures Found(area, committed, 0) == OpsOf(good)
  {
    hide LogBytes, Damaged, Writing, Crc32, ParseTx, Found, At;
    var was, now := Writing(seqNo, front, key, a + u + b, back), Writing(seqNo, front, key, a + v + b, back);
    AtConcat(area, 0, LogBytes(good), Damaged(now, was));
    DataBurst(seqNo, front, key, a, u, v, b, back);
    WritingFits(seqNo, front, key, a + u + b, a + v + b, back);
    DamagedNotParsed(area, committed, |LogBytes(good)|, now, was);
    LogReadBack(area, 0, good, committed);
    FoundNone(area, committed, |LogBytes(good)|);
    assert OpsOf(good) + [] == OpsOf(good);
  }

  lemma WritingFits(seqNo: nat, front: seq<LogOp>, key: nat, raw: seq<byte>, other: seq<byte>, back: seq<LogOp>)
    requires Writing(seqNo, front, key, raw, back).Fits() && |other| == |raw|
    ensures Writing(seqNo, front, key, other, back).Fits()
  {
    var ops := front + [BlockOp(key, raw)] + back;
    assert ops[|front|] == BlockOp(key, raw) && BlockOp(key, raw).Fits();
    forall op | op in Writing(seqNo, front, key, other, back).ops ensures op.Fits() {
      assert op in front || op in back || op == BlockOp(key, other);
      if op in front || op in back { assert op in ops; }
    }
  }

  /** The same of the image: the damaged transaction and all behind it leave no trace. */
  lemma DamagedReplay(data: seq<byte>, blocks: nat, committed: nat, good: seq<Tx>, seqNo: nat, front: seq<LogOp>, key: nat,
                      a: seq<byte>, u: seq<byte>, v: seq<byte>, b: seq<byte>, back: seq<LogOp>)
    requires (1 + blocks) * 4096 <= |data| && forall t :: t in good ==> t.Fits() && t.seqNo <= committed
    requires Writing(seqNo, front, key, a + u + b, back).Fits() && |u| == |v| <= 4 && u != v
    requires At(AreaOf(data, blocks), 0, LogBytes(good)
      + Damaged(Writing(seqNo, front, key, a + v + b, back), Writing(seqNo, front, key, a + u + b, back)))
    ensures Replayed(data, blocks, committed) == ApplyOps(data, Flat(OpsOf(good)))
  {
    hide LogBytes, Damaged, Writing, Found, At, AreaOf, ApplyOps, Flat;
    DamageStopsReplay(AreaOf(data, blocks), committed, good, seqNo, front, key, a, u, v, b, back);
  }
}
