/** The table-driven CRC-32 of src/crc.rs. A u32 is a natural number below 2^32 and `^` is `Xor`. */
module Crc {
  import opened Format

  function Pow2(n: nat): (p: nat)
    ensures p > 0
  {
    if n == 0 then 1 else 2 * Pow2(n - 1)
  }

  /** Bitwise exclusive or. */
  function Xor(a: nat, b: nat): nat {
    if a == 0 then b else if b == 0 then a else (if a % 2 == b % 2 then 0 else 1) + 2 * Xor(a / 2, b / 2)
  }

  function Bit(a: nat, k: nat): nat { if k == 0 then a % 2 else Bit(a / 2, k - 1) }

  lemma {:induction false} XorStep(a: nat, b: nat)
    ensures Xor(a, b) % 2 == (if a % 2 == b % 2 then 0 else 1) && Xor(a, b) / 2 == Xor(a / 2, b / 2)
  {
    if a > 0 && b > 0 {
      var x, d := Xor(a / 2, b / 2), if a % 2 == b % 2 then 0 else 1;
      assert Xor(a, b) == d + 2 * x;
    }
  }

  lemma SameHalves(a: nat, b: nat)
    requires a % 2 == b % 2 && a / 2 == b / 2
    ensures a == b
  {
  }

  /** Each bit of the result is set exactly when the operands' bits differ. */
  lemma {:induction false} XorIsBitwise(a: nat, b: nat, k: nat)
    ensures Bit(Xor(a, b), k) == if Bit(a, k) != Bit(b, k) then 1 else 0
    decreases k
  {
    XorStep(a, b);
    if k > 0 { XorIsBitwise(a / 2, b / 2, k - 1); }
  }

  lemma {:induction false} XorComm(a: nat, b: nat)
    ensures Xor(a, b) == Xor(b, a)
  {
    if a > 0 && b > 0 { XorComm(a / 2, b / 2); }
  }

  lemma {:induction false} XorAssoc(a: nat, b: nat, c: nat)
    ensures Xor(Xor(a, b), c) == Xor(a, Xor(b, c))
    decreases a + b + c
  {
    if a > 0 && b > 0 && c > 0 {
      XorAssoc(a / 2, b / 2, c / 2);
      XorStep(a, b);
      XorStep(b, c);
      XorStep(Xor(a, b), c);
      XorStep(a, Xor(b, c));
      SameHalves(Xor(Xor(a, b), c), Xor(a, Xor(b, c)));
    }
  }

  lemma {:induction false} XorSelf(a: nat)
    ensures Xor(a, a) == 0
  {
    if a > 0 { XorSelf(a / 2); }
  }

  lemma {:induction false} XorBound(a: nat, b: nat, n: nat)
    requires a < Pow2(n) && b < Pow2(n)
    ensures Xor(a, b) < Pow2(n)
  {
    if a > 0 && b > 0 { XorBound(a / 2, b / 2, n - 1); }
  }

  /** `Xor` with a fixed operand is its own inverse. */
  lemma XorCancel(a: nat, b: nat)
    ensures Xor(Xor(a, b), b) == a
  {
    XorAssoc(a, b, b);
    XorSelf(b);
  }

  const POLY: nat := 0xEDB8_8320
  const ONES: nat := 0xFFFF_FFFF

  lemma Pow2Widths()
    ensures Pow2(8) == 256 && Pow2(24) == 0x100_0000 && Pow2(31) == 0x8000_0000 && Pow2(32) == U32
  {
    assert Pow2(2) == 4 && Pow2(4) == 16 && Pow2(6) == 64 && Pow2(8) == 256;
    assert Pow2(10) == 1024 && Pow2(12) == 4096 && Pow2(14) == 16384 && Pow2(16) == 65536;
    assert Pow2(18) == 262144 && Pow2(20) == 1048576 && Pow2(22) == 4194304 && Pow2(24) == 16777216;
    assert Pow2(26) == 67108864 && Pow2(28) == 268435456 && Pow2(30) == 1073741824 && Pow2(31) == 2147483648;
  }

  // --- one bit at a time ------------------------------------------------------

  /** One step of the shift register. */
  function BitStep(crc: nat): nat { if crc % 2 != 0 then Xor(crc / 2, POLY) else crc / 2 }

  function BitSteps(crc: nat, n: nat): nat
    decreases n
  { if n == 0 then crc else BitSteps(BitStep(crc), n - 1)
  }

  lemma XorStepLinear(a: nat, b: nat)
    ensures BitStep(Xor(a, b)) == Xor(BitStep(a), BitStep(b))
  {
    XorStep(a, b);
    var x, y := a / 2, b / 2;
    if a % 2 != 0 && b % 2 != 0 {
      // (x ^ P) ^ (y ^ P) == x ^ y
      XorAssoc(x, POLY, Xor(y, POLY));
      XorComm(y, POLY);
      XorAssoc(POLY, POLY, y);
      XorSelf(POLY);
    } else if a % 2 != 0 {
      XorAssoc(x, POLY, y);
      XorComm(POLY, y);
      XorAssoc(x, y, POLY);
    } else if b % 2 != 0 {
      XorAssoc(x, y, POLY);
    }
  }

  lemma {:induction false} BitStepsLinear(a: nat, b: nat, n: nat)
    ensures BitSteps(Xor(a, b), n) == Xor(BitSteps(a, n), BitSteps(b, n))
    decreases n
  {
    if n > 0 {
      XorStepLinear(a, b);
      BitStepsLinear(BitStep(a), BitStep(b), n - 1);
    }
  }

  /** `a << n`, unbounded. */
  function Shl(a: nat, n: nat): nat { if n == 0 then a else 2 * Shl(a, n - 1) }

  lemma ShlByte(a: nat)
    ensures Shl(a, 8) == 256 * a
  {
    assert Shl(a, 8) == 4 * Shl(a, 6) == 16 * Shl(a, 4) == 64 * Shl(a, 2);
    assert Shl(a, 0) == a && Shl(a, 1) == 2 * a && Shl(a, 2) == 4 * a;
  }

  lemma {:induction false} ShlOne(n: nat)
    ensures Shl(1, n) == Pow2(n)
  {
    if n > 0 { ShlOne(n - 1); }
  }

  /** Shifted-up values only shift back down: no bit reaches the feedback. */
  lemma {:induction false} BitStepsShift(a: nat, n: nat)
    ensures BitSteps(Shl(a, n), n) == a
    decreases n
  {
    if n > 0 { BitStepsShift(a, n - 1); }
  }

  lemma XorDoubled(a: nat, v: nat)
    requires Xor(a / 2, v) == a / 2 + v
    ensures Xor(a, 2 * v) == a + 2 * v
  {
    hide Xor;
    XorStep(a, 2 * v);
    SameHalves(Xor(a, 2 * v), a + 2 * v);
  }

  lemma {:induction false} XorHigh(a: nat, b: nat, n: nat)
    requires a < Pow2(n)
    ensures Xor(a, Shl(b, n)) == a + Shl(b, n)
    decreases n
  {
    if n > 0 {
      var v := Shl(b, n - 1);
      XorHigh(a / 2, b, n - 1);
      XorDoubled(a, v);
    } else {
      XorComm(a, b);
    }
  }

  /** The polynomial's top bit makes a step reversible: it tells whether the dropped bit was set. */
  lemma BitStepInjective(a: nat, b: nat)
    requires a < U32 && b < U32 && BitStep(a) == BitStep(b)
    ensures a == b
  {
    TopBit(a / 2);
    TopBit(b / 2);
    if a % 2 != 0 && b % 2 != 0 {
      XorCancel(a / 2, POLY);
      XorCancel(b / 2, POLY);
    }
  }

  lemma TopBit(x: nat)
    requires x < 0x8000_0000
    ensures 0x8000_0000 <= Xor(x, POLY) < U32
  {
    Pow2Widths();
    var low := POLY - 0x8000_0000;
    ShlOne(31);
    XorBound(x, low, 31);
    XorHigh(low, 1, 31);
    XorHigh(Xor(x, low), 1, 31);
    XorAssoc(x, low, 0x8000_0000);
  }

  lemma BitStepBound(a: nat)
    requires a < U32
    ensures BitStep(a) < U32
  {
    TopBit(a / 2);
  }

  lemma {:induction false} BitStepsBound(a: nat, n: nat)
    requires a < U32
    ensures BitSteps(a, n) < U32
    decreases n
  {
    if n > 0 {
      BitStepBound(a);
      BitStepsBound(BitStep(a), n - 1);
    }
  }

  /** Any number of steps is a bijection on the 2^32 states. */
  lemma {:induction false} BitStepsInjective(a: nat, b: nat, n: nat)
    requires a < U32 && b < U32 && BitSteps(a, n) == BitSteps(b, n)
    ensures a == b
    decreases n
  {
    if n > 0 {
      BitStepBound(a);
      BitStepBound(b);
      BitStepsInjective(BitStep(a), BitStep(b), n - 1);
      BitStepInjective(a, b);
    }
  }

  /** The register after `data`, one bit at a time. */
  function BitCrc(crc: nat, data: seq<byte>): nat
    decreases |data|
  {
    if data == [] then crc else BitCrc(BitSteps(Xor(crc, data[0]), 8), data[1..])
  }

  lemma {:induction false} BitStepsAdd(a: nat, m: nat, n: nat)
    ensures BitSteps(a, m + n) == BitSteps(BitSteps(a, m), n)
    decreases m
  {
    if m > 0 { BitStepsAdd(BitStep(a), m - 1, n); }
  }

  // --- one table lookup per byte -----------------------------------------------

  /** Entry `i` of the table. */
  function TableEntry(i: nat): nat { BitSteps(i, 8) }

  function ByteStep(crc: nat, b: byte): nat { Xor(TableEntry(Xor(crc, b) % 256), crc / 256) }

  function Crc32Update(crc: nat, data: seq<byte>): nat
    decreases |data|
  {
    if data == [] then crc else Crc32Update(ByteStep(crc, data[0]), data[1..])
  }

  function Crc32(data: seq<byte>): nat { Xor(Crc32Update(ONES, data), ONES) }

  /** `a >> n`. */
  function Shr(a: nat, n: nat): nat
    decreases n
  {
    if n == 0 then a else Shr(a / 2, n - 1)
  }

  lemma ShrByte(a: nat)
    ensures Shr(a, 8) == a / 256
  {
    assert Shr(a, 8) == Shr(a / 4, 6) == Shr(a / 16, 4) == Shr(a / 64, 2) == a / 256;
  }

  lemma {:induction false} ShrXor(a: nat, b: nat, n: nat)
    ensures Shr(Xor(a, b), n) == Xor(Shr(a, n), Shr(b, n))
    decreases n
  {
    if n > 0 {
      XorStep(a, b);
      ShrXor(a / 2, b / 2, n - 1);
    }
  }

  /** A table lookup is eight steps of the shift register. */
  lemma ByteStepIsEightBits(crc: nat, b: byte)
    ensures ByteStep(crc, b) == BitSteps(Xor(crc, b), 8)
  {
    Pow2Widths();
    var x := Xor(crc, b);
    ShrXor(crc, b, 8);
    ShrByte(x);
    ShrByte(crc);
    ShrByte(b);
    XorComm(crc / 256, 0);
    assert x / 256 == crc / 256;
    var high := x / 256;
    ShlByte(high);
    XorHigh(x % 256, high, 8);
    assert x == Xor(x % 256, Shl(high, 8));
    BitStepsLinear(x % 256, Shl(high, 8), 8);
    BitStepsShift(high, 8);
  }

  /** The table-driven update computes the bit-at-a-time CRC. */
  lemma {:induction false} Crc32UpdateIsBitCrc(crc: nat, data: seq<byte>)
    ensures Crc32Update(crc, data) == BitCrc(crc, data)
    decreases |data|
  {
    if data != [] {
      ByteStepIsEightBits(crc, data[0]);
      Crc32UpdateIsBitCrc(ByteStep(crc, data[0]), data[1..]);
    }
  }

  /** Updating by `a` and then by `b` is updating by `a + b`. */
  lemma {:induction false} Crc32UpdateComposes(crc: nat, a: seq<byte>, b: seq<byte>)
    ensures Crc32Update(crc, a + b) == Crc32Update(Crc32Update(crc, a), b)
    decreases |a|
  {
    if a == [] {
      assert a + b == b;
    } else {
      assert (a + b)[1..] == a[1..] + b;
      Crc32UpdateComposes(ByteStep(crc, a[0]), a[1..], b);
    }
  }

  method CrcTable() returns (table: array<nat>)
    ensures fresh(table) && table.Length == 256
    ensures forall i :: 0 <= i < 256 ==> table[i] == TableEntry(i)
  {
    hide Xor;
    table := new nat[256];
    var i := 0;
    while i < 256
      invariant 0 <= i <= 256
      invariant forall k :: 0 <= k < i ==> table[k] == TableEntry(k)
    {
      var crc := i;
      var j := 0;
      while j < 8
        invariant 0 <= j <= 8 && BitSteps(crc, 8 - j) == TableEntry(i)
      {
        if crc % 2 != 0 {
          crc := Xor(crc / 2, POLY);
        } else {
          crc := crc / 2;
        }
        j := j + 1;
      }
      table[i] := crc;
      i := i + 1;
    }
  }

  method UpdateCrc(table: array<nat>, crc0: nat, data: seq<byte>) returns (crc: nat)
    requires table.Length == 256 && forall i :: 0 <= i < 256 ==> table[i] == TableEntry(i)
    ensures crc == BitCrc(crc0, data)
  {
    crc := crc0;
    for i := 0 to |data|
      invariant Crc32Update(crc0, data) == Crc32Update(crc, data[i..])
    {
      var idx := Xor(crc, data[i]) % 256;
      assert data[i..][0] == data[i] && data[i..][1..] == data[i + 1..];
      crc := Xor(table[idx], crc / 256);
    }
    assert data[|data|..] == [];
    Crc32UpdateIsBitCrc(crc0, data);
  }

  // --- error detection ----------------------------------------------------------

  lemma {:induction false} BitCrcBound(crc: nat, data: seq<byte>)
    requires crc < U32
    ensures BitCrc(crc, data) < U32
    decreases |data|
  {
    if data != [] {
      Pow2Widths();
      XorBound(crc, data[0], 32);
      BitStepsBound(Xor(crc, data[0]), 8);
      BitCrcBound(BitSteps(Xor(crc, data[0]), 8), data[1..]);
    }
  }

  lemma Crc32Bound(data: seq<byte>)
    ensures Crc32(data) < U32
  {
    Crc32UpdateIsBitCrc(ONES, data);
    BitCrcBound(ONES, data);
    Pow2Widths();
    XorBound(Crc32Update(ONES, data), ONES, 32);
  }

  lemma NoSteps(crc: nat)
    ensures BitSteps(Xor(crc, 0), 0) == crc
  {
    XorComm(crc, 0);
  }

  lemma NoBytes(crc: nat)
    ensures BitCrc(crc, []) == crc && LeNat([]) == 0
  {
  }

  /** Feeding bytes one at a time is xoring them in at once, as a little-endian number, and stepping. */
  lemma {:induction false} BitCrcAtOnce(crc: nat, data: seq<byte>)
    ensures BitCrc(crc, data) == BitSteps(Xor(crc, LeNat(data)), 8 * |data|)
    decreases |data|
  {
    hide Xor, BitSteps, LeNat, BitCrc;
    if data == [] {
      NoBytes(crc);
      NoSteps(crc);
    } else {
      var b, tail := data[0], data[1..];
      var k := 8 * |tail|;
      BitCrcAtOnce(BitSteps(Xor(crc, b), 8), tail);
      BitCrcCons(crc, data);
      AtOnceCons(crc, b, LeNat(tail), k);
      assert 8 + k == 8 * |data|;
    }
  }

  lemma BitCrcCons(crc: nat, data: seq<byte>)
    requires data != []
    ensures BitCrc(crc, data) == BitCrc(BitSteps(Xor(crc, data[0]), 8), data[1..])
    ensures LeNat(data) == data[0] + 256 * LeNat(data[1..])
  {
  }

  lemma AtOnceCons(crc: nat, b: byte, rest: nat, k: nat)
    ensures BitSteps(Xor(BitSteps(Xor(crc, b), 8), rest), k) == BitSteps(Xor(crc, b + 256 * rest), 8 + k)
  {
    hide Shl, Pow2, BitSteps, Xor;
    assert Shl(rest, 8) == 256 * rest by { ShlByte(rest); }
    assert b < Pow2(8) by { Pow2Widths(); }
    LowThenRest(crc, b, rest, 8, k);
  }

  /** Steps commute with the bits that come after, taken that many places up. */
  lemma LowThenRest(crc: nat, low: nat, rest: nat, n: nat, k: nat)
    requires low < Pow2(n)
    ensures BitSteps(Xor(BitSteps(Xor(crc, low), n), rest), k) == BitSteps(Xor(crc, low + Shl(rest, n)), n + k)
  {
    BitStepsShift(rest, n);
    BitStepsLinear(Xor(crc, low), Shl(rest, n), n);
    XorHigh(low, rest, n);
    XorAssoc(crc, low, Shl(rest, n));
    BitStepsAdd(Xor(crc, low + Shl(rest, n)), n, k);
  }

  lemma WindowDetected(crc: nat, u: seq<byte>, v: seq<byte>)
    requires crc < U32 && |u| == |v| <= 4 && BitCrc(crc, u) == BitCrc(crc, v)
    ensures u == v
  {
    BitCrcAtOnce(crc, u);
    BitCrcAtOnce(crc, v);
    var x, y := LeNat(u), LeNat(v);
    LeNatBound(u);
    LeNatBound(v);
    Pow2Widths();
    XorBound(crc, x, 32);
    XorBound(crc, y, 32);
    BitStepsInjective(Xor(crc, x), Xor(crc, y), 8 * |u|);
    XorComm(crc, x);
    XorComm(crc, y);
    XorCancel(x, crc);
    XorCancel(y, crc);
    LeRoundTripBytes(u);
    LeRoundTripBytes(v);
  }

  lemma LeNatBound(s: seq<byte>)
    requires |s| <= 4
    ensures LeNat(s) < U32
  {
    Pow256Widths();
    assert Pow256(3) == 256 * Pow256(2);
  }

  /** Equal bytes never bring different states together. */
  lemma {:induction false} BitCrcInjective(c: nat, d: nat, data: seq<byte>)
    requires c < U32 && d < U32 && BitCrc(c, data) == BitCrc(d, data)
    ensures c == d
    decreases |data|
  {
    if data != [] {
      Pow2Widths();
      XorBound(c, data[0], 32);
      XorBound(d, data[0], 32);
      BitStepsBound(Xor(c, data[0]), 8);
      BitStepsBound(Xor(d, data[0]), 8);
      BitCrcInjective(BitSteps(Xor(c, data[0]), 8), BitSteps(Xor(d, data[0]), 8), data[1..]);
      BitStepsInjective(Xor(c, data[0]), Xor(d, data[0]), 8);
      XorCancel(c, data[0]);
      XorCancel(d, data[0]);
    }
  }

  /** Strings that differ only inside a window of at most four bytes have different checksums. */
  lemma BurstDetected(head: seq<byte>, u: seq<byte>, v: seq<byte>, tail: seq<byte>)
    requires |u| == |v| <= 4 && u != v
    ensures Crc32(head + u + tail) != Crc32(head + v + tail)
  {
    var c := Crc32Update(ONES, head);
    Crc32UpdateIsBitCrc(ONES, head);
    BitCrcBound(ONES, head);
    forall w | w == u || w == v
      ensures Crc32(head + w + tail) == Xor(BitCrc(BitCrc(c, w), tail), ONES) && BitCrc(c, w) < U32
    {
      Crc32UpdateComposes(ONES, head + w, tail);
      Crc32UpdateComposes(ONES, head, w);
      Crc32UpdateIsBitCrc(c, w);
      Crc32UpdateIsBitCrc(BitCrc(c, w), tail);
      BitCrcBound(c, w);
    }
    if Crc32(head + u + tail) == Crc32(head + v + tail) {
      XorCancel(BitCrc(BitCrc(c, u), tail), ONES);
      XorCancel(BitCrc(BitCrc(c, v), tail), ONES);
      BitCrcInjective(BitCrc(c, u), BitCrc(c, v), tail);
      WindowDetected(c, u, v);
    }
  }

  // --- a value ----------------------------------------------------------------------------------------

  lemma {:induction false} Complement(a: nat, n: nat)
    requires a < Pow2(n)
    ensures Xor(a, Pow2(n) - 1) == Pow2(n) - 1 - a
  {
    if n > 0 {
      Complement(a / 2, n - 1);
      ComplementBit(a, Pow2(n - 1));
    }
  }

  lemma ComplementBit(a: nat, m: nat)
    requires a < 2 * m && Xor(a / 2, m - 1) == m - 1 - a / 2
    ensures Xor(a, 2 * m - 1) == 2 * m - 1 - a
  {
    hide Xor;
    XorStep(a, 2 * m - 1);
    SameHalves(Xor(a, 2 * m - 1), 2 * m - 1 - a);
  }

  /** One set bit shifted out at the last step leaves the polynomial, complemented: this fixes every constant. */
  lemma CheckValue()
    ensures Crc32([0xFF, 0xFF, 0xFF, 0x7F]) == 0x12477CDF
  {
    hide Xor, BitSteps, Shl;
    var data: seq<byte> := [0xFF, 0xFF, 0xFF, 0x7F];
    Pow2Widths();
    Crc32UpdateIsBitCrc(ONES, data);
    BitCrcAtOnce(ONES, data);
    FourBytes(data);
    ShlOne(31);
    XorHigh(0x7FFF_FFFF, 1, 31);
    XorComm(0x7FFF_FFFF, Shl(1, 31));
    XorCancel(Shl(1, 31), 0x7FFF_FFFF);
    BitStepsAdd(Shl(1, 31), 31, 1);
    BitStepsShift(1, 31);
    LastStep();
    Complement(POLY, 32);
  }

  lemma FourBytes(data: seq<byte>)
    requires data == [0xFF, 0xFF, 0xFF, 0x7F]
    ensures LeNat(data) == 0x7FFF_FFFF
  {
    assert data[1..] == [0xFF, 0xFF, 0x7F] && data[1..][1..] == [0xFF, 0x7F] && data[1..][1..][1..] == [0x7F];
    assert LeNat(data[1..][1..][1..]) == 0x7F && LeNat(data[1..][1..]) == 0x7FFF && LeNat(data[1..]) == 0x7F_FFFF;
  }

  lemma LastStep()
    ensures BitSteps(1, 1) == POLY
  {
    assert Xor(0, POLY) == POLY;
  }
}
