/** Layout constants, and the little-endian integers of src/format.rs. */
module Format {
  type byte = x: int | 0 <= x < 256

  // Products and quotients write the literal 4096, which keeps them linear for the solver.
  const BLOCK_SIZE: nat := 4096
  const INLINE_MAX: nat := 128
  const MAX_DIRECT_EXTENTS: nat := 6
  const SHRINK_SLACK_BLOCKS: nat := 64
  const MAX_FILE_SIZE: nat := 17592186044416
  const ROOT_INO: nat := 1
  const FIRST_USER_INO: nat := 2

  function Zeros(n: nat): (z: seq<byte>)
    ensures |z| == n
  {
    seq(n, i => 0)
  }

  type Block = b: seq<byte> | |b| == BLOCK_SIZE witness Zeros(BLOCK_SIZE)

  /** `src` copied over `dst` from offset `off`: `dst[off..off + n].copy_from_slice(src)`. */
  function Splice(dst: seq<byte>, off: nat, src: seq<byte>): (r: seq<byte>)
    requires off + |src| <= |dst|
    ensures |r| == |dst|
    ensures forall i :: 0 <= i < |dst| ==> r[i] == if off <= i < off + |src| then src[i - off] else dst[i]
  {
    dst[..off] + src + dst[off + |src|..]
  }

  /** `v.resize(n, 0)`. */
  function Resize(v: seq<byte>, n: nat): (r: seq<byte>)
    ensures |r| == n
    ensures forall i :: 0 <= i < n ==> r[i] == if i < |v| then v[i] else 0
  {
    if n <= |v| then v[..n] else v + Zeros(n - |v|)
  }

  // --- little-endian integers -----------------------------------------------

  function Pow256(n: nat): (p: nat)
    ensures p > 0
  {
    if n == 0 then 1 else 256 * Pow256(n - 1)
  }

  const U16: nat := 0x1_0000
  const U32: nat := 0x1_0000_0000
  const U64: nat := 0x1_0000_0000_0000_0000

  lemma Pow256Widths()
    ensures Pow256(1) == 256 && Pow256(2) == U16 && Pow256(4) == U32 && Pow256(8) == U64
  {
    assert Pow256(3) == 256 * Pow256(2);
    assert Pow256(4) == 256 * Pow256(3);
    assert Pow256(5) == 256 * Pow256(4);
    assert Pow256(6) == 256 * Pow256(5);
    assert Pow256(7) == 256 * Pow256(6);
  }

  /** The `n` low bytes of `v`, least significant first. */
  function LeBytes(v: nat, n: nat): (s: seq<byte>)
    ensures |s| == n
  {
    if n == 0 then [] else [v % 256] + LeBytes(v / 256, n - 1)
  }

  function LeNat(s: seq<byte>): (v: nat)
    ensures v < Pow256(|s|)
  {
    if s == [] then 0 else s[0] + 256 * LeNat(s[1..])
  }

  /** Reading back what was written gives the value modulo the field width. */
  lemma {:induction false} LeRoundTrip(v: nat, n: nat)
    ensures v < Pow256(n) ==> LeNat(LeBytes(v, n)) == v
  {
    if n > 0 && v < Pow256(n) {
      LeRoundTrip(v / 256, n - 1);
      assert LeBytes(v, n)[1..] == LeBytes(v / 256, n - 1);
    }
  }

  /** Writing back what was read gives the same bytes. */
  lemma {:induction false} LeRoundTripBytes(s: seq<byte>)
    ensures LeBytes(LeNat(s), |s|) == s
  {
    if s != [] {
      LeRoundTripBytes(s[1..]);
      assert LeNat(s) % 256 == s[0] && LeNat(s) / 256 == LeNat(s[1..]);
    }
  }

  function U16Bytes(v: nat): (s: seq<byte>) ensures |s| == 2 { LeBytes(v, 2) }
  function U32Bytes(v: nat): (s: seq<byte>) ensures |s| == 4 { LeBytes(v, 4) }
  function U64Bytes(v: nat): (s: seq<byte>) ensures |s| == 8 { LeBytes(v, 8) }

  function GetU16(s: seq<byte>, off: nat): (v: nat)
    requires off + 2 <= |s|
    ensures v < U16
  {
    Pow256Widths();
    LeNat(s[off..off + 2])
  }

  function GetU32(s: seq<byte>, off: nat): (v: nat)
    requires off + 4 <= |s|
    ensures v < U32
  {
    Pow256Widths();
    LeNat(s[off..off + 4])
  }

  function GetU64(s: seq<byte>, off: nat): (v: nat)
    requires off + 8 <= |s|
    ensures v < U64
  {
    Pow256Widths();
    LeNat(s[off..off + 8])
  }

  lemma U16At(s: seq<byte>, off: nat, v: nat)
    requires off + 2 <= |s| && s[off..off + 2] == U16Bytes(v) && v < U16
    ensures GetU16(s, off) == v
  {
    Pow256Widths();
    LeRoundTrip(v, 2);
  }

  lemma U32At(s: seq<byte>, off: nat, v: nat)
    requires off + 4 <= |s| && s[off..off + 4] == U32Bytes(v) && v < U32
    ensures GetU32(s, off) == v
  {
    Pow256Widths();
    LeRoundTrip(v, 4);
  }

  lemma U64At(s: seq<byte>, off: nat, v: nat)
    requires off + 8 <= |s| && s[off..off + 8] == U64Bytes(v) && v < U64
    ensures GetU64(s, off) == v
  {
    Pow256Widths();
    LeRoundTrip(v, 8);
  }

  /** `part` stands in `buf` at `off`. */
  predicate At(buf: seq<byte>, off: nat, part: seq<byte>) { off + |part| <= |buf| && buf[off..off + |part|] == part }

  lemma AtConcat(buf: seq<byte>, off: nat, a: seq<byte>, b: seq<byte>)
    ensures At(buf, off, a + b) <==> At(buf, off, a) && At(buf, off + |a|, b)
  {
    if At(buf, off, a) && At(buf, off + |a|, b) {
      assert buf[off..off + |a| + |b|] == buf[off..off + |a|] + buf[off + |a|..off + |a| + |b|];
    }
    if At(buf, off, a + b) {
      assert buf[off..off + |a|] == (a + b)[..|a|];
      assert buf[off + |a|..off + |a| + |b|] == (a + b)[|a|..];
    }
  }

  lemma U32Stands(buf: seq<byte>, off: nat, v: nat)
    requires At(buf, off, U32Bytes(v)) && v < U32
    ensures off + 4 <= |buf| && GetU32(buf, off) == v
  {
    U32At(buf, off, v);
  }

  lemma U64Stands(buf: seq<byte>, off: nat, v: nat)
    requires At(buf, off, U64Bytes(v)) && v < U64
    ensures off + 8 <= |buf| && GetU64(buf, off) == v
  {
    U64At(buf, off, v);
  }
}
