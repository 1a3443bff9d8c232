/*
 * Byte-level view of page buffers: the little-endian `uint32_t` the C code
 * reads and writes through casted pointers, and the two primitive writes
 * it performs on a buffer (storing bytes at an offset, and memcpy).
 */
module Memory {
  import opened Layout

  /** The `uint32_t` stored at p[off..off + 4], least significant byte first. */
  function ReadU32(p: seq<byte>, off: nat): u32
    requires off + 4 <= |p|
  {
    (p[off] as int) + 0x100 * (p[off + 1] as int) + 0x1_0000 * (p[off + 2] as int) + 0x100_0000 * (p[off + 3] as int)
  }

  /** The four bytes that store v; reading them back gives v. */
  function U32Bytes(v: u32): (b: seq<byte>)
    ensures |b| == 4
    ensures ReadU32(b, 0) == v
  {
    var q1 := v / 0x100;
    var q2 := q1 / 0x100;
    var q3 := q2 / 0x100;
    assert v == v % 0x100 + 0x100 * q1;
    assert q1 == q1 % 0x100 + 0x100 * q2;
    assert q2 == q2 % 0x100 + 0x100 * q3;
    [v % 0x100, q1 % 0x100, q2 % 0x100, q3]
  }

  /** Storing the value read from four bytes stores those same bytes. */
  lemma U32BytesOfRead(p: seq<byte>, off: nat)
    requires off + 4 <= |p|
    ensures U32Bytes(ReadU32(p, off)) == p[off..off + 4]
  {
    var b0, b1, b2, b3 := p[off] as int, p[off + 1] as int, p[off + 2] as int, p[off + 3] as int;
    var v := ReadU32(p, off);
    DivMod256(v, b1 + 0x100 * b2 + 0x1_0000 * b3, b0);
    DivMod256(v / 0x100, b2 + 0x100 * b3, b1);
    DivMod256(v / 0x100 / 0x100, b3, b2);
    DivMod256(v / 0x100 / 0x100 / 0x100, 0, b3);
  }

  /** Quotient and remainder by 256, given a decomposition. */
  lemma DivMod256(v: int, q: int, r: int)
    requires 0 <= r < 0x100 && v == 0x100 * q + r
    ensures v / 0x100 == q && v % 0x100 == r
  {
  }

  /** p with the bytes b written at off: everything else is left as it was. */
  function Write(p: seq<byte>, off: nat, b: seq<byte>): (q: seq<byte>)
    requires off + |b| <= |p|
    ensures |q| == |p|
    ensures forall k {:trigger q[k]} :: 0 <= k < |p| ==> q[k] == if off <= k < off + |b| then b[k - off] else p[k]
  {
    seq(|p|, k requires 0 <= k < |p| => if off <= k < off + |b| then b[k - off] else p[k])
  }

  /** Reading back a u32 just written at off gives that value. */
  lemma ReadAfterWrite(p: seq<byte>, off: nat, v: u32)
    requires off + 4 <= |p|
    ensures ReadU32(Write(p, off, U32Bytes(v)), off) == v
  {
    var q := Write(p, off, U32Bytes(v));
    assert q[off..off + 4] == U32Bytes(v);
  }

  /** A u32 whose four bytes lie outside the written range is unaffected by the write. */
  lemma ReadPastWrite(p: seq<byte>, off: nat, b: seq<byte>, at: nat)
    requires off + |b| <= |p| && at + 4 <= |p|
    requires at + 4 <= off || off + |b| <= at
    ensures ReadU32(Write(p, off, b), at) == ReadU32(p, at)
  {
  }

  /** Stores the bytes b at dst[off..]: the C code's assignments through casted pointers and `serialize_row`. */
  method Store(dst: array<byte>, off: nat, b: seq<byte>)
    requires off + |b| <= dst.Length
    modifies dst
    ensures dst[..] == Write(old(dst[..]), off, b)
  {
    forall k | 0 <= k < |b| {
      dst[off + k] := b[k];
    }
  }

  /** `memcpy(dst + dstOff, src + srcOff, len)`; when dst and src are the same buffer it acts as memmove. */
  method Memcpy(dst: array<byte>, dstOff: nat, src: array<byte>, srcOff: nat, len: nat)
    requires dstOff + len <= dst.Length && srcOff + len <= src.Length
    modifies dst
    ensures dst[..] == Write(old(dst[..]), dstOff, old(src[..])[srcOff..][..len])
  {
    forall k | 0 <= k < len {
      dst[dstOff + k] := src[srcOff + k];
    }
  }
}
