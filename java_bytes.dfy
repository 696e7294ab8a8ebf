/**
 * Java's byte/int conversions and the big-endian packing of eight bytes into a long
 * that the cipher uses (the role of edu.rit.util.Packing, defined here).
 */
module JavaBytes {

  /** Java's widening of a signed byte to int: bit 7 is copied into the 24 high bits. */
  function SignExtend(b: bv8): (r: bv32)
    ensures r & 0xFF == b as bv32
    ensures r < 0x100 <==> b < 0x80
  {
    if b < 0x80 then b as bv32 else b as bv32 | 0xFFFF_FF00
  }

  /** Java's narrowing cast from int to byte: only the low 8 bits survive. */
  function LowByte(v: bv32): bv8
  {
    (v & 0xFF) as bv8
  }

  lemma LowByteOfSignExtend(b: bv8)
    ensures LowByte(SignExtend(b)) == b
  {
  }

  lemma LowByteXor(u: bv32, v: bv32)
    ensures LowByte(u ^ v) == LowByte(u) ^ LowByte(v)
  {
  }

  /** Byte i of v in big-endian order: byte 0 is the most significant. */
  function ByteAt(v: bv64, i: nat): bv8
    requires i < 8
  {
    match i
    case 0 => ((v >> 56) & 0xFF) as bv8
    case 1 => ((v >> 48) & 0xFF) as bv8
    case 2 => ((v >> 40) & 0xFF) as bv8
    case 3 => ((v >> 32) & 0xFF) as bv8
    case 4 => ((v >> 24) & 0xFF) as bv8
    case 5 => ((v >> 16) & 0xFF) as bv8
    case 6 => ((v >> 8) & 0xFF) as bv8
    case _ => (v & 0xFF) as bv8
  }

  /** The eight bytes of a long, most significant first. */
  function Unpack(v: bv64): (r: seq<bv8>)
    ensures |r| == 8
  {
    [ByteAt(v, 0), ByteAt(v, 1), ByteAt(v, 2), ByteAt(v, 3),
     ByteAt(v, 4), ByteAt(v, 5), ByteAt(v, 6), ByteAt(v, 7)]
  }

  /** The long whose big-endian bytes are b. */
  function Pack(b: seq<bv8>): bv64
    requires |b| == 8
  {
    (b[0] as bv64 << 56) | (b[1] as bv64 << 48) | (b[2] as bv64 << 40) | (b[3] as bv64 << 32) |
    (b[4] as bv64 << 24) | (b[5] as bv64 << 16) | (b[6] as bv64 << 8) | b[7] as bv64
  }

  lemma PackUnpack(v: bv64)
    ensures Pack(Unpack(v)) == v
  {
  }

  lemma UnpackPack(b: seq<bv8>)
    requires |b| == 8
    ensures Unpack(Pack(b)) == b
  {
  }

  /** Packing.packLongBigEndian: the long stored big-endian at src[srcPos..srcPos+8]. */
  function PackLongBigEndian(src: seq<bv8>, srcPos: nat): bv64
    requires srcPos + 8 <= |src|
  {
    Pack(src[srcPos..srcPos + 8])
  }

  /** Packing a whole 8-byte buffer from position 0 reads all of it. */
  lemma PackLongBigEndianWhole(src: seq<bv8>)
    requires |src| == 8
    ensures PackLongBigEndian(src, 0) == Pack(src)
  {
    assert src[0..8] == src;
  }

  /** Unpacking u at 0 and then w at 8 leaves u followed by w in the first 16 bytes. */
  lemma UnpackTwice(t1: seq<bv8>, u: seq<bv8>, t2: seq<bv8>, w: seq<bv8>)
    requires |t1| >= 16 && |t2| == |t1|
    requires t1[0..8] == u && t2[..8] == t1[..8] && t2[8..16] == w
    ensures t2[..16] == u + w
  {
    assert t2[..16] == t2[..8] + t2[8..16];
  }

  /** Packing.unpackLongBigEndian: stores v big-endian into dst[dstPos..dstPos+8]. */
  method UnpackLongBigEndian(v: bv64, dst: array<bv8>, dstPos: nat)
    requires dstPos + 8 <= dst.Length
    modifies dst
    ensures dst[..dstPos] == old(dst[..dstPos])
    ensures dst[dstPos..dstPos + 8] == Unpack(v)
    ensures dst[dstPos + 8..] == old(dst[dstPos + 8..])
  {
    for i := 0 to 8
      invariant forall j :: 0 <= j < dst.Length ==>
        dst[j] == if dstPos <= j < dstPos + i then Unpack(v)[j - dstPos] else old(dst[j])
    {
      dst[dstPos + i] := ByteAt(v, i);
    }
  }

  /** System.arraycopy between two distinct byte arrays: dst[dstPos..dstPos + length) takes
   *  src[srcPos..srcPos + length), every other byte of dst is kept. */
  method ArrayCopy(src: array<bv8>, srcPos: nat, dst: array<bv8>, dstPos: nat, length: nat)
    requires srcPos + length <= src.Length && dstPos + length <= dst.Length && src != dst
    modifies dst
    ensures forall j :: 0 <= j < dst.Length ==>
              dst[j] == if dstPos <= j < dstPos + length then src[srcPos + (j - dstPos)] else old(dst[j])
  {
    for i := 0 to length
      invariant forall j :: 0 <= j < dst.Length ==>
                  dst[j] == if dstPos <= j < dstPos + i then src[srcPos + (j - dstPos)] else old(dst[j])
    {
      dst[dstPos + i] := src[srcPos + i];
    }
  }
}
