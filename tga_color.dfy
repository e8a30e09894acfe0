/**
 * TGAColor (src/tgaimage.hpp:25-46, src/tgaimage.cpp:7-33).
 *
 * A colour is a union of four raw bytes (stored blue, green, red, alpha) with
 * a 32-bit unsigned `val`, plus a bytes-per-pixel count.  Here the four bytes
 * are the representation and `val` is derived from them, least significant
 * byte first (the layout of the little-endian machines the source targets).
 */
module TgaColor {

  /** An unsigned char. */
  newtype byte = b: int | 0 <= b < 0x100

  datatype Color = Color(raw: seq<byte>, bytespp: int)

  const TWO32: int := 0x1_0000_0000

  /** The unsigned int `val` that shares its storage with the raw bytes. */
  function Val(c: Color): (v: int)
    requires |c.raw| == 4
    ensures 0 <= v < TWO32
  {
    c.raw[0] as int + 0x100 * c.raw[1] as int + 0x1_0000 * c.raw[2] as int + 0x100_0000 * c.raw[3] as int
  }

  /** TGAColor(): `val` 0 and one byte per pixel. */
  function Default(): (c: Color)
    ensures |c.raw| == 4 && Val(c) == 0 && c.bytespp == 1
  {
    Color([0, 0, 0, 0], 1)
  }

  /** TGAColor(R, G, B, A): the bytes are stored b, g, r, a, four bytes per pixel. */
  function FromRGBA(r: byte, g: byte, b: byte, a: byte): (c: Color)
    ensures |c.raw| == 4 && c.bytespp == 4
    ensures Val(c) == b as int + 0x100 * g as int + 0x1_0000 * r as int + 0x100_0000 * a as int
  {
    Color([b, g, r, a], 4)
  }

  /** The four bytes of a 32-bit value, least significant first. */
  function LittleEndian(u: int): (bytes: seq<byte>)
    requires 0 <= u < TWO32
    ensures |bytes| == 4
    ensures bytes[0] as int + 0x100 * bytes[1] as int + 0x1_0000 * bytes[2] as int + 0x100_0000 * bytes[3] as int == u
  {
    var q1 := u / 0x100;
    var q2 := q1 / 0x100;
    [(u % 0x100) as byte, (q1 % 0x100) as byte, (q2 % 0x100) as byte, (q2 / 0x100) as byte]
  }

  /**
   * TGAColor(int v, int bpp): `val` is v converted to unsigned int, i.e.
   * reduced modulo 2^32.
   */
  function FromValue(v: int, bpp: int): (c: Color)
    ensures |c.raw| == 4 && c.bytespp == bpp
    ensures Val(c) == v % TWO32
  {
    Color(LittleEndian(v % TWO32), bpp)
  }

  /**
   * TGAColor(const unsigned char* p, int bpp): `val` is zeroed, then the
   * first bpp raw bytes are copied from p.  The union has four bytes, so the
   * copy is only defined for bpp <= 4.
   */
  function FromBytes(p: seq<byte>, bpp: int): (c: Color)
    requires 0 <= bpp <= 4 && bpp <= |p|
    ensures |c.raw| == 4 && c.bytespp == bpp
    ensures c.raw[..bpp] == p[..bpp]
    ensures forall i :: bpp <= i < 4 ==> c.raw[i] == 0
  {
    Color(p[..bpp] + seq(4 - bpp, _ => 0 as byte), bpp)
  }

  /** Reading back the bytes a colour was built from gives the same colour. */
  lemma FromBytesOfRaw(c: Color)
    requires |c.raw| == 4 && 0 <= c.bytespp <= 4
    requires forall i :: c.bytespp <= i < 4 ==> c.raw[i] == 0
    ensures FromBytes(c.raw, c.bytespp) == c
  {
    var r := FromBytes(c.raw, c.bytespp);
    assert r.raw == c.raw by {
      forall i | 0 <= i < 4 ensures r.raw[i] == c.raw[i] {
        if i < c.bytespp {
          assert r.raw[..c.bytespp][i] == c.raw[..c.bytespp][i];
        }
      }
    }
  }
}
