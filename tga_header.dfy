/**
 * The packed 18-byte TGAHeader (src/tgaimage.hpp:7-23) and the decisions
 * readTGAFile and writeTGAFile take from it (src/tgaimage.cpp:85-131,
 * 155-162).  Multi-byte fields are little-endian; `short` fields are signed
 * 16-bit and `char` fields are taken as signed 8-bit, as on the x86 targets
 * of the source.
 */
module TgaHeader {
  import opened TgaColor

  datatype Option<T> = None | Some(value: T)

  const HeaderSize: nat := 18

  /** TGAImage::FORMAT. */
  const GRAYSCALE: int := 1
  const RGB: int := 3
  const RGBA: int := 4

  /** The header; char fields keep their byte, short fields hold their signed value. */
  datatype Header = Header(
    idLength: byte, colorMapType: byte, dataTypeCode: byte,
    colorMapOrigin: int, colorMapLength: int, colorMapDepth: byte,
    originX: int, originY: int, width: int, height: int,
    bitsPerPixel: byte, imageDescriptor: byte)

  predicate IsShort(v: int) {
    -0x8000 <= v < 0x8000
  }

  /** A byte read as a signed char. */
  function SignedChar(b: byte): (v: int)
    ensures -0x80 <= v < 0x80 && v % 0x100 == b as int
  {
    if b < 0x80 then b as int else b as int - 0x100
  }

  /** Two bytes, low byte first, read as a signed short. */
  function SignedShort(lo: byte, hi: byte): (v: int)
    ensures IsShort(v)
  {
    var u := lo as int + 0x100 * hi as int;
    if u < 0x8000 then u else u - 0x1_0000
  }

  /** The two bytes, low byte first, of an int assigned to a short. */
  function ShortBytes(v: int): (s: seq<byte>)
    ensures |s| == 2 && (s[0] as int + 0x100 * s[1] as int) == v % 0x1_0000
  {
    var u := v % 0x1_0000;
    [(u % 0x100) as byte, (u / 0x100) as byte]
  }

  /** The value an int keeps when it is assigned to a short (two's complement truncation). */
  function ToShort(v: int): (r: int)
    ensures IsShort(r) && (r - v) % 0x1_0000 == 0
    ensures IsShort(v) ==> r == v
  {
    (v + 0x8000) % 0x1_0000 - 0x8000
  }

  /** Writing a short and reading it back truncates it to 16 bits. */
  lemma ShortRoundTrip(v: int)
    ensures SignedShort(ShortBytes(v)[0], ShortBytes(v)[1]) == ToShort(v)
  {
    var u := v % 0x1_0000;
    assert ToShort(v) == (if u < 0x8000 then u else u - 0x1_0000);
  }

  /** in.read((char*)&header, sizeof(header)): the first 18 bytes, or nothing when the stream is shorter. */
  function ParseHeader(s: seq<byte>): (h: Option<Header>)
    ensures h.Some? <==> |s| >= HeaderSize
  {
    if |s| < HeaderSize then None
    else Some(Header(
      s[0], s[1], s[2],
      SignedShort(s[3], s[4]), SignedShort(s[5], s[6]), s[7],
      SignedShort(s[8], s[9]), SignedShort(s[10], s[11]),
      SignedShort(s[12], s[13]), SignedShort(s[14], s[15]),
      s[16], s[17]))
  }

  /** out.write((char*)&header, sizeof(header)). */
  function HeaderBytes(h: Header): (s: seq<byte>)
    ensures |s| == HeaderSize
  {
    [h.idLength, h.colorMapType, h.dataTypeCode]
      + ShortBytes(h.colorMapOrigin) + ShortBytes(h.colorMapLength) + [h.colorMapDepth]
      + ShortBytes(h.originX) + ShortBytes(h.originY)
      + ShortBytes(h.width) + ShortBytes(h.height)
      + [h.bitsPerPixel, h.imageDescriptor]
  }

  /** Every short field of a header holds a short. */
  predicate ShortFields(h: Header) {
    IsShort(h.colorMapOrigin) && IsShort(h.colorMapLength) && IsShort(h.originX) &&
    IsShort(h.originY) && IsShort(h.width) && IsShort(h.height)
  }

  /** Writing a header and reading it back gives the same header, whatever follows it. */
  lemma HeaderRoundTrip(h: Header, rest: seq<byte>)
    requires ShortFields(h)
    ensures ParseHeader(HeaderBytes(h) + rest) == Some(h)
  {
    var s := HeaderBytes(h) + rest;
    ShortRoundTrip(h.colorMapOrigin);
    ShortRoundTrip(h.colorMapLength);
    ShortRoundTrip(h.originX);
    ShortRoundTrip(h.originY);
    ShortRoundTrip(h.width);
    ShortRoundTrip(h.height);
    assert s[3] == ShortBytes(h.colorMapOrigin)[0] && s[4] == ShortBytes(h.colorMapOrigin)[1];
    assert s[5] == ShortBytes(h.colorMapLength)[0] && s[6] == ShortBytes(h.colorMapLength)[1];
    assert s[8] == ShortBytes(h.originX)[0] && s[9] == ShortBytes(h.originX)[1];
    assert s[10] == ShortBytes(h.originY)[0] && s[11] == ShortBytes(h.originY)[1];
    assert s[12] == ShortBytes(h.width)[0] && s[13] == ShortBytes(h.width)[1];
    assert s[14] == ShortBytes(h.height)[0] && s[15] == ShortBytes(h.height)[1];
  }

  /** Reading 18 bytes as a header and writing it back reproduces them. */
  lemma BytesRoundTrip(s: seq<byte>)
    requires |s| >= HeaderSize
    ensures HeaderBytes(ParseHeader(s).value) == s[..HeaderSize]
  {
    var h := ParseHeader(s).value;
    forall lo: byte, hi: byte ensures ShortBytes(SignedShort(lo, hi)) == [lo, hi] {
      var u := lo as int + 0x100 * hi as int;
      assert SignedShort(lo, hi) % 0x1_0000 == u;
    }
    assert HeaderBytes(h) == s[..HeaderSize];
  }

  /** bytespp = header.bitsPerPixel >> 3: an arithmetic shift of the signed char. */
  function BytesPerPixel(h: Header): (bpp: int)
    ensures -16 <= bpp < 16
  {
    SignedChar(h.bitsPerPixel) / 8
  }

  /** The dimensions and pixel size readTGAFile accepts (lines 89-95). */
  predicate Acceptable(h: Header) {
    h.width > 0 && h.height > 0 &&
    (BytesPerPixel(h) == GRAYSCALE || BytesPerPixel(h) == RGB || BytesPerPixel(h) == RGBA)
  }

  /** How the pixel data after the header is stored. */
  datatype Storage = Uncompressed | RunLength | Unknown

  /** Types 2 and 3 are raw, 10 and 11 run-length encoded; readTGAFile rejects every other type (lines 100-126). */
  function StorageOf(code: byte): (st: Storage)
    ensures st == Uncompressed <==> code == 2 || code == 3
    ensures st == RunLength <==> code == 10 || code == 11
  {
    if code == 2 || code == 3 then Uncompressed
    else if code == 10 || code == 11 then RunLength
    else Unknown
  }

  /** A clear bit 5 of the descriptor means bottom-up rows: flip vertically after reading (line 128). */
  predicate FlipsRows(h: Header) {
    h.imageDescriptor as int / 0x20 % 2 == 0
  }

  /** A set bit 4 of the descriptor means right-to-left columns: flip horizontally after reading (line 131). */
  predicate FlipsColumns(h: Header) {
    h.imageDescriptor as int / 0x10 % 2 == 1
  }

  /** The type code writeTGAFile stores (lines 160-161). */
  function WriterTypeCode(bpp: int, rle: bool): (code: byte)
    ensures StorageOf(code) == (if rle then RunLength else Uncompressed)
    ensures (code == 3 || code == 11) <==> bpp == GRAYSCALE
  {
    if bpp == GRAYSCALE then (if rle then 11 else 3) else (if rle then 10 else 2)
  }

  /** The header writeTGAFile writes for an image (lines 155-162): zero but for size, depth, type and a top-left origin. */
  function WriterHeader(width: int, height: int, bpp: int, rle: bool): (h: Header)
    ensures ShortFields(h)
  {
    Header(0, 0, WriterTypeCode(bpp, rle), 0, 0, 0, 0, 0,
      ToShort(width), ToShort(height), (bpp * 8 % 0x100) as byte, 0x20)
  }

  /**
   * An image whose sizes fit a short and whose pixel size the reader accepts
   * has a header the reader accepts as it is: same sizes and pixel size, the
   * matching storage, and no flip.
   */
  lemma WriterHeaderAccepted(width: int, height: int, bpp: int, rle: bool)
    requires 0 < width < 0x8000 && 0 < height < 0x8000
    requires bpp == GRAYSCALE || bpp == RGB || bpp == RGBA
    ensures var h := WriterHeader(width, height, bpp, rle);
      Acceptable(h) && h.width == width && h.height == height && BytesPerPixel(h) == bpp &&
      StorageOf(h.dataTypeCode) == (if rle then RunLength else Uncompressed) &&
      !FlipsRows(h) && !FlipsColumns(h)
  {
    var h := WriterHeader(width, height, bpp, rle);
    assert SignedChar(h.bitsPerPixel) == bpp * 8;
  }

  /**
   * The reader's depth check works on whole bytes: it lets through exactly
   * the bitsPerPixel values 8 to 15, 24 to 31 and 32 to 39, whose shift by
   * 3 gives 1, 3 or 4. A header is accepted exactly when it also has
   * positive sizes.
   */
  lemma DepthRule(h: Header)
    ensures (BytesPerPixel(h) == GRAYSCALE || BytesPerPixel(h) == RGB || BytesPerPixel(h) == RGBA) <==>
      (8 <= h.bitsPerPixel < 16 || 24 <= h.bitsPerPixel < 40)
    ensures Acceptable(h) <==>
      h.width > 0 && h.height > 0 && (8 <= h.bitsPerPixel < 16 || 24 <= h.bitsPerPixel < 40)
  {}
}
