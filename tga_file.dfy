/**
 * readTGAFile and writeTGAFile (src/tgaimage.cpp:59-222) as functions
 * from and to the bytes of a file.  Opening, closing and the stream state
 * are left to the caller; a read that runs out of bytes is a failure.
 */
module TgaFile {
  import opened TgaColor
  import opened TgaLayout
  import opened TgaRaster
  import opened TgaRle
  import opened TgaHeader

  /** The zero developer and extension area offsets and the footer written after the pixel data (lines 141-144). */
  const Trailer: seq<byte> := [0, 0, 0, 0, 0, 0, 0, 0,
    84, 82, 85, 69, 86, 73, 83, 73, 79, 78, 45, 88, 70, 73, 76, 69, 46, 0]

  /** The state a successful readTGAFile leaves: sizes, pixel size and pixel buffer. */
  datatype Image = Image(width: int, height: int, bytespp: int, data: seq<byte>)

  /** The pixel bytes read after an accepted header (lines 97-126), before any flip. */
  function ReadPixels(h: Header, body: seq<byte>): (r: Option<seq<byte>>)
    requires Acceptable(h)
    ensures r.Some? ==> Fits(r.value, h.width, h.height, BytesPerPixel(h))
    ensures StorageOf(h.dataTypeCode) == Unknown ==> r.None?
  {
    var bpp := BytesPerPixel(h);
    var n := h.width * h.height * bpp;
    match StorageOf(h.dataTypeCode)
    case Uncompressed =>
      if |body| < n then None else Some(body[..n])
    case RunLength =>
      var np := h.width * h.height;
      var r := Decode(body, 0, np, bpp);
      DecodeWithinBuffer(body, 0, np, bpp);
      FlattenLength(r.pixels, bpp);
      if r.ok then Some(Flatten(r.pixels)) else None
    case Unknown =>
      None
  }

  /** readTGAFile: the header, the pixel data, then the flips the descriptor asks for. */
  function Read(file: seq<byte>): (r: Option<Image>)
    ensures r.Some? ==> Fits(r.value.data, r.value.width, r.value.height, r.value.bytespp)
    ensures r.Some? ==> |file| >= HeaderSize && Acceptable(ParseHeader(file).value)
  {
    match ParseHeader(file)
    case None => None
    case Some(h) =>
      if !Acceptable(h) then None
      else match ReadPixels(h, file[HeaderSize..])
        case None => None
        case Some(d) =>
          var bpp := BytesPerPixel(h);
          var d1 := if FlipsRows(h) then FlipV(d, h.width, h.height, bpp) else d;
          var d2 := if FlipsColumns(h) then FlipH(d1, h.width, h.height, bpp) else d1;
          Some(Image(h.width, h.height, bpp, d2))
  }

  /** The pixel data writeTGAFile writes: the buffer as it is, or its run-length packets (lines 172-191). */
  function PixelData(d: seq<byte>, w: int, h: int, bpp: int, rle: bool): seq<byte>
    requires Fits(d, w, h, bpp)
  {
    if rle then Encode(d, w * h, bpp) else d
  }

  /** writeTGAFile: header, pixel data, trailer. */
  function Write(d: seq<byte>, w: int, h: int, bpp: int, rle: bool): seq<byte>
    requires Fits(d, w, h, bpp)
  {
    HeaderBytes(WriterHeader(w, h, bpp, rle)) + PixelData(d, w, h, bpp, rle) + Trailer
  }

  /**
   * An image the reader accepts (sizes that fit a short, 1, 3 or 4 bytes
   * per pixel) reads back as written, raw or run-length encoded.
   */
  lemma WriteThenRead(d: seq<byte>, w: int, h: int, bpp: int, rle: bool)
    requires Fits(d, w, h, bpp) && 0 < w < 0x8000 && 0 < h < 0x8000
    requires bpp == GRAYSCALE || bpp == RGB || bpp == RGBA
    ensures Read(Write(d, w, h, bpp, rle)) == Some(Image(w, h, bpp, d))
  {
    var hd := WriterHeader(w, h, bpp, rle);
    var body := PixelData(d, w, h, bpp, rle) + Trailer;
    var file := Write(d, w, h, bpp, rle);
    assert file == HeaderBytes(hd) + body;
    HeaderRoundTrip(hd, body);
    WriterHeaderAccepted(w, h, bpp, rle);
    assert file[HeaderSize..] == body;
    if rle {
      RoundTrip(d, w * h, bpp, Trailer);
    } else {
      assert body[..|d|] == d;
    }
  }
}
