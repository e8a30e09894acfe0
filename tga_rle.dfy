/**
 * Run-length packets of TGA image types 10 and 11: loadRLEData and
 * unloadRLEData (src/tgaimage.cpp:364-494) as functions on byte sequences.
 *
 * A packet is a header byte and a payload.  A header below 128 starts a raw
 * packet of header + 1 literal pixels; a header of 128 or more starts a
 * repeat packet: one pixel that stands for header - 127 copies.  Pixels are
 * bytespp bytes each; the functions below deal in whole pixels, and
 * Flatten gives the bytes they occupy in the image buffer.
 */
module TgaRle {
  import opened TgaColor
  import opened TgaLayout

  /** The bytes of one pixel. */
  type Pixel = seq<byte>

  /** Every pixel has bpp bytes. */
  predicate PixelsOf(px: seq<Pixel>, bpp: nat) {
    forall i :: 0 <= i < |px| ==> |px[i]| == bpp
  }

  /** The bytes of consecutive pixels. */
  function Flatten(px: seq<Pixel>): seq<byte> {
    if px == [] then [] else px[0] + Flatten(px[1..])
  }

  lemma {:induction false} FlattenAppend(a: seq<Pixel>, b: seq<Pixel>)
    ensures Flatten(a + b) == Flatten(a) + Flatten(b)
    decreases |a|
  {
    if a != [] {
      assert (a + b)[1..] == a[1..] + b;
      FlattenAppend(a[1..], b);
    } else {
      assert a + b == b;
    }
  }

  lemma {:induction false} FlattenLength(px: seq<Pixel>, bpp: nat)
    requires PixelsOf(px, bpp)
    ensures |Flatten(px)| == |px| * bpp
    decreases |px|
  {
    if px != [] {
      FlattenLength(px[1..], bpp);
      assert |px| * bpp == (|px| - 1) * bpp + bpp;
    }
  }

  /** The outcome of decoding: success, and the pixels stored in the image buffer from its start. */
  datatype Decoded = Decoded(ok: bool, pixels: seq<Pixel>)

  function Prepend(px: seq<Pixel>, r: Decoded): Decoded {
    Decoded(r.ok, px + r.pixels)
  }

  /** The part of a packet still to be expanded: literal pixels still to be read, or a repeated pixel. */
  datatype Run = Literal | Repeat(pixel: Pixel)

  // ---------------------------------------------------------------------
  // Decoding, with the pixel count checked before each pixel is stored
  // ---------------------------------------------------------------------

  /**
   * loadRLEData from pixel cur of pc, where `input` is the unread rest of the
   * stream: it stops with success once pc pixels are stored, and fails when
   * the stream ends inside a header or a pixel, or when a packet would store
   * more than pc pixels.
   */
  function Decode(input: seq<byte>, cur: nat, pc: nat, bpp: nat): (r: Decoded)
    requires cur <= pc
    decreases pc - cur, 2, 0
  {
    if cur == pc then Decoded(true, [])
    else if |input| == 0 then Decoded(false, [])
    else if input[0] < 128 then Expand(input[1..], input[0] as nat + 1, Literal, cur, pc, bpp)
    else if |input| - 1 < bpp then Decoded(false, [])
    else Expand(input[1 + bpp..], input[0] as nat - 127, Repeat(input[1..1 + bpp]), cur, pc, bpp)
  }

  /** The remaining n pixels of the current packet, then the packets after it. */
  function Expand(input: seq<byte>, n: nat, run: Run, cur: nat, pc: nat, bpp: nat): (r: Decoded)
    requires cur <= pc
    decreases pc - cur, if n == 0 then 3 else 1, n
  {
    if n == 0 then Decode(input, cur, pc, bpp)
    else match run
      case Literal =>
        if |input| < bpp then Decoded(false, [])
        else if cur == pc then Decoded(false, [])
        else Prepend([input[..bpp]], Expand(input[bpp..], n - 1, Literal, cur + 1, pc, bpp))
      case Repeat(pixel) =>
        if cur == pc then Decoded(false, [])
        else Prepend([pixel], Expand(input, n - 1, run, cur + 1, pc, bpp))
  }

  /**
   * Decoding stores whole pixels, never more than the pc - cur the buffer
   * has room for, and all of them when it succeeds.
   */
  lemma {:induction false} DecodeWithinBuffer(input: seq<byte>, cur: nat, pc: nat, bpp: nat)
    requires cur <= pc
    ensures PixelsOf(Decode(input, cur, pc, bpp).pixels, bpp)
    ensures |Decode(input, cur, pc, bpp).pixels| <= pc - cur
    ensures Decode(input, cur, pc, bpp).ok ==> |Decode(input, cur, pc, bpp).pixels| == pc - cur
    decreases pc - cur, 2, 0
  {
    if cur == pc || |input| == 0 {
    } else if input[0] < 128 {
      ExpandWithinBuffer(input[1..], input[0] as nat + 1, Literal, cur, pc, bpp);
    } else if |input| - 1 < bpp {
    } else {
      ExpandWithinBuffer(input[1 + bpp..], input[0] as nat - 127, Repeat(input[1..1 + bpp]), cur, pc, bpp);
    }
  }

  lemma {:induction false} ExpandWithinBuffer(input: seq<byte>, n: nat, run: Run, cur: nat, pc: nat, bpp: nat)
    requires cur <= pc
    requires run.Repeat? ==> |run.pixel| == bpp
    ensures PixelsOf(Expand(input, n, run, cur, pc, bpp).pixels, bpp)
    ensures |Expand(input, n, run, cur, pc, bpp).pixels| <= pc - cur
    ensures Expand(input, n, run, cur, pc, bpp).ok ==> |Expand(input, n, run, cur, pc, bpp).pixels| == pc - cur
    decreases pc - cur, if n == 0 then 3 else 1, n
  {
    if n == 0 {
      DecodeWithinBuffer(input, cur, pc, bpp);
    } else if cur < pc {
      match run
      case Literal =>
        if |input| >= bpp {
          ExpandWithinBuffer(input[bpp..], n - 1, Literal, cur + 1, pc, bpp);
        }
      case Repeat(pixel) =>
        ExpandWithinBuffer(input, n - 1, run, cur + 1, pc, bpp);
    }
  }

  /** Reading a packet header at position pos of the stream (lines 373-381, 410-416). */
  lemma DecodeStep(input: seq<byte>, pos: nat, cur: nat, pc: nat, bpp: nat)
    requires pos < |input| && cur < pc
    ensures input[pos] < 128 ==>
      Decode(input[pos..], cur, pc, bpp) == Expand(input[pos + 1..], input[pos] as nat + 1, Literal, cur, pc, bpp)
    ensures input[pos] >= 128 && |input| - (pos + 1) < bpp ==> !Decode(input[pos..], cur, pc, bpp).ok && Decode(input[pos..], cur, pc, bpp).pixels == []
    ensures input[pos] >= 128 && |input| - (pos + 1) >= bpp ==>
      Decode(input[pos..], cur, pc, bpp) ==
        Expand(input[pos + 1 + bpp..], input[pos] as nat - 127, Repeat(input[pos + 1..pos + 1 + bpp]), cur, pc, bpp)
  {
    var s := input[pos..];
    assert s[0] == input[pos] && s[1..] == input[pos + 1..];
    if |input| - (pos + 1) >= bpp {
      assert s[1 + bpp..] == input[pos + 1 + bpp..] && s[1..1 + bpp] == input[pos + 1..pos + 1 + bpp];
    }
  }

  /** Reading the next literal pixel of a raw packet at position pos (lines 385-392). */
  lemma LiteralStep(input: seq<byte>, pos: nat, n: nat, cur: nat, pc: nat, bpp: nat)
    requires n > 0 && cur <= pc && pos <= |input|
    ensures |input| - pos < bpp ==> Expand(input[pos..], n, Literal, cur, pc, bpp) == Decoded(false, [])
    ensures |input| - pos >= bpp && cur == pc ==> Expand(input[pos..], n, Literal, cur, pc, bpp) == Decoded(false, [])
    ensures |input| - pos >= bpp && cur < pc ==>
      Expand(input[pos..], n, Literal, cur, pc, bpp) ==
        Prepend([input[pos..pos + bpp]], Expand(input[pos + bpp..], n - 1, Literal, cur + 1, pc, bpp))
  {
    var s := input[pos..];
    if |input| - pos >= bpp {
      assert s[..bpp] == input[pos..pos + bpp] && s[bpp..] == input[pos + bpp..];
    }
  }

  /** Decoding after storing px and then more pixels is decoding after px + more. */
  lemma PrependTwice(px: seq<Pixel>, more: seq<Pixel>, r: Decoded)
    ensures Prepend(px, Prepend(more, r)) == Prepend(px + more, r)
  {
    assert px + (more + r.pixels) == (px + more) + r.pixels;
  }

  lemma FlattenTimes(px: seq<Pixel>, bpp: nat)
    requires PixelsOf(px, bpp)
    ensures |Flatten(px)| == Times(|px|, bpp)
  {
    FlattenLength(px, bpp);
    TimesIsMul(|px|, bpp);
  }

  /** The image buffer t while decoding: the bytes of the pixels stored, from its start, then the old bytes of d0. */
  ghost predicate Loaded(t: seq<byte>, d0: seq<byte>, stored: seq<Pixel>, at: int, bpp: nat) {
    PixelsOf(stored, bpp) && at == Times(|stored|, bpp) && |Flatten(stored)| == at &&
    |t| == |d0| && 0 <= at <= |d0| && t == Flatten(stored) + d0[at..]
  }

  /** Storing one more pixel after the stored ones: the buffer gets its bytes next. */
  lemma LoadedStore(t: seq<byte>, t1: seq<byte>, d0: seq<byte>, stored: seq<Pixel>, pixel: Pixel, at: int, bpp: nat)
    requires Loaded(t, d0, stored, at, bpp) && |pixel| == bpp && at + bpp <= |d0|
    requires t1 == t[..at] + pixel + t[at + bpp..]
    ensures Loaded(t1, d0, stored + [pixel], at + bpp, bpp)
  {
    var more := stored + [pixel];
    assert PixelsOf(more, bpp) by {
      forall i | 0 <= i < |more| ensures |more[i]| == bpp {
        if i < |stored| {
          assert more[i] == stored[i];
        }
      }
    }
    FlattenAppend(stored, [pixel]);
    assert Flatten([pixel]) == pixel + Flatten([]);
    assert t[..at] == Flatten(stored);
    assert t[at + bpp..] == d0[at + bpp..];
    TimesSucc(|stored|, bpp);
  }

  // ---------------------------------------------------------------------
  // Decoding as written: each pixel is stored before the count is checked
  // ---------------------------------------------------------------------

  /** loadRLEData as the source writes it (lines 385-404 and 418-429). */
  function DecodeAsWritten(input: seq<byte>, cur: nat, pc: nat, bpp: nat): (r: Decoded)
    requires cur <= pc
    decreases pc - cur, 2, 0
  {
    if cur == pc then Decoded(true, [])
    else if |input| == 0 then Decoded(false, [])
    else if input[0] < 128 then ExpandAsWritten(input[1..], input[0] as nat + 1, Literal, cur, pc, bpp)
    else if |input| - 1 < bpp then Decoded(false, [])
    else ExpandAsWritten(input[1 + bpp..], input[0] as nat - 127, Repeat(input[1..1 + bpp]), cur, pc, bpp)
  }

  function ExpandAsWritten(input: seq<byte>, n: nat, run: Run, cur: nat, pc: nat, bpp: nat): (r: Decoded)
    requires cur <= pc
    decreases pc - cur, if n == 0 then 3 else 1, n
  {
    if n == 0 then DecodeAsWritten(input, cur, pc, bpp)
    else match run
      case Literal =>
        if |input| < bpp then Decoded(false, [])
        else Prepend([input[..bpp]],
          if pc < cur + 1 then Decoded(false, [])
          else ExpandAsWritten(input[bpp..], n - 1, Literal, cur + 1, pc, bpp))
      case Repeat(pixel) =>
        Prepend([pixel],
          if pc < cur + 1 then Decoded(false, [])
          else ExpandAsWritten(input, n - 1, run, cur + 1, pc, bpp))
  }

  /**
   * A buffer of one pixel of one byte and the stream [1, 7, 8] (a raw packet
   * of two pixels): the source stores two pixels, the second one past the
   * end of the buffer, before it reports too many pixels.
   */
  lemma OverrunExample()
    ensures DecodeAsWritten([1, 7, 8], 0, 1, 1) == Decoded(false, [[7], [8]])
    ensures |Flatten(DecodeAsWritten([1, 7, 8], 0, 1, 1).pixels)| == 2
    ensures Decode([1, 7, 8], 0, 1, 1) == Decoded(false, [[7]])
  {
    var s: seq<byte> := [1, 7, 8];
    var t, u: seq<byte> := [7, 8], [8];
    assert s[1..] == t && t[..1] == [7] && t[1..] == u && u[..1] == u && u[1..] == [];
    assert ExpandAsWritten([8], 1, Literal, 1, 1, 1) == Decoded(false, [[8]]);
    assert ExpandAsWritten(s[1..], 2, Literal, 0, 1, 1) == Decoded(false, [[7], [8]]);
    assert Expand([8], 1, Literal, 1, 1, 1) == Decoded(false, []);
    assert Expand(s[1..], 2, Literal, 0, 1, 1) == Decoded(false, [[7]]);
    var two: seq<Pixel> := [[7], [8]];
    assert Flatten(two[1..]) == [8];
  }

  /**
   * The two decoders agree on success; when they store different pixels,
   * the source has stored one pixel more than the buffer holds.
   */
  lemma {:induction false} AsWrittenOverrunsByOnePixel(input: seq<byte>, cur: nat, pc: nat, bpp: nat)
    requires cur <= pc
    ensures DecodeAsWritten(input, cur, pc, bpp).ok == Decode(input, cur, pc, bpp).ok
    ensures DecodeAsWritten(input, cur, pc, bpp).pixels == Decode(input, cur, pc, bpp).pixels ||
      (!Decode(input, cur, pc, bpp).ok && |DecodeAsWritten(input, cur, pc, bpp).pixels| == pc - cur + 1 &&
       DecodeAsWritten(input, cur, pc, bpp).pixels[..pc - cur] == Decode(input, cur, pc, bpp).pixels)
    decreases pc - cur, 2, 0
  {
    if cur == pc || |input| == 0 {
    } else if input[0] < 128 {
      ExpandAsWrittenOverruns(input[1..], input[0] as nat + 1, Literal, cur, pc, bpp);
    } else if |input| - 1 < bpp {
    } else {
      ExpandAsWrittenOverruns(input[1 + bpp..], input[0] as nat - 127, Repeat(input[1..1 + bpp]), cur, pc, bpp);
    }
  }

  lemma {:induction false} ExpandAsWrittenOverruns(input: seq<byte>, n: nat, run: Run, cur: nat, pc: nat, bpp: nat)
    requires cur <= pc
    ensures ExpandAsWritten(input, n, run, cur, pc, bpp).ok == Expand(input, n, run, cur, pc, bpp).ok
    ensures ExpandAsWritten(input, n, run, cur, pc, bpp).pixels == Expand(input, n, run, cur, pc, bpp).pixels ||
      (!Expand(input, n, run, cur, pc, bpp).ok && |ExpandAsWritten(input, n, run, cur, pc, bpp).pixels| == pc - cur + 1 &&
       ExpandAsWritten(input, n, run, cur, pc, bpp).pixels[..pc - cur] == Expand(input, n, run, cur, pc, bpp).pixels)
    decreases pc - cur, if n == 0 then 3 else 1, n
  {
    if n == 0 {
      AsWrittenOverrunsByOnePixel(input, cur, pc, bpp);
    } else if run.Literal? && |input| < bpp {
    } else if cur < pc {
      var rest := if run.Literal? then input[bpp..] else input;
      var pixel := if run.Literal? then input[..bpp] else run.pixel;
      ExpandAsWrittenOverruns(rest, n - 1, run, cur + 1, pc, bpp);
      var a := ExpandAsWritten(rest, n - 1, run, cur + 1, pc, bpp);
      var c := Expand(rest, n - 1, run, cur + 1, pc, bpp);
      assert ExpandAsWritten(input, n, run, cur, pc, bpp) == Prepend([pixel], a);
      assert Expand(input, n, run, cur, pc, bpp) == Prepend([pixel], c);
      if a.pixels != c.pixels {
        assert ([pixel] + a.pixels)[..pc - cur] == [pixel] + a.pixels[..pc - (cur + 1)];
      }
    }
  }

  // ---------------------------------------------------------------------
  // Packets
  // ---------------------------------------------------------------------

  /** A header and the pixels that follow it in the stream. */
  datatype Packet = Packet(header: byte, payload: seq<Pixel>)

  /** The number of pixels a packet stands for. */
  function Count(p: Packet): (n: nat)
    ensures 1 <= n <= 128
  {
    if p.header < 128 then p.header as nat + 1 else p.header as nat - 127
  }

  /** A raw packet carries all its pixels; a repeat packet carries one. */
  predicate WellFormed(p: Packet, bpp: nat) {
    PixelsOf(p.payload, bpp) && |p.payload| >= 1 && |p.payload| == (if p.header < 128 then Count(p) else 1)
  }

  /** The pixels a packet stands for: its payload, or copies of the one pixel it carries. */
  function Pixels(p: Packet): seq<Pixel> {
    if p.header < 128 then p.payload else seq(Count(p), _ => Flatten(p.payload))
  }

  /** The bytes of a sequence of packets, as written to the stream. */
  function Serialize(ps: seq<Packet>): seq<byte> {
    if ps == [] then [] else [ps[0].header] + Flatten(ps[0].payload) + Serialize(ps[1..])
  }

  function TotalCount(ps: seq<Packet>): nat {
    if ps == [] then 0 else Count(ps[0]) + TotalCount(ps[1..])
  }

  function Expansion(ps: seq<Packet>): seq<Pixel> {
    if ps == [] then [] else Pixels(ps[0]) + Expansion(ps[1..])
  }

  lemma {:induction false} ExpandLiteral(px: seq<Pixel>, rest: seq<byte>, cur: nat, pc: nat, bpp: nat)
    requires PixelsOf(px, bpp) && cur + |px| <= pc
    ensures Expand(Flatten(px) + rest, |px|, Literal, cur, pc, bpp) == Prepend(px, Decode(rest, cur + |px|, pc, bpp))
    decreases |px|
  {
    var s := Flatten(px) + rest;
    if px != [] {
      assert s == px[0] + (Flatten(px[1..]) + rest);
      assert s[..bpp] == px[0];
      assert s[bpp..] == Flatten(px[1..]) + rest;
      ExpandLiteral(px[1..], rest, cur + 1, pc, bpp);
      assert [px[0]] + px[1..] == px;
    } else {
      assert s == rest;
    }
  }

  lemma {:induction false} ExpandRepeat(pixel: Pixel, n: nat, rest: seq<byte>, cur: nat, pc: nat, bpp: nat)
    requires cur + n <= pc
    ensures Expand(rest, n, Repeat(pixel), cur, pc, bpp) == Prepend(seq(n, _ => pixel), Decode(rest, cur + n, pc, bpp))
    decreases n
  {
    if n > 0 {
      ExpandRepeat(pixel, n - 1, rest, cur + 1, pc, bpp);
      assert [pixel] + seq(n - 1, _ => pixel) == seq(n, _ => pixel);
    }
  }

  /** One well-formed packet decodes to the pixels it stands for. */
  lemma DecodePacket(p: Packet, rest: seq<byte>, cur: nat, pc: nat, bpp: nat)
    requires WellFormed(p, bpp) && cur + Count(p) <= pc
    ensures Decode([p.header] + Flatten(p.payload) + rest, cur, pc, bpp) ==
      Prepend(Pixels(p), Decode(rest, cur + Count(p), pc, bpp))
  {
    var s := [p.header] + Flatten(p.payload) + rest;
    assert s[1..] == Flatten(p.payload) + rest;
    if p.header < 128 {
      ExpandLiteral(p.payload, rest, cur, pc, bpp);
    } else {
      assert p.payload == [p.payload[0]];
      assert Flatten(p.payload) == p.payload[0];
      assert s[1..1 + bpp] == p.payload[0];
      assert s[1 + bpp..] == rest;
      ExpandRepeat(Flatten(p.payload), Count(p), rest, cur, pc, bpp);
    }
  }

  /**
   * Well-formed packets covering exactly the pixels left decode to the
   * pixels they stand for, whatever follows them in the stream.
   */
  lemma {:induction false} DecodeSerialized(ps: seq<Packet>, tail: seq<byte>, cur: nat, pc: nat, bpp: nat)
    requires forall i :: 0 <= i < |ps| ==> WellFormed(ps[i], bpp)
    requires cur + TotalCount(ps) == pc
    ensures Decode(Serialize(ps) + tail, cur, pc, bpp) == Decoded(true, Expansion(ps))
    decreases |ps|
  {
    if ps != [] {
      var p := ps[0];
      var rest := Serialize(ps[1..]) + tail;
      assert Serialize(ps) + tail == [p.header] + Flatten(p.payload) + rest;
      DecodeSerialized(ps[1..], tail, cur + Count(p), pc, bpp);
      DecodePacket(p, rest, cur, pc, bpp);
    }
  }

  // ---------------------------------------------------------------------
  // Encoding
  // ---------------------------------------------------------------------

  /** All pixels of [p, q) equal pixel p. */
  predicate Uniform(px: seq<Pixel>, p: nat, q: nat)
    requires p < |px| && q <= |px|
  {
    forall i :: p <= i < q ==> px[i] == px[p]
  }

  /** Pixel i differs from the one after it. */
  predicate Differs(px: seq<Pixel>, i: nat)
    requires i + 1 < |px|
  {
    px[i] != px[i + 1]
  }

  /** Each pixel of [p, q) differs from the one after it. */
  predicate Alternating(px: seq<Pixel>, p: nat, q: nat)
    requires q <= |px|
  {
    forall i :: p <= i && i + 1 < q ==> Differs(px, i)
  }

  /** The length and kind of the packet that starts at a pixel. */
  datatype Chunk = Chunk(length: nat, raw: bool)

  const MaxChunkLength: nat := 128

  /**
   * The scan of lines 447-473 of the chunk that starts at pixel p and so far
   * ends before pixel q (a run length of q - p): a raw packet grows while
   * consecutive pixels differ and gives back its last pixel when two equal
   * ones meet; a repeat packet grows while they are equal; neither grows
   * past 128 pixels or the end of the image.
   */
  function Scan(px: seq<Pixel>, p: nat, q: nat, raw: bool): (c: Chunk)
    requires p < q <= |px| && q - p <= MaxChunkLength
    requires q - p == 1 ==> raw
    requires !raw ==> q - p >= 2
    ensures 1 <= c.length <= MaxChunkLength && p + c.length <= |px|
    ensures !c.raw ==> c.length >= 2
    decreases |px| - q
  {
    if !(q < |px| && q - p < MaxChunkLength) then Chunk(q - p, raw)
    else
      var eq := px[q - 1] == px[q];
      var raw' := if q - p == 1 then !eq else raw;
      if raw' && eq then Chunk(q - p - 1, raw')
      else if !raw' && !eq then Chunk(q - p, raw')
      else Scan(px, p, q + 1, raw')
  }

  /**
   * A scan that has seen only differing neighbours (raw) or only equal
   * ones (repeat) ends with a chunk of the same kind: a raw chunk's pixels
   * each differ from the next, a repeat chunk's pixels are all equal.
   */
  lemma {:induction false} ScanShape(px: seq<Pixel>, p: nat, q: nat, raw: bool)
    requires p < q <= |px| && q - p <= MaxChunkLength
    requires q - p == 1 ==> raw
    requires raw ==> Alternating(px, p, q)
    requires !raw ==> q - p >= 2 && Uniform(px, p, q)
    ensures var c := Scan(px, p, q, raw);
      (c.raw ==> Alternating(px, p, p + c.length)) && (!c.raw ==> Uniform(px, p, p + c.length))
    decreases |px| - q
  {
    if q < |px| && q - p < MaxChunkLength {
      var eq := px[q - 1] == px[q];
      var raw' := if q - p == 1 then !eq else raw;
      if !(raw' && eq) && !(!raw' && !eq) {
        if raw' {
          assert Differs(px, q - 1);
        } else {
          assert px[q] == px[p];
        }
        ScanShape(px, p, q + 1, raw');
      }
    }
  }

  /** The packet unloadRLEData writes for a chunk starting at pixel p (lines 475-485). */
  function ChunkPacket(px: seq<Pixel>, p: nat, c: Chunk): (pk: Packet)
    requires 1 <= c.length <= MaxChunkLength && p + c.length <= |px|
    requires !c.raw ==> c.length >= 2
    ensures Count(pk) == c.length && pk.header != 128
  {
    if c.raw then Packet((c.length - 1) as byte, px[p..p + c.length])
    else Packet((c.length + 127) as byte, [px[p]])
  }

  /** The packets unloadRLEData writes for the pixels from p on. */
  function Chunks(px: seq<Pixel>, p: nat): (ps: seq<Packet>)
    requires p <= |px|
    decreases |px| - p
  {
    if p == |px| then []
    else
      var c := Scan(px, p, p + 1, true);
      [ChunkPacket(px, p, c)] + Chunks(px, p + c.length)
  }

  /** The packet written at pixel p is well formed and stands for the pixels of its chunk. */
  lemma ChunkPixels(px: seq<Pixel>, bpp: nat, p: nat)
    requires PixelsOf(px, bpp) && p < |px|
    ensures WellFormed(ChunkPacket(px, p, Scan(px, p, p + 1, true)), bpp)
    ensures Pixels(ChunkPacket(px, p, Scan(px, p, p + 1, true))) == px[p..p + Scan(px, p, p + 1, true).length]
  {
    var c := Scan(px, p, p + 1, true);
    if c.raw {
      RawChunk(px, bpp, p, c);
    } else {
      ScanShape(px, p, p + 1, true);
      RepeatChunk(px, bpp, p, c);
    }
  }

  /** A raw chunk's packet carries the chunk's pixels. */
  lemma RawChunk(px: seq<Pixel>, bpp: nat, p: nat, c: Chunk)
    requires PixelsOf(px, bpp) && c.raw && 1 <= c.length <= MaxChunkLength && p + c.length <= |px|
    ensures WellFormed(ChunkPacket(px, p, c), bpp)
    ensures Pixels(ChunkPacket(px, p, c)) == px[p..p + c.length]
  {
    var pk := ChunkPacket(px, p, c);
    assert pk.header as nat == c.length - 1 && pk.payload == px[p..p + c.length];
  }

  /** A repeat chunk's packet carries its first pixel, which all its pixels equal. */
  lemma RepeatChunk(px: seq<Pixel>, bpp: nat, p: nat, c: Chunk)
    requires PixelsOf(px, bpp) && !c.raw && 2 <= c.length <= MaxChunkLength && p + c.length <= |px|
    requires Uniform(px, p, p + c.length)
    ensures WellFormed(ChunkPacket(px, p, c), bpp)
    ensures Pixels(ChunkPacket(px, p, c)) == px[p..p + c.length]
  {
    var pk := ChunkPacket(px, p, c);
    assert pk.header as nat == c.length + 127 && pk.payload == [px[p]];
    assert Flatten(pk.payload) == px[p] + Flatten([]) == px[p];
    var copies, run := Pixels(pk), px[p..p + c.length];
    assert |copies| == Count(pk) == c.length;
    forall i | 0 <= i < c.length ensures copies[i] == run[i] {
      assert run[i] == px[p + i] == px[p];
    }
  }

  /** Every packet is well formed and none has the header 128 (a repeat packet of one pixel). */
  predicate AllWellFormed(ps: seq<Packet>, bpp: nat)
  {
    forall i :: 0 <= i < |ps| ==> WellFormed(ps[i], bpp) && ps[i].header != 128
  }

  lemma ConsWellFormed(pk: Packet, rest: seq<Packet>, bpp: nat)
    requires WellFormed(pk, bpp) && pk.header != 128 && AllWellFormed(rest, bpp)
    ensures AllWellFormed([pk] + rest, bpp)
  {
    var ps := [pk] + rest;
    forall i | 0 <= i < |ps| ensures WellFormed(ps[i], bpp) && ps[i].header != 128 {
      if i > 0 {
        assert ps[i] == rest[i - 1];
      }
    }
  }

  /** The first packet written from pixel p on is the one of the chunk at p. */
  lemma ChunksUnfold(px: seq<Pixel>, p: nat, c: Chunk, rest: seq<Packet>)
    requires p < |px| && c == Scan(px, p, p + 1, true) && rest == Chunks(px, p + c.length)
    ensures Chunks(px, p) == [ChunkPacket(px, p, c)] + rest
  {}

  /** The packets written from pixel p on are all well formed. */
  lemma {:induction false} ChunksWellFormed(px: seq<Pixel>, bpp: nat, p: nat)
    requires PixelsOf(px, bpp) && p <= |px|
    ensures AllWellFormed(Chunks(px, p), bpp)
    decreases |px| - p
  {
    if p < |px| {
      var c := Scan(px, p, p + 1, true);
      var q := p + c.length;
      ChunksWellFormed(px, bpp, q);
      ChunkPixels(px, bpp, p);
      ConsWellFormed(ChunkPacket(px, p, c), Chunks(px, q), bpp);
    }
  }

  lemma SplitAt<T>(s: seq<T>, p: int, q: int)
    requires 0 <= p <= q <= |s|
    ensures s[p..] == s[p..q] + s[q..]
  {}

  /** The packets written from pixel p on stand for |px| - p pixels. */
  lemma {:induction false} ChunksCount(px: seq<Pixel>, p: nat, ps: seq<Packet>)
    requires p <= |px| && ps == Chunks(px, p)
    ensures TotalCount(ps) == |px| - p
    decreases |px| - p
  {
    if p < |px| {
      var c := Scan(px, p, p + 1, true);
      var rest := Chunks(px, p + c.length);
      ChunksCount(px, p + c.length, rest);
      CountStep(px, p, c, ps, rest);
    }
  }

  lemma CountStep(px: seq<Pixel>, p: nat, c: Chunk, ps: seq<Packet>, rest: seq<Packet>)
    requires p < |px| && c == Scan(px, p, p + 1, true)
    requires ps == Chunks(px, p) && rest == Chunks(px, p + c.length)
    ensures TotalCount(ps) == c.length + TotalCount(rest)
  {
    ChunksUnfold(px, p, c, rest);
    assert ps[1..] == rest;
  }

  /** The packets written from pixel p on stand for exactly the pixels from p to the end. */
  lemma {:induction false} ChunksExpansion(px: seq<Pixel>, bpp: nat, p: nat, ps: seq<Packet>)
    requires PixelsOf(px, bpp) && p <= |px| && ps == Chunks(px, p)
    ensures Expansion(ps) == px[p..]
    decreases |px| - p
  {
    if p < |px| {
      var c := Scan(px, p, p + 1, true);
      var q := p + c.length;
      var rest := Chunks(px, q);
      ExpansionStep(px, p, c, ps, rest);
      ChunkPixels(px, bpp, p);
      ChunksExpansion(px, bpp, q, rest);
      SplitAt(px, p, q);
    }
  }

  lemma ExpansionStep(px: seq<Pixel>, p: nat, c: Chunk, ps: seq<Packet>, rest: seq<Packet>)
    requires p < |px| && c == Scan(px, p, p + 1, true)
    requires ps == Chunks(px, p) && rest == Chunks(px, p + c.length)
    ensures Expansion(ps) == Pixels(ChunkPacket(px, p, c)) + Expansion(rest)
  {
    ChunksUnfold(px, p, c, rest);
    assert ps[1..] == rest;
  }

  /** Decoding the packets unloadRLEData writes gives back the pixels. */
  lemma PacketRoundTrip(px: seq<Pixel>, bpp: nat, tail: seq<byte>)
    requires PixelsOf(px, bpp)
    ensures Decode(Serialize(Chunks(px, 0)) + tail, 0, |px|, bpp) == Decoded(true, px)
  {
    ChunksWellFormed(px, bpp, 0);
    ChunksCount(px, 0, Chunks(px, 0));
    ChunksExpansion(px, bpp, 0, Chunks(px, 0));
    DecodeSerialized(Chunks(px, 0), tail, 0, |px|, bpp);
  }

  // ---------------------------------------------------------------------
  // Image buffers
  // ---------------------------------------------------------------------

  /** A pixel count and bytes per pixel that describe the buffer d. */
  predicate Shaped(d: seq<byte>, np: nat, bpp: nat) {
    |d| == np * bpp
  }

  /** Pixel i of a buffer of np pixels lies inside it. */
  lemma PixelSlice(i: nat, np: nat, bpp: nat)
    requires i < np
    ensures 0 <= i * bpp && i * bpp + bpp <= np * bpp
  {
    MulMono(i + 1, np, bpp);
    assert (i + 1) * bpp == i * bpp + bpp;
  }

  /** The pixels of a buffer: its first bpp bytes, then the pixels of the rest. */
  function PixelList(d: seq<byte>, np: nat, bpp: nat): (px: seq<Pixel>)
    requires Shaped(d, np, bpp)
    ensures |px| == np && PixelsOf(px, bpp)
    decreases np
  {
    if np == 0 then []
    else
      MulSucc(np - 1, bpp);
      var rest := PixelList(d[bpp..], np - 1, bpp);
      assert forall i :: 1 <= i < np ==> ([d[..bpp]] + rest)[i] == rest[i - 1];
      [d[..bpp]] + rest
  }

  lemma {:induction false} FlattenPixelList(d: seq<byte>, np: nat, bpp: nat)
    requires Shaped(d, np, bpp)
    ensures Flatten(PixelList(d, np, bpp)) == d
    decreases np
  {
    if np > 0 {
      MulSucc(np - 1, bpp);
      var px, rest := PixelList(d, np, bpp), PixelList(d[bpp..], np - 1, bpp);
      assert px[0] == d[..bpp] && px[1..] == rest;
      FlattenPixelList(d[bpp..], np - 1, bpp);
      assert d == d[..bpp] + d[bpp..];
    }
  }

  /** Pixel k of the buffer is the bpp bytes at k * bpp, and the next one starts bpp bytes later. */
  lemma {:induction false} PixelAtByte(d: seq<byte>, np: nat, bpp: nat, k: nat)
    requires Shaped(d, np, bpp) && k < np
    ensures 0 <= k * bpp && k * bpp + bpp <= |d| && d[k * bpp..k * bpp + bpp] == PixelList(d, np, bpp)[k]
    ensures (k + 1) * bpp == k * bpp + bpp
    decreases k
  {
    PixelSlice(k, np, bpp);
    MulSucc(k, bpp);
    if k > 0 {
      MulSucc(np - 1, bpp);
      var rest := d[bpp..];
      PixelAtByte(rest, np - 1, bpp, k - 1);
      MulSucc(k - 1, bpp);
      var a := (k - 1) * bpp;
      assert rest[a..a + bpp] == d[bpp + a..bpp + a + bpp];
      assert PixelList(d, np, bpp)[k] == PixelList(rest, np - 1, bpp)[k - 1];
    }
  }

  /** The bytes of pixels p .. q - 1 are the bytes from pixel p up to pixel q. */
  lemma {:induction false} FlattenSpan(d: seq<byte>, np: nat, bpp: nat, p: nat, q: nat)
    requires Shaped(d, np, bpp) && p <= q <= np
    ensures 0 <= p * bpp <= q * bpp <= |d|
    ensures Flatten(PixelList(d, np, bpp)[p..q]) == d[p * bpp..q * bpp]
    decreases q - p
  {
    var px := PixelList(d, np, bpp);
    if p == q {
      MulMono(0, p, bpp);
      MulMono(q, np, bpp);
      assert px[p..q] == [];
    } else {
      FlattenSpan(d, np, bpp, p + 1, q);
      PixelAtByte(d, np, bpp, p);
      var run := px[p..q];
      assert run[0] == px[p] && run[1..] == px[p + 1..q];
      var a, b, c := p * bpp, p * bpp + bpp, q * bpp;
      assert d[a..c] == d[a..b] + d[b..c];
    }
  }

  /** The bytes of a packet followed by more. */
  lemma SerializeCons(pk: Packet, ps: seq<Packet>)
    ensures Serialize([pk] + ps) == [pk.header] + Flatten(pk.payload) + Serialize(ps)
  {
    assert ([pk] + ps)[1..] == ps;
  }

  /** Serializing all packets from pixel 0 after those from p: the next packet is the one at p. */
  lemma ChunksStep(px: seq<Pixel>, p: nat)
    requires p < |px|
    ensures var c := Scan(px, p, p + 1, true);
      Serialize(Chunks(px, p)) == [ChunkPacket(px, p, c).header] + Flatten(ChunkPacket(px, p, c).payload) + Serialize(Chunks(px, p + c.length))
  {
    var c := Scan(px, p, p + 1, true);
    ChunksUnfold(px, p, c, Chunks(px, p + c.length));
    SerializeCons(ChunkPacket(px, p, c), Chunks(px, p + c.length));
  }

  /** Output so far, then bytes b and c that stand in for the next piece of the stream. */
  lemma WrittenSoFar<T>(total: seq<T>, out: seq<T>, rest: seq<T>, b: seq<T>, c: seq<T>, more: seq<T>)
    requires total == out + rest && rest == b + c + more
    ensures total == out + b + c + more
  {}

  /** One step of Scan while the chunk can still grow: compare pixels q - 1 and q. */
  lemma ScanNext(px: seq<Pixel>, p: nat, q: nat, raw: bool, eq: bool)
    requires p < q < |px| && q - p < MaxChunkLength
    requires q - p == 1 ==> raw
    requires !raw ==> q - p >= 2
    requires eq == (px[q - 1] == px[q])
    ensures var raw' := if q - p == 1 then !eq else raw;
      Scan(px, p, q, raw) ==
        if raw' && eq then Chunk(q - p - 1, raw')
        else if !raw' && !eq then Chunk(q - p, raw')
        else Scan(px, p, q + 1, raw')
  {}

  /** Pixels k and k + 1 of a buffer lie at byte a = k * bpp and bpp bytes later. */
  lemma NextPixelBytes(d: seq<byte>, np: nat, bpp: nat, k: nat, a: int)
    requires Shaped(d, np, bpp) && k + 1 < np && a == k * bpp
    ensures 0 <= a && a + bpp + bpp <= |d| && a + bpp == (k + 1) * bpp
  {
    PixelSlice(k + 1, np, bpp);
    MulSucc(k, bpp);
  }

  /** Comparing the bytes of pixels k and k + 1 compares the pixels. */
  lemma SameAt(d: seq<byte>, np: nat, bpp: nat, k: nat, a: int, eq: bool)
    requires Shaped(d, np, bpp) && k + 1 < np && a == k * bpp && 0 <= a && a + bpp + bpp <= |d|
    requires eq == (d[a..a + bpp] == d[a + bpp..a + bpp + bpp])
    ensures eq == (PixelList(d, np, bpp)[k] == PixelList(d, np, bpp)[k + 1])
  {
    PixelAtByte(d, np, bpp, k);
    PixelAtByte(d, np, bpp, k + 1);
  }

  /** The bytes after the header of the packet for a chunk at pixel cur: n bytes from the chunk's first pixel on. */
  lemma ChunkBytes(d: seq<byte>, np: nat, bpp: nat, cur: nat, runLength: nat, raw: bool, a: int, n: int)
    requires Shaped(d, np, bpp) && 1 <= runLength <= MaxChunkLength && cur + runLength <= np
    requires !raw ==> runLength >= 2
    requires a == cur * bpp && n == if raw then runLength * bpp else bpp
    ensures 0 <= a <= a + n <= |d|
    ensures d[a..a + n] == Flatten(ChunkPacket(PixelList(d, np, bpp), cur, Chunk(runLength, raw)).payload)
  {
    var px := PixelList(d, np, bpp);
    if raw {
      FlattenSpan(d, np, bpp, cur, cur + runLength);
      MulAdd(cur, runLength, bpp);
    } else {
      FlattenSpan(d, np, bpp, cur, cur + 1);
      MulSucc(cur, bpp);
      assert px[cur..cur + 1] == [px[cur]];
    }
  }

  /** With out written before pixel cur, the packet of the chunk at cur comes next: its header, then its payload bytes. */
  lemma ChunksWritten(px: seq<Pixel>, cur: nat, out: seq<byte>, next: nat, header: byte, bytes: seq<byte>)
    requires cur < |px| && Serialize(Chunks(px, 0)) == out + Serialize(Chunks(px, cur))
    requires var c := Scan(px, cur, cur + 1, true);
      next == cur + c.length && header == ChunkPacket(px, cur, c).header && bytes == Flatten(ChunkPacket(px, cur, c).payload)
    ensures next <= |px| && Serialize(Chunks(px, 0)) == out + [header] + bytes + Serialize(Chunks(px, next))
  {
    var c := Scan(px, cur, cur + 1, true);
    ChunksStep(px, cur);
    WrittenSoFar(Serialize(Chunks(px, 0)), out, Serialize(Chunks(px, cur)), [header], bytes, Serialize(Chunks(px, next)));
  }

  /** The RLE stream unloadRLEData writes for a buffer of np pixels. */
  function Encode(d: seq<byte>, np: nat, bpp: nat): seq<byte>
    requires Shaped(d, np, bpp)
  {
    Serialize(Chunks(PixelList(d, np, bpp), 0))
  }

  /** Decoding what unloadRLEData writes stores the buffer it was written from. */
  lemma RoundTrip(d: seq<byte>, np: nat, bpp: nat, tail: seq<byte>)
    requires Shaped(d, np, bpp)
    ensures Decode(Encode(d, np, bpp) + tail, 0, np, bpp).ok
    ensures Flatten(Decode(Encode(d, np, bpp) + tail, 0, np, bpp).pixels) == d
  {
    PacketRoundTrip(PixelList(d, np, bpp), bpp, tail);
    FlattenPixelList(d, np, bpp);
  }
}
