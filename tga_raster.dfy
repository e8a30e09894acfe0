/**
 * The pixel buffer of a TGAImage as a value: what get, set, clear and the
 * two flips (src/tgaimage.cpp:224-265, 319-344) do to a buffer of
 * width * height * bytespp bytes.  The class in TgaImage is proved against
 * these functions.
 */
module TgaRaster {
  import opened TgaColor
  import opened TgaLayout

  /** A buffer of the right size for a w x h image with bpp bytes per pixel. */
  predicate Fits(d: seq<byte>, w: int, h: int, bpp: int) {
    0 <= w && 0 <= h && 1 <= bpp <= 4 && |d| == w * h * bpp
  }

  /** A buffer of n zero bytes, as left by memset(data, 0, n). */
  function Zeroed(n: nat): (d: seq<byte>)
    ensures |d| == n && forall k :: 0 <= k < n ==> d[k] == 0
  {
    seq(n, _ => 0 as byte)
  }

  /**
   * get(x, y): the bpp bytes of pixel (x, y) as a colour of bpp bytes per
   * pixel (src/tgaimage.cpp:319-325), or the default colour outside the image.
   */
  function PixelAt(d: seq<byte>, w: int, h: int, bpp: int, x: int, y: int): (c: Color)
    requires Fits(d, w, h, bpp)
    ensures |c.raw| == 4
    ensures InImage(w, h, x, y) ==> c.bytespp == bpp
    ensures InImage(w, h, x, y) ==>
      0 <= Start(w, bpp, x, y) && Start(w, bpp, x, y) + bpp <= |d| &&
      forall b :: 0 <= b < bpp ==> c.raw[b] == d[Index(w, bpp, x, y, b)]
    ensures InImage(w, h, x, y) ==> forall b :: bpp <= b < 4 ==> c.raw[b] == 0
    ensures !InImage(w, h, x, y) ==> c == Default()
  {
    if InImage(w, h, x, y) then
      PixelInBuffer(w, h, bpp, x, y);
      var o := Start(w, bpp, x, y);
      var c := FromBytes(d[o..o + bpp], bpp);
      assert forall b :: 0 <= b < bpp ==> c.raw[b] == c.raw[..bpp][b] == d[o..o + bpp][b];
      c
    else
      Default()
  }

  /**
   * set(x, y, c): the first bpp raw bytes of c overwrite pixel (x, y)
   * (src/tgaimage.cpp:327-334); outside the image nothing changes.
   */
  function Put(d: seq<byte>, w: int, h: int, bpp: int, x: int, y: int, c: Color): (r: seq<byte>)
    requires Fits(d, w, h, bpp) && |c.raw| == 4
    ensures Fits(r, w, h, bpp)
  {
    var o := Start(w, bpp, x, y);
    seq(|d|, k requires 0 <= k < |d| =>
      if InImage(w, h, x, y) && o <= k < o + bpp then c.raw[k - o] else d[k])
  }

  /** Bytes are pinned down by the pixels that hold them. */
  lemma {:induction false} PixelsDetermine(d1: seq<byte>, d2: seq<byte>, w: int, h: int, bpp: int)
    requires Fits(d1, w, h, bpp) && Fits(d2, w, h, bpp)
    requires forall x, y :: InImage(w, h, x, y) ==> PixelAt(d1, w, h, bpp, x, y) == PixelAt(d2, w, h, bpp, x, y)
    ensures d1 == d2
  {
    forall k | 0 <= k < |d1| ensures d1[k] == d2[k] {
      var c := Coords(w, h, bpp, k);
      assert PixelAt(d1, w, h, bpp, c.0, c.1).raw[c.2] == PixelAt(d2, w, h, bpp, c.0, c.1).raw[c.2];
    }
  }

  /** After set(x, y, c), get(x, y) returns the first bpp bytes of c. */
  lemma GetAfterSet(d: seq<byte>, w: int, h: int, bpp: int, x: int, y: int, c: Color)
    requires Fits(d, w, h, bpp) && |c.raw| == 4 && InImage(w, h, x, y)
    ensures PixelAt(Put(d, w, h, bpp, x, y, c), w, h, bpp, x, y) == FromBytes(c.raw, bpp)
  {
    var r := PixelAt(Put(d, w, h, bpp, x, y, c), w, h, bpp, x, y);
    var e := FromBytes(c.raw, bpp);
    forall b | 0 <= b < 4 ensures r.raw[b] == e.raw[b] {
      if b < bpp {
        assert e.raw[b] == e.raw[..bpp][b];
      }
    }
  }

  /** set(x, y, c) leaves every other pixel as it was. */
  lemma SetLeavesOthers(d: seq<byte>, w: int, h: int, bpp: int, x: int, y: int, c: Color, x2: int, y2: int)
    requires Fits(d, w, h, bpp) && |c.raw| == 4
    requires x2 != x || y2 != y
    ensures PixelAt(Put(d, w, h, bpp, x, y, c), w, h, bpp, x2, y2) == PixelAt(d, w, h, bpp, x2, y2)
  {
    if InImage(w, h, x2, y2) {
      var r := PixelAt(Put(d, w, h, bpp, x, y, c), w, h, bpp, x2, y2);
      var e := PixelAt(d, w, h, bpp, x2, y2);
      forall b | 0 <= b < bpp ensures r.raw[b] == e.raw[b] {
        var k := Index(w, bpp, x2, y2, b);
        IndexInBuffer(w, h, bpp, x2, y2, b);
        var o := Start(w, bpp, x, y);
        if InImage(w, h, x, y) && o <= k < o + bpp {
          IndexInjective(w, h, bpp, x, y, k - o, x2, y2, b);
        }
      }
    }
  }

  /** Setting a pixel to the colour it already has changes nothing. */
  lemma SetOwnColour(d: seq<byte>, w: int, h: int, bpp: int, x: int, y: int)
    requires Fits(d, w, h, bpp)
    ensures Put(d, w, h, bpp, x, y, PixelAt(d, w, h, bpp, x, y)) == d
  {
    var c := PixelAt(d, w, h, bpp, x, y);
    var r := Put(d, w, h, bpp, x, y, c);
    var o := Start(w, bpp, x, y);
    forall k | 0 <= k < |d| ensures r[k] == d[k] {
      if InImage(w, h, x, y) && o <= k < o + bpp {
        assert k == Index(w, bpp, x, y, k - o);
      }
    }
  }

  /** After clear(), every pixel is the colour with value 0. */
  lemma ClearedPixel(w: int, h: int, bpp: int, x: int, y: int)
    requires 0 <= w && 0 <= h && 1 <= bpp <= 4 && InImage(w, h, x, y)
    ensures Val(PixelAt(Zeroed(w * h * bpp), w, h, bpp, x, y)) == 0
    ensures PixelAt(Zeroed(w * h * bpp), w, h, bpp, x, y).bytespp == bpp
  {
    var c := PixelAt(Zeroed(w * h * bpp), w, h, bpp, x, y);
    forall b | 0 <= b < bpp ensures c.raw[b] == 0 {
      IndexInBuffer(w, h, bpp, x, y, b);
    }
  }

  /** The position of byte b of the pixel mirrored to (x, h - 1 - y). */
  function MirrorV(w: int, h: int, bpp: int, k: int): (j: int)
    requires 0 <= w && 0 <= h && 1 <= bpp && 0 <= k < w * h * bpp
    ensures 0 <= j < w * h * bpp
  {
    var c := Coords(w, h, bpp, k);
    IndexInBuffer(w, h, bpp, c.0, h - 1 - c.1, c.2);
    Index(w, bpp, c.0, h - 1 - c.1, c.2)
  }

  /** The position of byte b of the pixel mirrored to (w - 1 - x, y). */
  function MirrorH(w: int, h: int, bpp: int, k: int): (j: int)
    requires 0 <= w && 0 <= h && 1 <= bpp && 0 <= k < w * h * bpp
    ensures 0 <= j < w * h * bpp
  {
    var c := Coords(w, h, bpp, k);
    IndexInBuffer(w, h, bpp, w - 1 - c.0, c.1, c.2);
    Index(w, bpp, w - 1 - c.0, c.1, c.2)
  }

  /** The buffer after flipVertically: scan line y becomes line h - 1 - y. */
  function FlipV(d: seq<byte>, w: int, h: int, bpp: int): (r: seq<byte>)
    requires Fits(d, w, h, bpp)
    ensures Fits(r, w, h, bpp)
  {
    seq(|d|, k requires 0 <= k < |d| => d[MirrorV(w, h, bpp, k)])
  }

  /** The buffer after flipHorizontally: column x becomes column w - 1 - x. */
  function FlipH(d: seq<byte>, w: int, h: int, bpp: int): (r: seq<byte>)
    requires Fits(d, w, h, bpp)
    ensures Fits(r, w, h, bpp)
  {
    seq(|d|, k requires 0 <= k < |d| => d[MirrorH(w, h, bpp, k)])
  }

  lemma FlipVAt(d: seq<byte>, w: int, h: int, bpp: int, x: int, y: int, b: int)
    requires Fits(d, w, h, bpp) && InImage(w, h, x, y) && 0 <= b < bpp
    ensures 0 <= Index(w, bpp, x, y, b) < |d| && 0 <= Index(w, bpp, x, h - 1 - y, b) < |d|
    ensures FlipV(d, w, h, bpp)[Index(w, bpp, x, y, b)] == d[Index(w, bpp, x, h - 1 - y, b)]
  {
    var k := Index(w, bpp, x, y, b);
    IndexInBuffer(w, h, bpp, x, y, b);
    IndexInBuffer(w, h, bpp, x, h - 1 - y, b);
    var c := Coords(w, h, bpp, k);
    IndexInjective(w, h, bpp, x, y, b, c.0, c.1, c.2);
  }

  lemma FlipHAt(d: seq<byte>, w: int, h: int, bpp: int, x: int, y: int, b: int)
    requires Fits(d, w, h, bpp) && InImage(w, h, x, y) && 0 <= b < bpp
    ensures 0 <= Index(w, bpp, x, y, b) < |d| && 0 <= Index(w, bpp, w - 1 - x, y, b) < |d|
    ensures FlipH(d, w, h, bpp)[Index(w, bpp, x, y, b)] == d[Index(w, bpp, w - 1 - x, y, b)]
  {
    var k := Index(w, bpp, x, y, b);
    IndexInBuffer(w, h, bpp, x, y, b);
    IndexInBuffer(w, h, bpp, w - 1 - x, y, b);
    var c := Coords(w, h, bpp, k);
    IndexInjective(w, h, bpp, x, y, b, c.0, c.1, c.2);
  }

  /** After flipVertically, get(x, y) is what get(x, h - 1 - y) was. */
  lemma FlipVPixel(d: seq<byte>, w: int, h: int, bpp: int, x: int, y: int)
    requires Fits(d, w, h, bpp)
    ensures PixelAt(FlipV(d, w, h, bpp), w, h, bpp, x, y) == PixelAt(d, w, h, bpp, x, h - 1 - y)
  {
    if InImage(w, h, x, y) {
      var r := PixelAt(FlipV(d, w, h, bpp), w, h, bpp, x, y);
      var e := PixelAt(d, w, h, bpp, x, h - 1 - y);
      forall b | 0 <= b < bpp ensures r.raw[b] == e.raw[b] {
        FlipVAt(d, w, h, bpp, x, y, b);
      }
    }
  }

  /** After flipHorizontally, get(x, y) is what get(w - 1 - x, y) was. */
  lemma FlipHPixel(d: seq<byte>, w: int, h: int, bpp: int, x: int, y: int)
    requires Fits(d, w, h, bpp)
    ensures PixelAt(FlipH(d, w, h, bpp), w, h, bpp, x, y) == PixelAt(d, w, h, bpp, w - 1 - x, y)
  {
    if InImage(w, h, x, y) {
      var r := PixelAt(FlipH(d, w, h, bpp), w, h, bpp, x, y);
      var e := PixelAt(d, w, h, bpp, w - 1 - x, y);
      forall b | 0 <= b < bpp ensures r.raw[b] == e.raw[b] {
        FlipHAt(d, w, h, bpp, x, y, b);
      }
    }
  }

  /** Flipping vertically twice restores the image. */
  lemma FlipVTwice(d: seq<byte>, w: int, h: int, bpp: int)
    requires Fits(d, w, h, bpp)
    ensures FlipV(FlipV(d, w, h, bpp), w, h, bpp) == d
  {
    var twice := FlipV(FlipV(d, w, h, bpp), w, h, bpp);
    forall x, y | InImage(w, h, x, y)
      ensures PixelAt(twice, w, h, bpp, x, y) == PixelAt(d, w, h, bpp, x, y)
    {
      FlipVTwicePixel(d, w, h, bpp, x, y);
    }
    PixelsDetermine(twice, d, w, h, bpp);
  }

  lemma FlipVTwicePixel(d: seq<byte>, w: int, h: int, bpp: int, x: int, y: int)
    requires Fits(d, w, h, bpp)
    ensures PixelAt(FlipV(FlipV(d, w, h, bpp), w, h, bpp), w, h, bpp, x, y) == PixelAt(d, w, h, bpp, x, y)
  {
    FlipVPixel(FlipV(d, w, h, bpp), w, h, bpp, x, y);
    FlipVPixel(d, w, h, bpp, x, h - 1 - y);
  }

  /** Flipping horizontally twice restores the image. */
  lemma FlipHTwice(d: seq<byte>, w: int, h: int, bpp: int)
    requires Fits(d, w, h, bpp)
    ensures FlipH(FlipH(d, w, h, bpp), w, h, bpp) == d
  {
    var twice := FlipH(FlipH(d, w, h, bpp), w, h, bpp);
    forall x, y | InImage(w, h, x, y)
      ensures PixelAt(twice, w, h, bpp, x, y) == PixelAt(d, w, h, bpp, x, y)
    {
      FlipHTwicePixel(d, w, h, bpp, x, y);
    }
    PixelsDetermine(twice, d, w, h, bpp);
  }

  lemma FlipHTwicePixel(d: seq<byte>, w: int, h: int, bpp: int, x: int, y: int)
    requires Fits(d, w, h, bpp)
    ensures PixelAt(FlipH(FlipH(d, w, h, bpp), w, h, bpp), w, h, bpp, x, y) == PixelAt(d, w, h, bpp, x, y)
  {
    FlipHPixel(FlipH(d, w, h, bpp), w, h, bpp, x, y);
    FlipHPixel(d, w, h, bpp, w - 1 - x, y);
  }

  /** Odd heights keep their middle row where it is. */
  lemma FlipVMiddleRow(d: seq<byte>, w: int, h: int, bpp: int, x: int)
    requires Fits(d, w, h, bpp) && h % 2 == 1
    ensures PixelAt(FlipV(d, w, h, bpp), w, h, bpp, x, h / 2) == PixelAt(d, w, h, bpp, x, h / 2)
  {
    FlipVPixel(d, w, h, bpp, x, h / 2);
  }

  /** Odd widths keep their middle column where it is. */
  lemma FlipHMiddleColumn(d: seq<byte>, w: int, h: int, bpp: int, y: int)
    requires Fits(d, w, h, bpp) && w % 2 == 1
    ensures PixelAt(FlipH(d, w, h, bpp), w, h, bpp, w / 2, y) == PixelAt(d, w, h, bpp, w / 2, y)
  {
    FlipHPixel(d, w, h, bpp, w / 2, y);
  }

  // ---------------------------------------------------------------------
  // Scan lines
  // ---------------------------------------------------------------------

  /** Scan line y of a buffer with bpl bytes per line; empty when the buffer has no such line. */
  function Line(s: seq<byte>, bpl: int, y: int): seq<byte> {
    if 0 <= y && 0 <= bpl && 0 <= y * bpl && y * bpl + bpl <= |s| then s[y * bpl..y * bpl + bpl] else []
  }

  /** Overwriting line i with u (a memmove of one line) changes line i and no other. */
  lemma LineOfReplaced(t: seq<byte>, u: seq<byte>, bpl: int, i: int, y: int)
    requires 0 <= i && 0 <= bpl && 0 <= i * bpl && i * bpl + bpl <= |t| && |u| == bpl && 0 <= y
    ensures Line(t[..i * bpl] + u + t[i * bpl + bpl..], bpl, y) == if y == i then u else Line(t, bpl, y)
  {
    var a, b := i * bpl, y * bpl;
    MulMono(0, y, bpl);
    if y < i {
      MulMono(y + 1, i, bpl);
      assert (y + 1) * bpl == b + bpl;
    } else if i < y {
      MulMono(i + 1, y, bpl);
      assert (i + 1) * bpl == a + bpl;
    }
    if b + bpl <= |t| {
      SliceReplaced(t, u, a, bpl, b);
    }
  }

  /** Buffers of h lines that agree line by line are equal. */
  lemma LinesDetermine(s1: seq<byte>, s2: seq<byte>, bpl: int, h: int)
    requires 0 <= bpl && 0 <= h && |s1| == h * bpl && |s2| == h * bpl
    requires forall y :: 0 <= y < h ==> Line(s1, bpl, y) == Line(s2, bpl, y)
    ensures s1 == s2
  {
    forall k | 0 <= k < |s1| ensures s1[k] == s2[k] {
      QuotientBelow(k, bpl, h);
      var y, c := k / bpl, k % bpl;
      MulMono(0, y, bpl);
      MulMono(y + 1, h, bpl);
      assert (y + 1) * bpl == y * bpl + bpl;
      assert Line(s1, bpl, y)[c] == s1[k];
      assert Line(s2, bpl, y)[c] == s2[k];
    }
  }

  /** Byte c of line y after flipVertically is byte c of line h - 1 - y. */
  lemma FlipVByte(d: seq<byte>, w: int, h: int, bpp: int, y: int, c: int)
    requires Fits(d, w, h, bpp) && 0 <= y < h && 0 <= c < w * bpp
    ensures 0 <= y * (w * bpp) + c < |d| && 0 <= (h - 1 - y) * (w * bpp) + c < |d|
    ensures FlipV(d, w, h, bpp)[y * (w * bpp) + c] == d[(h - 1 - y) * (w * bpp) + c]
  {
    QuotientBelow(c, bpp, w);
    var x, b := c / bpp, c % bpp;
    IndexByLine(w, bpp, x, y, b);
    IndexByLine(w, bpp, x, h - 1 - y, b);
    FlipVAt(d, w, h, bpp, x, y, b);
  }

  /** flipVertically exchanges scan lines: line y of the result is line h - 1 - y. */
  lemma FlipVLines(d: seq<byte>, w: int, h: int, bpp: int, y: int)
    requires Fits(d, w, h, bpp) && 0 <= y < h
    ensures |Line(d, w * bpp, y)| == w * bpp
    ensures Line(FlipV(d, w, h, bpp), w * bpp, y) == Line(d, w * bpp, h - 1 - y)
  {
    var bpl := w * bpp;
    var r := FlipV(d, w, h, bpp);
    var a, z := y * bpl, (h - 1 - y) * bpl;
    BufferIsLines(w, h, bpp);
    MulMono(0, y, bpl);
    MulMono(y + 1, h, bpl);
    MulMono(0, h - 1 - y, bpl);
    MulMono(h - y, h, bpl);
    assert (y + 1) * bpl == a + bpl;
    assert (h - y) * bpl == z + bpl;
    var flipped, source := r[a..a + bpl], d[z..z + bpl];
    forall c | 0 <= c < bpl ensures flipped[c] == source[c] {
      FlipVByte(d, w, h, bpp, y, c);
    }
    assert flipped == source;
  }

  /** Line a of t and the line b after it fit in t. */
  lemma TwoLinesFit(a: int, b: int, bpl: int)
    requires 0 <= a < b && 0 <= bpl
    ensures 0 <= a * bpl && a * bpl + bpl <= b * bpl
  {
    MulMono(0, a, bpl);
    MulMono(a + 1, b, bpl);
    assert (a + 1) * bpl == a * bpl + bpl;
  }

  /**
   * t after the three memmoves of a flipVertically step: the n bytes at l2
   * are copied over those at l1, then the old bytes at l1 over those at l2.
   */
  function SwappedLines(t: seq<byte>, l1: int, l2: int, n: int): seq<byte>
  {
    if 0 <= n && 0 <= l1 && l1 + n <= l2 && l2 + n <= |t| then
      var m := t[..l1] + t[l2..l2 + n] + t[l1 + n..];
      m[..l2] + t[l1..l1 + n] + m[l2 + n..]
    else t
  }

  /** The memmoves trade lines a and b and leave every other line alone. */
  lemma SwappedLinesLines(t: seq<byte>, bpl: int, a: int, b: int)
    requires 0 <= a < b && 0 <= bpl && b * bpl + bpl <= |t|
    ensures forall y :: 0 <= y ==>
      Line(SwappedLines(t, a * bpl, b * bpl, bpl), bpl, y) == Line(t, bpl, if y == a then b else if y == b then a else y)
  {
    TwoLinesFit(a, b, bpl);
    var m := t[..a * bpl] + Line(t, bpl, b) + t[a * bpl + bpl..];
    assert SwappedLines(t, a * bpl, b * bpl, bpl) == m[..b * bpl] + Line(t, bpl, a) + m[b * bpl + bpl..];
    forall y | 0 <= y
      ensures Line(SwappedLines(t, a * bpl, b * bpl, bpl), bpl, y) == Line(t, bpl, if y == a then b else if y == b then a else y)
    {
      LineOfReplaced(t, Line(t, bpl, b), bpl, a, y);
      LineOfReplaced(m, Line(t, bpl, a), bpl, b, y);
    }
  }

  /** The buffer when flipVertically has exchanged each line below i with its mirror line. */
  ghost predicate FlippedBelow(s: seq<byte>, d: seq<byte>, bpl: int, h: int, i: int) {
    forall y :: 0 <= y < h ==> Line(s, bpl, y) == Line(d, bpl, if y < i || h - i <= y then h - 1 - y else y)
  }

  /** Exchanging lines i and l2 = h - 1 - i advances the partial flip by one line. */
  lemma FlippedBelowAdvance(prev: seq<byte>, now: seq<byte>, d: seq<byte>, bpl: int, h: int, i: int, l2: int)
    requires FlippedBelow(prev, d, bpl, h, i) && 0 <= i < l2 && l2 == h - 1 - i
    requires forall y :: 0 <= y ==> Line(now, bpl, y) == Line(prev, bpl, if y == i then l2 else if y == l2 then i else y)
    ensures FlippedBelow(now, d, bpl, h, i + 1)
  {
    forall y | 0 <= y < h
      ensures Line(now, bpl, y) == Line(d, bpl, if y < i + 1 || h - (i + 1) <= y then h - 1 - y else y)
    {
      var z := if y == i then l2 else if y == l2 then i else y;
      assert Line(now, bpl, y) == Line(prev, bpl, z);
      assert 0 <= z < h;
      assert Line(prev, bpl, z) == Line(d, bpl, if z < i || h - i <= z then h - 1 - z else z);
      assert (if z < i || h - i <= z then h - 1 - z else z) == (if y < i + 1 || h - (i + 1) <= y then h - 1 - y else y);
    }
  }

  /** Lines below h / 2 exchanged with their mirrors: the whole buffer is flipped. */
  lemma FlippedBelowDone(s: seq<byte>, d: seq<byte>, w: int, h: int, bpp: int)
    requires Fits(d, w, h, bpp) && |s| == |d| && FlippedBelow(s, d, w * bpp, h, h / 2)
    ensures s == FlipV(d, w, h, bpp)
  {
    var r := FlipV(d, w, h, bpp);
    forall y | 0 <= y < h
      ensures Line(s, w * bpp, y) == Line(r, w * bpp, y)
    {
      FlipVLines(d, w, h, bpp, y);
    }
    BufferIsLines(w, h, bpp);
    MulMono(0, w, bpp);
    LinesDetermine(s, r, w * bpp, h);
  }

  /** In the image, Put is the buffer with the pixel's bpp bytes replaced (the memcpy of set). */
  lemma PutSlices(d: seq<byte>, w: int, h: int, bpp: int, x: int, y: int, c: Color)
    requires Fits(d, w, h, bpp) && |c.raw| == 4 && InImage(w, h, x, y)
    ensures 0 <= Start(w, bpp, x, y) && Start(w, bpp, x, y) + bpp <= |d|
    ensures Put(d, w, h, bpp, x, y, c) == d[..Start(w, bpp, x, y)] + c.raw[0..bpp] + d[Start(w, bpp, x, y) + bpp..]
  {
    PixelInBuffer(w, h, bpp, x, y);
    var o := Start(w, bpp, x, y);
    var r := Put(d, w, h, bpp, x, y, c);
    var s := d[..o] + c.raw[0..bpp] + d[o + bpp..];
    assert |r| == |s|;
    forall k | 0 <= k < |d| ensures r[k] == s[k] {
      if k < o {
      } else if k < o + bpp {
        assert s[k] == c.raw[k - o];
      } else {
        assert s[k] == d[k];
      }
    }
  }

  /** Outside the image, Put changes nothing. */
  lemma PutOutside(d: seq<byte>, w: int, h: int, bpp: int, x: int, y: int, c: Color)
    requires Fits(d, w, h, bpp) && |c.raw| == 4 && !InImage(w, h, x, y)
    ensures Put(d, w, h, bpp, x, y, c) == d
  {
  }

  // ---------------------------------------------------------------------
  // flipHorizontally part way through
  // ---------------------------------------------------------------------

  /** Pixel (x, y) has been exchanged once the loops of flipHorizontally reach column i, row j. */
  predicate HSwapped(w: int, i: int, j: int, x: int, y: int) {
    x < i || w - i <= x || ((x == i || x == w - 1 - i) && y < j)
  }

  /** The buffer when flipHorizontally has done columns below i fully and column i up to row j. */
  function FlipHPartial(d: seq<byte>, w: int, h: int, bpp: int, i: int, j: int): (r: seq<byte>)
    requires Fits(d, w, h, bpp)
    ensures Fits(r, w, h, bpp)
  {
    seq(|d|, k requires 0 <= k < |d| =>
      var c := Coords(w, h, bpp, k);
      if HSwapped(w, i, j, c.0, c.1) then d[MirrorH(w, h, bpp, k)] else d[k])
  }

  lemma FlipHPartialPixel(d: seq<byte>, w: int, h: int, bpp: int, i: int, j: int, x: int, y: int)
    requires Fits(d, w, h, bpp) && InImage(w, h, x, y)
    ensures PixelAt(FlipHPartial(d, w, h, bpp, i, j), w, h, bpp, x, y) ==
      if HSwapped(w, i, j, x, y) then PixelAt(d, w, h, bpp, w - 1 - x, y) else PixelAt(d, w, h, bpp, x, y)
  {
    var r := PixelAt(FlipHPartial(d, w, h, bpp, i, j), w, h, bpp, x, y);
    var e := if HSwapped(w, i, j, x, y) then PixelAt(d, w, h, bpp, w - 1 - x, y) else PixelAt(d, w, h, bpp, x, y);
    forall b | 0 <= b < bpp ensures r.raw[b] == e.raw[b] {
      var k := Index(w, bpp, x, y, b);
      IndexInBuffer(w, h, bpp, x, y, b);
      var c := Coords(w, h, bpp, k);
      IndexInjective(w, h, bpp, x, y, b, c.0, c.1, c.2);
    }
  }

  /** Before the loops nothing is exchanged. */
  lemma FlipHPartialStart(d: seq<byte>, w: int, h: int, bpp: int)
    requires Fits(d, w, h, bpp)
    ensures FlipHPartial(d, w, h, bpp, 0, 0) == d
  {
    forall x, y | InImage(w, h, x, y)
      ensures PixelAt(FlipHPartial(d, w, h, bpp, 0, 0), w, h, bpp, x, y) == PixelAt(d, w, h, bpp, x, y)
    {
      FlipHPartialPixel(d, w, h, bpp, 0, 0, x, y);
    }
    PixelsDetermine(FlipHPartial(d, w, h, bpp, 0, 0), d, w, h, bpp);
  }

  /** Finishing the rows of column i is starting column i + 1. */
  lemma FlipHPartialNextColumn(d: seq<byte>, w: int, h: int, bpp: int, i: int)
    requires Fits(d, w, h, bpp)
    ensures FlipHPartial(d, w, h, bpp, i, h) == FlipHPartial(d, w, h, bpp, i + 1, 0)
  {
    forall x, y | InImage(w, h, x, y)
      ensures PixelAt(FlipHPartial(d, w, h, bpp, i, h), w, h, bpp, x, y) == PixelAt(FlipHPartial(d, w, h, bpp, i + 1, 0), w, h, bpp, x, y)
    {
      FlipHPartialPixel(d, w, h, bpp, i, h, x, y);
      FlipHPartialPixel(d, w, h, bpp, i + 1, 0, x, y);
    }
    PixelsDetermine(FlipHPartial(d, w, h, bpp, i, h), FlipHPartial(d, w, h, bpp, i + 1, 0), w, h, bpp);
  }

  /** After the columns below w / 2 the whole image is flipped; an odd middle column stays. */
  lemma FlipHPartialDone(d: seq<byte>, w: int, h: int, bpp: int)
    requires Fits(d, w, h, bpp)
    ensures FlipHPartial(d, w, h, bpp, w / 2, 0) == FlipH(d, w, h, bpp)
  {
    forall x, y | InImage(w, h, x, y)
      ensures PixelAt(FlipHPartial(d, w, h, bpp, w / 2, 0), w, h, bpp, x, y) == PixelAt(FlipH(d, w, h, bpp), w, h, bpp, x, y)
    {
      FlipHPartialPixel(d, w, h, bpp, w / 2, 0, x, y);
      FlipHPixel(d, w, h, bpp, x, y);
    }
    PixelsDetermine(FlipHPartial(d, w, h, bpp, w / 2, 0), FlipH(d, w, h, bpp), w, h, bpp);
  }

  /** Two sets at different pixels, then a get: the most recent set at that pixel wins. */
  lemma GetAfterTwoSets(d: seq<byte>, w: int, h: int, bpp: int, x1: int, y1: int, c1: Color, x2: int, y2: int, c2: Color, x: int, y: int)
    requires Fits(d, w, h, bpp) && |c1.raw| == 4 && |c2.raw| == 4
    requires InImage(w, h, x1, y1) && InImage(w, h, x2, y2) && InImage(w, h, x, y)
    ensures PixelAt(Put(Put(d, w, h, bpp, x1, y1, c1), w, h, bpp, x2, y2, c2), w, h, bpp, x, y) ==
      if x == x2 && y == y2 then FromBytes(c2.raw, bpp)
      else if x == x1 && y == y1 then FromBytes(c1.raw, bpp)
      else PixelAt(d, w, h, bpp, x, y)
  {
    var m := Put(d, w, h, bpp, x1, y1, c1);
    if x == x2 && y == y2 {
      GetAfterSet(m, w, h, bpp, x, y, c2);
    } else {
      SetLeavesOthers(m, w, h, bpp, x2, y2, c2, x, y);
      if x == x1 && y == y1 {
        GetAfterSet(d, w, h, bpp, x, y, c1);
      } else {
        SetLeavesOthers(d, w, h, bpp, x1, y1, c1, x, y);
      }
    }
  }

  /** Pixel (x, y) of q is pixel (x, y) of p with pixels (x1, y1) and (x2, y2) exchanged. */
  predicate ExchangedAt(p: seq<byte>, q: seq<byte>, w: int, h: int, bpp: int, x1: int, y1: int, x2: int, y2: int, x: int, y: int)
    requires Fits(p, w, h, bpp) && Fits(q, w, h, bpp)
  {
    PixelAt(q, w, h, bpp, x, y) ==
      if x == x1 && y == y1 then PixelAt(p, w, h, bpp, x2, y2)
      else if x == x2 && y == y2 then PixelAt(p, w, h, bpp, x1, y1)
      else PixelAt(p, w, h, bpp, x, y)
  }

  /** Advancing one row in column i exchanges exactly pixels (i, j) and (m, j), m = w - 1 - i. */
  lemma FlipHPartialAdvance(d: seq<byte>, w: int, h: int, bpp: int, i: int, m: int, j: int, x: int, y: int)
    requires Fits(d, w, h, bpp) && 0 <= i < m && m == w - 1 - i && 0 <= j < h && InImage(w, h, x, y)
    ensures ExchangedAt(FlipHPartial(d, w, h, bpp, i, j), FlipHPartial(d, w, h, bpp, i, j + 1), w, h, bpp, i, j, m, j, x, y)
  {
    if x == m && y == j {
      AdvanceMovesPixel(d, w, h, bpp, i, j, m, i);
    } else if x == i && y == j {
      AdvanceMovesPixel(d, w, h, bpp, i, j, i, m);
    } else {
      AdvanceKeepsPixel(d, w, h, bpp, i, j, x, y);
    }
  }

  /** The row j step puts at (x, j), one of the two exchanged pixels, what the other one held. */
  lemma AdvanceMovesPixel(d: seq<byte>, w: int, h: int, bpp: int, i: int, j: int, x: int, other: int)
    requires Fits(d, w, h, bpp) && 0 <= i < w - 1 - i && 0 <= j < h
    requires (x == i || x == w - 1 - i) && other == w - 1 - x
    ensures PixelAt(FlipHPartial(d, w, h, bpp, i, j + 1), w, h, bpp, x, j) == PixelAt(FlipHPartial(d, w, h, bpp, i, j), w, h, bpp, other, j)
  {
    assert HSwapped(w, i, j + 1, x, j) && !HSwapped(w, i, j, other, j);
    FlipHPartialPixel(d, w, h, bpp, i, j + 1, x, j);
    FlipHPartialPixel(d, w, h, bpp, i, j, other, j);
  }

  /** The row j step leaves every other pixel alone. */
  lemma AdvanceKeepsPixel(d: seq<byte>, w: int, h: int, bpp: int, i: int, j: int, x: int, y: int)
    requires Fits(d, w, h, bpp) && 0 <= i < w - 1 - i && 0 <= j < h && InImage(w, h, x, y)
    requires !((x == i || x == w - 1 - i) && y == j)
    ensures PixelAt(FlipHPartial(d, w, h, bpp, i, j + 1), w, h, bpp, x, y) == PixelAt(FlipHPartial(d, w, h, bpp, i, j), w, h, bpp, x, y)
  {
    assert HSwapped(w, i, j + 1, x, y) == HSwapped(w, i, j, x, y);
    FlipHPartialPixel(d, w, h, bpp, i, j + 1, x, y);
    FlipHPartialPixel(d, w, h, bpp, i, j, x, y);
  }

  /** Setting each of two pixels to the other's colour exchanges them and nothing else. */
  lemma SwapByPuts(p: seq<byte>, w: int, h: int, bpp: int, x1: int, y1: int, x2: int, y2: int, x: int, y: int)
    requires Fits(p, w, h, bpp) && InImage(w, h, x1, y1) && InImage(w, h, x2, y2) && InImage(w, h, x, y)
    requires x1 != x2 || y1 != y2
    ensures var c1, c2 := PixelAt(p, w, h, bpp, x1, y1), PixelAt(p, w, h, bpp, x2, y2);
      PixelAt(Put(Put(p, w, h, bpp, x1, y1, c2), w, h, bpp, x2, y2, c1), w, h, bpp, x, y) ==
        if x == x1 && y == y1 then c2
        else if x == x2 && y == y2 then c1
        else PixelAt(p, w, h, bpp, x, y)
  {
    var c1, c2 := PixelAt(p, w, h, bpp, x1, y1), PixelAt(p, w, h, bpp, x2, y2);
    GetAfterTwoSets(p, w, h, bpp, x1, y1, c2, x2, y2, c1, x, y);
    FromBytesOfRaw(c1);
    FromBytesOfRaw(c2);
  }

  /** A buffer that shows p with two pixels exchanged is what the two sets of the exchange leave. */
  lemma SwapByPutsIs(p: seq<byte>, q: seq<byte>, w: int, h: int, bpp: int, x1: int, y1: int, x2: int, y2: int)
    requires Fits(p, w, h, bpp) && Fits(q, w, h, bpp) && InImage(w, h, x1, y1) && InImage(w, h, x2, y2)
    requires x1 != x2 || y1 != y2
    requires forall x, y :: InImage(w, h, x, y) ==> ExchangedAt(p, q, w, h, bpp, x1, y1, x2, y2, x, y)
    ensures var c1, c2 := PixelAt(p, w, h, bpp, x1, y1), PixelAt(p, w, h, bpp, x2, y2);
      Put(Put(p, w, h, bpp, x1, y1, c2), w, h, bpp, x2, y2, c1) == q
  {
    var c1, c2 := PixelAt(p, w, h, bpp, x1, y1), PixelAt(p, w, h, bpp, x2, y2);
    var r := Put(Put(p, w, h, bpp, x1, y1, c2), w, h, bpp, x2, y2, c1);
    forall x, y | InImage(w, h, x, y)
      ensures PixelAt(r, w, h, bpp, x, y) == PixelAt(q, w, h, bpp, x, y)
    {
      assert ExchangedAt(p, q, w, h, bpp, x1, y1, x2, y2, x, y);
      SwapByPuts(p, w, h, bpp, x1, y1, x2, y2, x, y);
    }
    PixelsDetermine(r, q, w, h, bpp);
  }

  /**
   * One step of flipHorizontally: with c1 = get(i, j) and c2 = get(m, j),
   * m = w - 1 - i, setting (i, j) to c2 and (m, j) to c1 advances the
   * partial flip by one row.
   */
  lemma FlipHStep(d: seq<byte>, w: int, h: int, bpp: int, i: int, m: int, j: int, c1: Color, c2: Color)
    requires Fits(d, w, h, bpp) && 0 <= i < m && m == w - 1 - i && 0 <= j < h
    requires c1 == PixelAt(FlipHPartial(d, w, h, bpp, i, j), w, h, bpp, i, j)
    requires c2 == PixelAt(FlipHPartial(d, w, h, bpp, i, j), w, h, bpp, m, j)
    ensures Put(Put(FlipHPartial(d, w, h, bpp, i, j), w, h, bpp, i, j, c2), w, h, bpp, m, j, c1) == FlipHPartial(d, w, h, bpp, i, j + 1)
  {
    var p, q := FlipHPartial(d, w, h, bpp, i, j), FlipHPartial(d, w, h, bpp, i, j + 1);
    forall x, y | InImage(w, h, x, y)
      ensures ExchangedAt(p, q, w, h, bpp, i, j, m, j, x, y)
    {
      FlipHPartialAdvance(d, w, h, bpp, i, m, j, x, y);
    }
    SwapByPutsIs(p, q, w, h, bpp, i, j, m, j);
  }
}
