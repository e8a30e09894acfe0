/**
 * TGAImage::scale (src/tgaimage.cpp:267-317) as a function on buffers.
 *
 * Along each axis scale runs an error accumulator: every source index adds
 * the new size to the error, and is copied once for each time the old size
 * can be taken out of it.  The sequence of source indices so copied, in
 * order, says which source column (row) each new column (row) shows.
 */
module TgaScale {
  import opened TgaColor
  import opened TgaLayout
  import opened TgaRaster

  /**
   * The source indices copied from index j on, with error err before j
   * adds m; an index is copied while the error is at least n.
   */
  function PicksFrom(n: int, m: int, j: int, err: int): seq<int>
    requires n > 0
    decreases n - j, 1, 0
  {
    if j >= n then [] else DrainFrom(n, m, j, err + m)
  }

  /** The copies of index j still due with error err, then those of the indices after it. */
  function DrainFrom(n: int, m: int, j: int, err: int): seq<int>
    requires n > 0 && j < n
    decreases n - j, 0, err
  {
    if n <= err then [j] + DrainFrom(n, m, j, err - n) else PicksFrom(n, m, j + 1, err)
  }

  predicate InRange(s: seq<int>, lo: int, hi: int) {
    forall k :: 0 <= k < |s| ==> lo <= s[k] < hi
  }

  predicate Ascending(s: seq<int>) {
    forall a, b :: 0 <= a < b < |s| ==> s[a] <= s[b]
  }

  /** Picks are source indices from j on, in ascending order. */
  lemma {:induction false} PicksOrdered(n: int, m: int, j: int, err: int)
    requires n > 0
    ensures InRange(PicksFrom(n, m, j, err), j, n) && Ascending(PicksFrom(n, m, j, err))
    decreases n - j, 1, 0
  {
    if j < n {
      DrainOrdered(n, m, j, err + m);
    }
  }

  lemma {:induction false} DrainOrdered(n: int, m: int, j: int, err: int)
    requires n > 0 && j < n
    ensures InRange(DrainFrom(n, m, j, err), j, n) && Ascending(DrainFrom(n, m, j, err))
    decreases n - j, 0, err
  {
    if n <= err {
      DrainOrdered(n, m, j, err - n);
    } else {
      PicksOrdered(n, m, j + 1, err);
    }
  }

  /** With the error kept in [0, n), k picks satisfy k * n <= err + (n - j) * m < k * n + n. */
  lemma {:induction false} PicksCount(n: int, m: int, j: int, err: int)
    requires n > 0 && m >= 0 && 0 <= j <= n && 0 <= err < n
    ensures var k := |PicksFrom(n, m, j, err)|; k * n <= err + (n - j) * m < k * n + n
    decreases n - j, 1, 0
  {
    if j < n {
      DrainCount(n, m, j, err + m);
      assert (n - j) * m == m + (n - j - 1) * m;
    }
  }

  lemma {:induction false} DrainCount(n: int, m: int, j: int, err: int)
    requires n > 0 && m >= 0 && 0 <= j < n && 0 <= err
    ensures var k := |DrainFrom(n, m, j, err)|; k * n <= err + (n - j - 1) * m < k * n + n
    decreases n - j, 0, err
  {
    if n <= err {
      DrainCount(n, m, j, err - n);
      var k := |DrainFrom(n, m, j, err - n)|;
      assert (k + 1) * n == k * n + n;
    } else {
      PicksCount(n, m, j + 1, err);
    }
  }

  /** Whatever the starting error, k picks (if any) satisfy k * n <= err + (n - j) * m. */
  lemma {:induction false} PicksBound(n: int, m: int, j: int, err: int)
    requires n > 0 && m >= 0 && 0 <= j <= n
    ensures var k := |PicksFrom(n, m, j, err)|; k == 0 || k * n <= err + (n - j) * m
    decreases n - j, 1, 0
  {
    if j < n {
      DrainBound(n, m, j, err + m);
      assert (n - j) * m == m + (n - j - 1) * m;
    }
  }

  lemma {:induction false} DrainBound(n: int, m: int, j: int, err: int)
    requires n > 0 && m >= 0 && 0 <= j < n
    ensures var k := |DrainFrom(n, m, j, err)|; k == 0 || k * n <= err + (n - j - 1) * m
    decreases n - j, 0, err
  {
    if n <= err {
      DrainBound(n, m, j, err - n);
      var k := |DrainFrom(n, m, j, err - n)|;
      assert (k + 1) * n == k * n + n;
      MulMono(0, n - j - 1, m);
    } else {
      PicksBound(n, m, j + 1, err);
    }
  }

  /** Starting with an error in [0, n), a walk over all n source indices makes exactly m picks. */
  lemma PicksExact(n: int, m: int, e0: int)
    requires n > 0 && m >= 0 && 0 <= e0 < n
    ensures |PicksFrom(n, m, 0, e0)| == m
    ensures InRange(PicksFrom(n, m, 0, e0), 0, n) && Ascending(PicksFrom(n, m, 0, e0))
  {
    PicksCount(n, m, 0, e0);
    PicksOrdered(n, m, 0, e0);
    var k := |PicksFrom(n, m, 0, e0)|;
    if k > m {
      MulMono(m + 1, k, n);
    } else if k < m {
      MulMono(k + 1, m, n);
    }
  }

  /** The source columns of the new columns as the code computes them: errX starts at width - w. */
  function ColumnPicksAsWritten(width: int, w: int): (cols: seq<int>)
    requires width > 0 && w > 0
    ensures InRange(cols, 0, width) && Ascending(cols)
  {
    PicksOrdered(width, w, 0, width - w);
    PicksFrom(width, w, 0, width - w)
  }

  /**
   * Enlarging the width leaves new columns unwritten: with errX starting
   * below zero fewer than w columns are copied into the new buffer, whose
   * remaining bytes are never initialised.
   */
  lemma AsWrittenDropsColumns(width: int, w: int)
    requires 0 < width < w
    ensures |ColumnPicksAsWritten(width, w)| < w
    ensures ColumnPicksAsWritten(2, 3) == [0, 1]
  {
    PicksBound(width, w, 0, width - w);
    var k := |ColumnPicksAsWritten(width, w)|;
    if k >= w {
      MulMono(w, k, width);
    }
    assert DrainFrom(2, 3, 1, 1) == [];
    assert DrainFrom(2, 3, 0, 0) == DrainFrom(2, 3, 1, 3) == [1];
  }

  /** The source columns of the new columns with errX starting at max(width - w, 0). */
  function ColumnPicks(width: int, w: int): (cols: seq<int>)
    requires width > 0 && w > 0
    ensures |cols| == w && InRange(cols, 0, width) && Ascending(cols)
    ensures w <= width ==> cols == ColumnPicksAsWritten(width, w)
  {
    var e0 := if w <= width then width - w else 0;
    PicksExact(width, w, e0);
    PicksFrom(width, w, 0, e0)
  }

  /** The source rows of the new rows: errY starts at 0. */
  function RowPicks(height: int, h: int): (rows: seq<int>)
    requires height > 0 && h > 0
    ensures |rows| == h && InRange(rows, 0, height) && Ascending(rows)
  {
    PicksExact(height, h, 0);
    PicksFrom(height, h, 0, 0)
  }

  /** The source indices j, j + 1, ..., n - 1. */
  function Span(j: int, n: int): (s: seq<int>)
    ensures |s| == if j < n then n - j else 0
    ensures forall k :: 0 <= k < |s| ==> s[k] == j + k
    decreases n - j
  {
    if j >= n then [] else [j] + Span(j + 1, n)
  }

  /** Scaling an axis to its own size copies every index once, in order. */
  lemma {:induction false} SameSizePicks(n: int, j: int)
    requires n > 0 && 0 <= j <= n
    ensures PicksFrom(n, n, j, 0) == Span(j, n)
    decreases n - j
  {
    if j < n {
      SameSizePicks(n, j + 1);
      assert DrainFrom(n, n, j, n) == [j] + DrainFrom(n, n, j, 0);
    }
  }

  /**
   * Fits, with the buffer length written as height scan lines of
   * width * bpp bytes laid end to end.
   */
  predicate Sized(d: seq<byte>, width: int, height: int, bpp: int) {
    0 <= width && 0 <= height && 1 <= bpp <= 4 && |d| == Times(height, Times(width, bpp))
  }

  lemma FitsSized(d: seq<byte>, width: int, height: int, bpp: int)
    ensures Fits(d, width, height, bpp) <==> Sized(d, width, height, bpp)
  {
    if 0 <= width && 0 <= height {
      TimesIsMul(width, bpp);
      TimesIsMul(height, width * bpp);
      BufferIsLines(width, height, bpp);
    }
  }

  /** The bytes of pixel (x, y) of a buffer. */
  function PixelBytes(d: seq<byte>, width: int, height: int, bpp: int, x: int, y: int): (p: seq<byte>)
    requires Sized(d, width, height, bpp) && InImage(width, height, x, y)
    ensures |p| == bpp
  {
    FitsSized(d, width, height, bpp);
    PixelInBuffer(width, height, bpp, x, y);
    LineStartIsStart(width, bpp, x, y);
    d[LineStart(width, bpp, x, y)..LineStart(width, bpp, x, y) + bpp]
  }

  /** A new scan line: the pixels of source row y at the source columns cols. */
  function LineOf(d: seq<byte>, width: int, height: int, bpp: int, cols: seq<int>, y: int): (line: seq<byte>)
    requires Sized(d, width, height, bpp) && InRange(cols, 0, width) && 0 <= y < height
    ensures |line| == Times(|cols|, bpp)
    decreases |cols|
  {
    if cols == [] then []
    else
      var last := |cols| - 1;
      assert InRange(cols[..last], 0, width);
      LineOf(d, width, height, bpp, cols[..last], y) + PixelBytes(d, width, height, bpp, cols[last], y)
  }

  /** One more source column at the end of a line adds that pixel's bytes. */
  lemma LineOfSnoc(d: seq<byte>, width: int, height: int, bpp: int, cols: seq<int>, c: int, y: int)
    requires Sized(d, width, height, bpp) && InRange(cols, 0, width) && 0 <= c < width && 0 <= y < height
    ensures InRange(cols + [c], 0, width)
    ensures LineOf(d, width, height, bpp, cols + [c], y) == LineOf(d, width, height, bpp, cols, y) + PixelBytes(d, width, height, bpp, c, y)
  {
    assert (cols + [c])[..|cols|] == cols;
  }

  /** The new buffer: one line per source row in rows, each over the source columns cols. */
  function LinesOf(d: seq<byte>, width: int, height: int, bpp: int, cols: seq<int>, rows: seq<int>): (img: seq<byte>)
    requires Sized(d, width, height, bpp) && InRange(cols, 0, width) && InRange(rows, 0, height)
    ensures |img| == Times(|rows|, Times(|cols|, bpp))
    decreases |rows|
  {
    if rows == [] then []
    else
      var last := |rows| - 1;
      assert InRange(rows[..last], 0, height);
      LinesOf(d, width, height, bpp, cols, rows[..last]) + LineOf(d, width, height, bpp, cols, rows[last])
  }

  /** One more source row at the end adds that row's line. */
  lemma LinesOfSnoc(d: seq<byte>, width: int, height: int, bpp: int, cols: seq<int>, rows: seq<int>, r: int)
    requires Sized(d, width, height, bpp) && InRange(cols, 0, width) && InRange(rows, 0, height) && 0 <= r < height
    ensures InRange(rows + [r], 0, height)
    ensures LinesOf(d, width, height, bpp, cols, rows + [r]) == LinesOf(d, width, height, bpp, cols, rows) + LineOf(d, width, height, bpp, cols, r)
  {
    assert (rows + [r])[..|rows|] == rows;
  }

  /** The buffer scale(w, h) leaves: new pixel (x, y) is source pixel (ColumnPicks[x], RowPicks[y]). */
  function Scaled(d: seq<byte>, width: int, height: int, bpp: int, w: int, h: int): (r: seq<byte>)
    requires Fits(d, width, height, bpp) && width > 0 && height > 0 && w > 0 && h > 0
    ensures Fits(r, w, h, bpp)
  {
    FitsSized(d, width, height, bpp);
    var img := LinesOf(d, width, height, bpp, ColumnPicks(width, w), RowPicks(height, h));
    FitsSized(img, w, h, bpp);
    img
  }

  /** Pixel x of a line starts x pixels in. */
  lemma {:induction false} LineSlice(d: seq<byte>, width: int, height: int, bpp: int, cols: seq<int>, y: int, x: nat)
    requires Sized(d, width, height, bpp) && InRange(cols, 0, width) && 0 <= y < height
    requires x < |cols|
    ensures 0 <= Times(x, bpp) && Times(x, bpp) + bpp <= Times(|cols|, bpp)
    ensures LineOf(d, width, height, bpp, cols, y)[Times(x, bpp)..Times(x, bpp) + bpp] == PixelBytes(d, width, height, bpp, cols[x], y)
    decreases |cols|
  {
    var last := |cols| - 1;
    assert InRange(cols[..last], 0, width);
    TimesMono(0, x, bpp);
    TimesSucc(x, bpp);
    TimesSucc(last, bpp);
    if x < last {
      LineSlice(d, width, height, bpp, cols[..last], y, x);
      TimesMono(x + 1, last, bpp);
    }
  }

  /** Line y of a buffer of lines starts y lines in. */
  lemma {:induction false} LinesSlice(d: seq<byte>, width: int, height: int, bpp: int, cols: seq<int>, rows: seq<int>, y: nat)
    requires Sized(d, width, height, bpp) && InRange(cols, 0, width) && InRange(rows, 0, height)
    requires y < |rows|
    ensures var n := Times(|cols|, bpp); 0 <= Times(y, n) && Times(y, n) + n <= Times(|rows|, n)
    ensures var n := Times(|cols|, bpp);
      LinesOf(d, width, height, bpp, cols, rows)[Times(y, n)..Times(y, n) + n] == LineOf(d, width, height, bpp, cols, rows[y])
    decreases |rows|
  {
    var n := Times(|cols|, bpp);
    var last := |rows| - 1;
    assert InRange(rows[..last], 0, height);
    TimesMono(0, |cols|, bpp);
    TimesMono(0, y, n);
    TimesSucc(y, n);
    TimesSucc(last, n);
    if y < last {
      LinesSlice(d, width, height, bpp, cols, rows[..last], y);
      TimesMono(y + 1, last, n);
    }
  }

  /** Pixel (x, y) of the scaled image is the source pixel at column ColumnPicks[x] and row RowPicks[y]. */
  lemma ScaledPixel(d: seq<byte>, width: int, height: int, bpp: int, w: int, h: int, x: int, y: int)
    requires Fits(d, width, height, bpp) && width > 0 && height > 0 && w > 0 && h > 0
    requires InImage(w, h, x, y)
    ensures PixelAt(Scaled(d, width, height, bpp, w, h), w, h, bpp, x, y)
      == PixelAt(d, width, height, bpp, ColumnPicks(width, w)[x], RowPicks(height, h)[y])
  {
    FitsSized(d, width, height, bpp);
    var cols, rows := ColumnPicks(width, w), RowPicks(height, h);
    var img := Scaled(d, width, height, bpp, w, h);
    PixelOfLines(d, width, height, bpp, cols, rows, x, y);
    PixelAtBytes(img, w, h, bpp, x, y);
    PixelAtBytes(d, width, height, bpp, cols[x], rows[y]);
  }

  /** Pixel (x, y) of a buffer of lines is the source pixel at column cols[x] and row rows[y]. */
  lemma PixelOfLines(d: seq<byte>, width: int, height: int, bpp: int, cols: seq<int>, rows: seq<int>, x: int, y: int)
    requires Sized(d, width, height, bpp) && InRange(cols, 0, width) && InRange(rows, 0, height)
    requires 0 <= x < |cols| && 0 <= y < |rows|
    ensures Sized(LinesOf(d, width, height, bpp, cols, rows), |cols|, |rows|, bpp)
    ensures PixelBytes(LinesOf(d, width, height, bpp, cols, rows), |cols|, |rows|, bpp, x, y)
      == PixelBytes(d, width, height, bpp, cols[x], rows[y])
  {
    var img := LinesOf(d, width, height, bpp, cols, rows);
    var a := LineStart(|cols|, bpp, x, y);
    LinesPixelSlice(d, width, height, bpp, cols, rows, x, y, img, a);
    PixelBytesAt(img, |cols|, |rows|, bpp, x, y, a);
  }

  /** The bytes of the source pixel at cols[x], rows[y] sit x pixels into line y of the buffer of lines. */
  lemma LinesPixelSlice(d: seq<byte>, width: int, height: int, bpp: int, cols: seq<int>, rows: seq<int>, x: int, y: int,
                        img: seq<byte>, a: int)
    requires Sized(d, width, height, bpp) && InRange(cols, 0, width) && InRange(rows, 0, height)
    requires 0 <= x < |cols| && 0 <= y < |rows|
    requires img == LinesOf(d, width, height, bpp, cols, rows) && a == LineStart(|cols|, bpp, x, y)
    ensures 0 <= a && a + bpp <= |img| && img[a..a + bpp] == PixelBytes(d, width, height, bpp, cols[x], rows[y])
  {
    LinesSlice(d, width, height, bpp, cols, rows, y);
    LineSlice(d, width, height, bpp, cols, rows[y], x);
    SliceWithin(img, Times(y, Times(|cols|, bpp)), Times(|cols|, bpp),
                LineOf(d, width, height, bpp, cols, rows[y]), Times(x, bpp), bpp, PixelBytes(d, width, height, bpp, cols[x], rows[y]), a);
  }

  /** The bytes of pixel (x, y) start x pixels into scan line y. */
  lemma PixelBytesAt(d: seq<byte>, width: int, height: int, bpp: int, x: nat, y: nat, a: int)
    requires Sized(d, width, height, bpp) && InImage(width, height, x, y)
    requires a == LineStart(width, bpp, x, y)
    ensures 0 <= a && a + bpp <= |d| && PixelBytes(d, width, height, bpp, x, y) == d[a..a + bpp]
  {
    FitsSized(d, width, height, bpp);
    PixelInBuffer(width, height, bpp, x, y);
    LineStartIsStart(width, bpp, x, y);
  }

  /** Inside the image get(x, y) is the colour of the pixel's bytes. */
  lemma PixelAtBytes(d: seq<byte>, width: int, height: int, bpp: int, x: int, y: int)
    requires Fits(d, width, height, bpp) && InImage(width, height, x, y)
    ensures Sized(d, width, height, bpp)
    ensures PixelAt(d, width, height, bpp, x, y) == FromBytes(PixelBytes(d, width, height, bpp, x, y), bpp)
  {
    FitsSized(d, width, height, bpp);
    LineStartIsStart(width, bpp, x, y);
  }

  /** Scaling an image to its own size leaves it as it is. */
  lemma ScaleSameSize(d: seq<byte>, width: int, height: int, bpp: int)
    requires Fits(d, width, height, bpp) && width > 0 && height > 0
    ensures Scaled(d, width, height, bpp, width, height) == d
  {
    SameSizePicks(width, 0);
    SameSizePicks(height, 0);
    var img := Scaled(d, width, height, bpp, width, height);
    forall x, y | InImage(width, height, x, y)
      ensures PixelAt(img, width, height, bpp, x, y) == PixelAt(d, width, height, bpp, x, y)
    {
      ScaledPixel(d, width, height, bpp, width, height, x, y);
    }
    PixelsDetermine(img, d, width, height, bpp);
  }
}
