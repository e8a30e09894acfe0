/**
 * The loop states of TGAImage::scale (src/tgaimage.cpp:279-310), shared by
 * the methods of TgaImage that each carry out one of its loops or one pass
 * of a loop.
 */
module TgaScaleState {
  import opened TgaColor
  import opened TgaLayout
  import opened TgaScale

  /** t is t0 with line written from position at on, and the rest of t0 kept. */
  ghost predicate Written(t: seq<byte>, t0: seq<byte>, at: int, line: seq<byte>) {
    0 <= at && at + |line| <= |t0| == |t| && t == t0[..at] + line + t0[at + |line|..]
  }

  /** cols are the column picks of scaling width columns to w, as ColumnPicks defines them. */
  ghost predicate ColumnsOf(cols: seq<int>, width: int, w: int)
    requires width > 0
  {
    |cols| == w && InRange(cols, 0, width) && cols == PicksFrom(width, w, 0, if w <= width then width - w else 0)
  }

  /** rows are the row picks of scaling height rows to h, as RowPicks defines them. */
  ghost predicate RowsOf(rows: seq<int>, height: int, h: int)
    requires height > 0
  {
    |rows| == h && InRange(rows, 0, height) && rows == PicksFrom(height, h, 0, 0)
  }

  /**
   * The state of the column loop of scale before source column j: the
   * columns emitted so far are the first picks, and their pixels are
   * written from nScan on.
   */
  ghost predicate ColumnLoop(t: seq<byte>, t0: seq<byte>, nScan: int, src: seq<byte>, width: int, height: int, bpp: int,
                             w: int, i: int, cols: seq<int>, j: int, errX: int, nx: int, ox: int, emitted: seq<int>)
  {
    width > 0 && Sized(src, width, height, bpp) && 0 <= i < height && 0 <= j &&
    0 <= errX < width && InRange(emitted, 0, width) && cols == emitted + PicksFrom(width, w, j, errX) &&
    nx + bpp == |LineOf(src, width, height, bpp, emitted, i)| && ox == Times(j, bpp) - bpp &&
    Written(t, t0, nScan, LineOf(src, width, height, bpp, emitted, i))
  }

  /**
   * The state of the inner while loop for source column j: the columns
   * emitted so far, followed by the copies of j still due with error errX
   * and the picks after j, are the column picks, and their pixels are
   * written from nScan on.
   */
  ghost predicate ColumnDrain(t: seq<byte>, t0: seq<byte>, nScan: int, src: seq<byte>, width: int, height: int, bpp: int,
                              w: int, i: int, cols: seq<int>, j: int, errX: int, nx: int, emitted: seq<int>)
  {
    width > 0 && Sized(src, width, height, bpp) && 0 <= i < height && 0 <= j < width &&
    0 <= errX && InRange(emitted, 0, width) && cols == emitted + DrainFrom(width, w, j, errX) &&
    nx + bpp == |LineOf(src, width, height, bpp, emitted, i)| &&
    Written(t, t0, nScan, LineOf(src, width, height, bpp, emitted, i))
  }

  /**
   * The state of the row drain loop after old row i was resampled into
   * line: the row picks done so far are counted and their new lines are
   * written.
   */
  ghost predicate RowDrain(t: seq<byte>, src: seq<byte>, width: int, height: int, bpp: int, h: int, nLine: int, i: int,
                           cols: seq<int>, rows: seq<int>, done: seq<int>, errY: int, nScan: int, line: seq<byte>)
  {
    RowCount(height, h, i, rows, done, errY) &&
    RowLines(t, src, width, height, bpp, h, nLine, i, cols, done, errY, nScan, line)
  }

  /** The row picks done, then the copies of i due with error errY and the picks after i, are rows. */
  ghost predicate RowCount(height: int, h: int, i: int, rows: seq<int>, done: seq<int>, errY: int) {
    height > 0 && h > 0 && 0 <= i < height &&
    rows == done + DrainFrom(height, h, i, errY) && InRange(done, 0, height) &&
    Times(|done|, height) + errY == Times(i + 1, h) && 0 <= errY
  }

  /** The new lines of the row picks done are written, and while errY is at least height line follows them. */
  ghost predicate RowLines(t: seq<byte>, src: seq<byte>, width: int, height: int, bpp: int, h: int, nLine: int, i: int,
                           cols: seq<int>, done: seq<int>, errY: int, nScan: int, line: seq<byte>)
  {
    Sized(src, width, height, bpp) && 0 <= i < height && InRange(done, 0, height) && h > 0 &&
    InRange(cols, 0, width) && nLine == Times(|cols|, bpp) && 0 <= nLine && |t| == Times(h, nLine) &&
    line == LineOf(src, width, height, bpp, cols, i) &&
    nScan == Times(|done|, nLine) && 0 <= nScan <= |t| &&
    t[..nScan] == LinesOf(src, width, height, bpp, cols, done) &&
    (height <= errY ==> nScan + nLine <= |t| && t[nScan..nScan + nLine] == line)
  }

  /**
   * The state of the row loop of scale before old row i: the row picks done
   * so far have their new lines written, nScan bytes in all, and oScan is
   * where old row i starts.
   */
  ghost predicate RowLoop(t: seq<byte>, src: seq<byte>, width: int, height: int, bpp: int, w: int, h: int,
                          nLine: int, oLine: int, cols: seq<int>, rows: seq<int>,
                          i: int, errY: int, done: seq<int>, nScan: int, oScan: int)
  {
    Sized(src, width, height, bpp) && width > 0 && height > 0 && w > 0 && h > 0 &&
    ColumnsOf(cols, width, w) && RowsOf(rows, height, h) &&
    nLine == Times(w, bpp) && 0 <= nLine && oLine == Times(width, bpp) && |t| == Times(h, nLine) &&
    0 <= i <= height && 0 <= errY < height &&
    rows == done + PicksFrom(height, h, i, errY) && InRange(done, 0, height) &&
    Times(|done|, height) + errY == Times(i, h) &&
    nScan == Times(|done|, nLine) && 0 <= nScan <= |t| && oScan == Times(i, oLine) &&
    t[..nScan] == LinesOf(src, width, height, bpp, cols, done)
  }

  /** The buffer after the memcpy of lines 303-305 when twice holds: the line at nScan repeated after itself. */
  function Repeated(t: seq<byte>, nScan: int, nLine: int, twice: bool): seq<byte>
  {
    if twice && 0 <= nScan && 0 <= nLine && nScan + nLine + nLine <= |t| then
      t[..nScan + nLine] + t[nScan..nScan + nLine] + t[nScan + nLine + nLine..]
    else t
  }

  /** Repeating keeps the length and the lines up to nScan + nLine, and puts a copy of the line at nScan after them. */
  lemma RepeatedParts(t: seq<byte>, nScan: int, nLine: int, twice: bool)
    requires 0 <= nScan && 0 <= nLine && nScan + nLine <= |t|
    ensures |Repeated(t, nScan, nLine, twice)| == |t|
    ensures Repeated(t, nScan, nLine, twice)[..nScan + nLine] == t[..nScan + nLine]
    ensures twice && nScan + nLine + nLine <= |t| ==>
      Repeated(t, nScan, nLine, twice)[nScan + nLine..nScan + nLine + nLine] == t[nScan..nScan + nLine]
  {
    if twice && nScan + nLine + nLine <= |t| {
      var a, u := nScan + nLine, t[nScan..nScan + nLine];
      var r := t[..a] + u + t[a + nLine..];
      assert r[..a] == t[..a];
      assert r[a..a + nLine] == u;
    }
  }

  /** The number of passes the row drain loop (lines 301-309) makes from an error of errY. */
  function Passes(errY: int, height: int): nat
    decreases errY
  {
    if height <= 0 || errY < height then 0 else 1 + Passes(errY - height, height)
  }

  /** The buffer the row drain loop leaves, from buffer t with its next free line at nScan. */
  function Drained(t: seq<byte>, nScan: int, nLine: int, errY: int, height: int): seq<byte>
    decreases errY
  {
    if height <= 0 || errY < height then t
    else Drained(Repeated(t, nScan, nLine, height + height <= errY), nScan + nLine, nLine, errY - height, height)
  }

  /** The next free line, the error and the row picks the row drain loop leaves, while repeating old row i. */
  function DrainedState(i: int, nScan: int, nLine: int, errY: int, height: int, done: seq<int>): (int, int, seq<int>)
    decreases errY
  {
    if height <= 0 || errY < height then (nScan, errY, done)
    else DrainedState(i, nScan + nLine, nLine, errY - height, height, done + [i])
  }

  /** One pass of the row drain loop, as Drained and DrainedState see it. */
  lemma DrainedStep(t: seq<byte>, i: int, nScan: int, nLine: int, errY: int, height: int, done: seq<int>)
    requires 0 < height <= errY
    ensures Drained(t, nScan, nLine, errY, height) ==
      Drained(Repeated(t, nScan, nLine, height + height <= errY), nScan + nLine, nLine, errY - height, height)
    ensures DrainedState(i, nScan, nLine, errY, height, done) ==
      DrainedState(i, nScan + nLine, nLine, errY - height, height, done + [i])
    ensures Passes(errY, height) == Passes(errY - height, height) + 1
  {}

  /** The passes take no more than the error. */
  lemma {:induction false} PassesBelow(errY: int, height: int)
    requires height > 0 && errY >= 0
    ensures Times(Passes(errY, height), height) <= errY
  {
    if height <= errY {
      PassesBelow(errY - height, height);
      TimesSucc(Passes(errY - height, height), height);
    }
  }

  /** With an error of twice height two more passes, so two more lines, are left. */
  lemma TwoPassesLeft(errY: int, height: int, nLine: int)
    requires height > 0 && height + height <= errY && nLine >= 0
    ensures nLine + nLine <= Times(Passes(errY, height), nLine)
  {
    var k := Passes(errY, height);
    assert k == 1 + Passes(errY - height, height);
    assert Passes(errY - height, height) == 1 + Passes(errY - height - height, height);
    TimesMono(2, k, nLine);
    TimesSucc(1, nLine);
    TimesSucc(0, nLine);
  }
}
