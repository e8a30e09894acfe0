/**
 * The TGAImage class (src/tgaimage.hpp:48-86, src/tgaimage.cpp:35-494): a
 * heap buffer of width * height * bytespp bytes, or none, and the
 * operations that read and change it in place.  Each method is proved
 * against the functions of TgaRaster, TgaScale, TgaRle and TgaFile.
 */
module TgaImage {
  import opened TgaColor
  import opened TgaLayout
  import opened TgaRaster
  import opened TgaRle
  import opened TgaHeader
  import opened TgaScale
  import opened TgaScaleState
  import TgaFile

  /**
   * memcpy / memmove of n bytes from src[sOff..] to dst[dOff..]; the source
   * is read as a snapshot, so a move between overlapping ranges is covered.
   */
  method MoveBytes(dst: array<byte>, dOff: int, src: seq<byte>, sOff: int, n: int)
    requires 0 <= n && 0 <= dOff && dOff + n <= dst.Length && 0 <= sOff && sOff + n <= |src|
    modifies dst
    ensures dst[..] == old(dst[..])[..dOff] + src[sOff..sOff + n] + old(dst[..])[dOff + n..]
  {
    var k := 0;
    while k < n
      invariant 0 <= k <= n
      invariant forall i :: 0 <= i < dst.Length ==>
        dst[i] == if dOff <= i < dOff + k then src[sOff + i - dOff] else old(dst[i])
    {
      dst[dOff + k] := src[sOff + k];
      k := k + 1;
    }
    assert dst[..] == old(dst[..])[..dOff] + src[sOff..sOff + n] + old(dst[..])[dOff + n..];
  }

  /** The three memmoves of one flipVertically step (lines 256-260): lines a and b trade places through line. */
  method SwapLines(data: array<byte>, line: array<byte>, bpl: int, a: int, b: int)
    requires data != line && line.Length == bpl && 0 <= bpl
    requires 0 <= a < b && b * bpl + bpl <= data.Length
    modifies data, line
    ensures data[..] == SwappedLines(old(data[..]), a * bpl, b * bpl, bpl)
  {
    TwoLinesFit(a, b, bpl);
    var l1 := a * bpl;
    var l2 := b * bpl;
    ghost var before, line0 := data[..], line[..];
    MoveBytes(line, 0, data[..], l1, bpl);
    Overwritten(line0, before[l1..l1 + bpl], line[..], bpl);
    ghost var line1 := line[..];
    MoveBytes(data, l1, data[..], l2, bpl);
    ghost var middle := data[..];
    MoveBytes(data, l2, line[..], 0, bpl);
    WholeSlice(line1, bpl);
    SwapMoves(before, line1, middle, data[..], l1, l2, bpl);
  }

  /** The three memmoves of SwapLines, composed. */
  lemma SwapMoves(before: seq<byte>, line1: seq<byte>, middle: seq<byte>, after: seq<byte>, l1: int, l2: int, n: int)
    requires 0 <= n && 0 <= l1 && l1 + n <= l2 && l2 + n <= |before|
    requires line1 == before[l1..l1 + n]
    requires middle == before[..l1] + before[l2..l2 + n] + before[l1 + n..]
    requires after == middle[..l2] + line1 + middle[l2 + n..]
    ensures after == SwappedLines(before, l1, l2, n)
  {}

  /**
   * The column loop of scale for source row i (lines 285-296): each source
   * pixel is copied once per time errX reaches width, so the new line at
   * nScan gets the pixels of row i at the columns ColumnPicks(width, w).
   * errX starts at max(width - w, 0).
   */
  method ScaleLine(tData: array<byte>, nScan: int, src: seq<byte>, oScan: int, width: int, height: int, bpp: int,
                   w: int, nLine: int, i: int, ghost cols: seq<int>)
    requires Sized(src, width, height, bpp) && width > 0 && w > 0 && 0 <= i < height
    requires ColumnsOf(cols, width, w)
    requires oScan == Times(i, Times(width, bpp)) && nLine == Times(w, bpp) && 0 <= nLine
    requires 0 <= nScan && nScan + nLine <= tData.Length
    modifies tData
    ensures tData[..] == old(tData[..])[..nScan] + LineOf(src, width, height, bpp, cols, i) + old(tData[..])[nScan + nLine..]
  {
    ghost var t0 := tData[..];
    ghost var emitted: seq<int> := [];
    var errX := if w <= width then width - w else 0;
    var nx := -bpp;
    var ox := -bpp;
    ColumnLoopStart(t0, nScan, src, width, height, bpp, w, nLine, i, cols);
    for j := 0 to width
      invariant ColumnLoop(tData[..], t0, nScan, src, width, height, bpp, w, i, cols, j, errX, nx, ox, emitted)
    {
      ox, errX, nx, emitted := ScaleColumn(tData, nScan, src, oScan, width, height, bpp, w, nLine, i, j, ox, errX, nx, cols, emitted, t0);
    }
    ColumnLoopDone(tData[..], t0, nScan, src, width, height, bpp, w, nLine, i, cols, errX, nx, ox, emitted);
  }

  /** Before the first source column nothing is written and every pick is still due. */
  lemma ColumnLoopStart(t0: seq<byte>, nScan: int, src: seq<byte>, width: int, height: int, bpp: int,
                        w: int, nLine: int, i: int, cols: seq<int>)
    requires Sized(src, width, height, bpp) && width > 0 && w > 0 && 0 <= i < height
    requires ColumnsOf(cols, width, w) && 0 <= nScan && nScan + nLine <= |t0| && 0 <= nLine
    ensures ColumnLoop(t0, t0, nScan, src, width, height, bpp, w, i, cols, 0, if w <= width then width - w else 0, -bpp, -bpp, [])
  {
    assert t0 == t0[..nScan] + [] + t0[nScan..];
  }

  /** After the last source column every pick has been written. */
  lemma ColumnLoopDone(t: seq<byte>, t0: seq<byte>, nScan: int, src: seq<byte>, width: int, height: int, bpp: int,
                       w: int, nLine: int, i: int, cols: seq<int>, errX: int, nx: int, ox: int, emitted: seq<int>)
    requires ColumnLoop(t, t0, nScan, src, width, height, bpp, w, i, cols, width, errX, nx, ox, emitted)
    requires ColumnsOf(cols, width, w) && nLine == Times(w, bpp)
    ensures t == t0[..nScan] + LineOf(src, width, height, bpp, cols, i) + t0[nScan + nLine..]
  {
    assert emitted == cols;
  }

  /** One pass of scale's column loop (lines 286-295): source column j is copied as often as errX + w calls for. */
  method ScaleColumn(tData: array<byte>, nScan: int, src: seq<byte>, oScan: int, width: int, height: int, bpp: int,
                     w: int, nLine: int, i: int, j: int, ox0: int, errX0: int, nx0: int,
                     ghost cols: seq<int>, ghost emitted0: seq<int>, ghost t0: seq<byte>)
    returns (ox: int, errX: int, nx: int, ghost emitted: seq<int>)
    requires ColumnLoop(tData[..], t0, nScan, src, width, height, bpp, w, i, cols, j, errX0, nx0, ox0, emitted0)
    requires w > 0 && j < width && |cols| == w
    requires oScan == Times(i, Times(width, bpp)) && nLine == Times(w, bpp) && nScan + nLine <= tData.Length
    modifies tData
    ensures ColumnLoop(tData[..], t0, nScan, src, width, height, bpp, w, i, cols, j + 1, errX, nx, ox, emitted)
  {
    TimesSucc(j, bpp);
    ox := ox0 + bpp;
    errX := errX0 + w;
    SourcePixel(src, width, height, bpp, i, j, oScan, ox);
    assert PicksFrom(width, w, j, errX0) == DrainFrom(width, w, j, errX);
    errX, nx, emitted := CopyColumn(tData, nScan, src, oScan + ox, width, height, bpp, w, nLine, i, j, errX, nx0, cols, emitted0, t0);
    assert DrainFrom(width, w, j, errX) == PicksFrom(width, w, j + 1, errX);
  }

  /** data + oScanLine + ox (line 294) addresses pixel (j, i) of the source. */
  lemma SourcePixel(src: seq<byte>, width: int, height: int, bpp: int, i: int, j: int, oScan: int, ox: int)
    requires Sized(src, width, height, bpp) && 0 <= i < height && 0 <= j < width
    requires oScan == Times(i, Times(width, bpp)) && ox == Times(j, bpp)
    ensures 0 <= oScan + ox && oScan + ox + bpp <= |src|
    ensures src[oScan + ox..oScan + ox + bpp] == PixelBytes(src, width, height, bpp, j, i)
  {
    FitsSized(src, width, height, bpp);
    LineStartIsStart(width, bpp, j, i);
    PixelInBuffer(width, height, bpp, j, i);
  }

  /**
   * The inner while loop of scale's column loop (lines 290-295): source
   * pixel (j, i), at src[from..from + bpp], is copied to the next new column
   * each time errX is at least width.
   */
  method CopyColumn(tData: array<byte>, nScan: int, src: seq<byte>, from: int, width: int, height: int, bpp: int,
                    w: int, nLine: int, i: int, j: int, errX0: int, nx0: int, ghost cols: seq<int>, ghost emitted0: seq<int>, ghost t0: seq<byte>)
    returns (errX: int, nx: int, ghost emitted: seq<int>)
    requires ColumnDrain(tData[..], t0, nScan, src, width, height, bpp, w, i, cols, j, errX0, nx0, emitted0)
    requires 0 <= from && from + bpp <= |src| && src[from..from + bpp] == PixelBytes(src, width, height, bpp, j, i)
    requires |cols| == w && nLine == Times(w, bpp) && nScan + nLine <= tData.Length
    modifies tData
    ensures ColumnDrain(tData[..], t0, nScan, src, width, height, bpp, w, i, cols, j, errX, nx, emitted) && errX < width
  {
    errX, nx, emitted := errX0, nx0, emitted0;
    while width <= errX
      invariant ColumnDrain(tData[..], t0, nScan, src, width, height, bpp, w, i, cols, j, errX, nx, emitted)
      decreases errX
    {
      errX := errX - width;
      assert cols == (emitted + [j]) + DrainFrom(width, w, j, errX);
      LineOfSnoc(src, width, height, bpp, emitted, j, i);
      TimesMono(|emitted| + 1, w, bpp);
      ghost var line := LineOf(src, width, height, bpp, emitted, i);
      ghost var before := tData[..];
      MoveBytes(tData, nScan + nx + bpp, src, from, bpp);
      ScaleLineStep(before, tData[..], t0, nScan, line, PixelBytes(src, width, height, bpp, j, i), nx + bpp, bpp);
      nx := nx + bpp;
      emitted := emitted + [j];
    }
  }

  /** memcpy(tData + nScanLine + nLineBytes, tData + nScanLine, nLineBytes) (lines 303-305): the line at nScan is repeated after itself. */
  method RepeatLine(tData: array<byte>, nScan: int, nLine: int)
    requires 0 <= nScan && 0 <= nLine && nScan + nLine + nLine <= tData.Length
    modifies tData
    ensures tData[..] == Repeated(old(tData[..]), nScan, nLine, true)
  {
    MoveBytes(tData, nScan + nLine, tData[..], nScan, nLine);
  }

  /** When the row error still holds two steps, the new buffer has room for two more lines after the k written. */
  lemma RoomForTwoLines(k: nat, errY: int, height: int, i: nat, h: int, nLine: int)
    requires height > 0 && h >= 0 && i <= height && nLine >= 0
    requires Times(k, height) + errY == Times(i, h) && height + height <= errY
    ensures Times(k, nLine) + nLine + nLine <= Times(h, nLine)
  {
    StepsLeft(k, errY, height, i, h, 2);
    TimesRoom(k, h, nLine);
  }

  /** Emitting old row i once more takes one step of the row picks. */
  lemma NextRowPick(height: int, h: int, rows: seq<int>, done: seq<int>, i: int, errY: int)
    requires height > 0 && 0 <= i < height && height <= errY
    requires rows == done + DrainFrom(height, h, i, errY) && InRange(done, 0, height)
    ensures rows == (done + [i]) + DrainFrom(height, h, i, errY - height) && InRange(done + [i], 0, height)
  {
    assert rows == (done + [i]) + DrainFrom(height, h, i, errY - height);
  }

  /** The lines written so far followed by the line of old row i are the lines of done + [i]. */
  lemma NextRowLines(src: seq<byte>, width: int, height: int, bpp: int, cols: seq<int>, done: seq<int>,
                     i: int, t: seq<byte>, nScan: int, nLine: int)
    requires Sized(src, width, height, bpp) && 0 <= i < height
    requires InRange(cols, 0, width) && InRange(done, 0, height) && nLine == Times(|cols|, bpp) && 0 <= nLine
    requires nScan == Times(|done|, nLine) && 0 <= nScan && nScan + nLine <= |t|
    requires t[..nScan] == LinesOf(src, width, height, bpp, cols, done)
    requires t[nScan..nScan + nLine] == LineOf(src, width, height, bpp, cols, i)
    ensures nScan + nLine == Times(|done + [i]|, nLine) && InRange(done + [i], 0, height)
    ensures t[..nScan + nLine] == LinesOf(src, width, height, bpp, cols, done + [i])
  {
    assert |done + [i]| - 1 == |done|;
    LinesOfSnoc(src, width, height, bpp, cols, done, i);
    PrefixSplit(t, nScan, nScan + nLine);
  }

  /** With errY holding two steps the line at nScan can be repeated after itself. */
  lemma RowRoom(t: seq<byte>, src: seq<byte>, width: int, height: int, bpp: int, h: int, nLine: int, i: int,
                cols: seq<int>, rows: seq<int>, done: seq<int>, errY: int, nScan: int, line: seq<byte>)
    requires RowDrain(t, src, width, height, bpp, h, nLine, i, cols, rows, done, errY, nScan, line)
    requires height + height <= errY
    ensures 0 <= nScan && 0 <= nLine && nScan + nLine + nLine <= |t| && t[nScan..nScan + nLine] == line
  {
    RoomForTwoLines(|done|, errY, height, i + 1, h, nLine);
  }

  /** The loop state moves on by one row pick when the line at nScan is kept and, if errY still holds two steps, repeated. */
  lemma RowDrainStep(t: seq<byte>, t1: seq<byte>, src: seq<byte>, width: int, height: int, bpp: int, h: int, nLine: int, i: int,
                     cols: seq<int>, rows: seq<int>, done: seq<int>, errY: int, nScan: int, line: seq<byte>)
    requires RowDrain(t, src, width, height, bpp, h, nLine, i, cols, rows, done, errY, nScan, line)
    requires height <= errY && t1 == Repeated(t, nScan, nLine, height + height <= errY)
    ensures RowDrain(t1, src, width, height, bpp, h, nLine, i, cols, rows, done + [i], errY - height, nScan + nLine, line)
  {
    if height + height <= errY {
      RowRoom(t, src, width, height, bpp, h, nLine, i, cols, rows, done, errY, nScan, line);
    }
    RepeatedParts(t, nScan, nLine, height + height <= errY);
    NextRowPick(height, h, rows, done, i, errY);
    TimesSucc(|done|, height);
    RowLinesStep(t, t1, src, width, height, bpp, h, nLine, i, cols, done, errY, nScan, line);
  }

  /** The new lines move on by the line of old row i. */
  lemma RowLinesStep(t: seq<byte>, t1: seq<byte>, src: seq<byte>, width: int, height: int, bpp: int, h: int, nLine: int, i: int,
                     cols: seq<int>, done: seq<int>, errY: int, nScan: int, line: seq<byte>)
    requires RowLines(t, src, width, height, bpp, h, nLine, i, cols, done, errY, nScan, line)
    requires height <= errY && |t1| == |t|
    requires t1[..nScan + nLine] == t[..nScan + nLine]
    requires height + height <= errY ==> nScan + nLine + nLine <= |t1| && t1[nScan + nLine..nScan + nLine + nLine] == line
    ensures RowLines(t1, src, width, height, bpp, h, nLine, i, cols, done + [i], errY - height, nScan + nLine, line)
  {
    NextRowLines(src, width, height, bpp, cols, done, i, t, nScan, nLine);
  }

  /** The loop state the row drain loop leaves is again a state of it, with an error below height. */
  lemma {:induction false} DrainKeeps(t: seq<byte>, src: seq<byte>, width: int, height: int, bpp: int, h: int, nLine: int, i: int,
                                      cols: seq<int>, rows: seq<int>, done: seq<int>, errY: int, nScan: int, line: seq<byte>)
    requires RowDrain(t, src, width, height, bpp, h, nLine, i, cols, rows, done, errY, nScan, line)
    ensures var e := DrainedState(i, nScan, nLine, errY, height, done);
      RowDrain(Drained(t, nScan, nLine, errY, height), src, width, height, bpp, h, nLine, i, cols, rows, e.2, e.1, e.0, line) &&
      e.1 < height
    decreases errY
  {
    if height <= errY {
      var t1 := Repeated(t, nScan, nLine, height + height <= errY);
      RowDrainStep(t, t1, src, width, height, bpp, h, nLine, i, cols, rows, done, errY, nScan, line);
      DrainKeeps(t1, src, width, height, bpp, h, nLine, i, cols, rows, done + [i], errY - height, nScan + nLine, line);
      DrainedStep(t, i, nScan, nLine, errY, height, done);
    }
  }

  /** Every pass of the row drain loop has a new line to write. */
  lemma DrainRoom(t: seq<byte>, src: seq<byte>, width: int, height: int, bpp: int, h: int, nLine: int, i: int,
                  cols: seq<int>, rows: seq<int>, done: seq<int>, errY: int, nScan: int, line: seq<byte>)
    requires RowDrain(t, src, width, height, bpp, h, nLine, i, cols, rows, done, errY, nScan, line)
    ensures nScan + Times(Passes(errY, height), nLine) <= |t|
  {
    var c := Passes(errY, height);
    PassesBelow(errY, height);
    TimesIsMul(c, height);
    StepsLeft(|done|, errY, height, i + 1, h, c);
    TimesMono(|done| + c, h, nLine);
    TimesAdd(|done|, c, nLine);
  }

  /**
   * The while loop of lines 301-309: while errY is at least height the line
   * at nScan is kept, after being repeated to the next line when errY is at
   * least twice height.
   */
  method DrainLines(tData: array<byte>, nLine: int, height: int, i: int, nScan0: int, errY0: int, ghost done0: seq<int>)
    returns (nScan: int, errY: int, ghost done: seq<int>)
    requires height > 0 && 0 <= nScan0 && 0 <= nLine
    requires nScan0 + Times(Passes(errY0, height), nLine) <= tData.Length
    modifies tData
    ensures tData[..] == Drained(old(tData[..]), nScan0, nLine, errY0, height)
    ensures (nScan, errY, done) == DrainedState(i, nScan0, nLine, errY0, height, done0)
  {
    ghost var t0 := tData[..];
    nScan, errY, done := nScan0, errY0, done0;
    while height <= errY
      invariant 0 <= nScan && nScan + Times(Passes(errY, height), nLine) <= tData.Length
      invariant Drained(tData[..], nScan, nLine, errY, height) == Drained(t0, nScan0, nLine, errY0, height)
      invariant DrainedState(i, nScan, nLine, errY, height, done) == DrainedState(i, nScan0, nLine, errY0, height, done0)
      decreases errY
    {
      ghost var t := tData[..];
      DrainedStep(t, i, nScan, nLine, errY, height, done);
      TimesSucc(Passes(errY - height, height), nLine);
      if height + height <= errY {
        TwoPassesLeft(errY, height, nLine);
        RepeatLine(tData, nScan, nLine);
      }
      errY := errY - height;
      done := done + [i];
      nScan := nScan + nLine;
    }
  }

  /**
   * The row drain loop of scale (lines 301-309): while errY is at least
   * height the new line at nScanLine is final, and it is copied to the next
   * new line first when errY is at least twice height.
   */
  method CopyRows(tData: array<byte>, src: seq<byte>, width: int, height: int, bpp: int, h: int, nLine: int, i: int,
                  nScan0: int, errY0: int, ghost cols: seq<int>, ghost rows: seq<int>, ghost done0: seq<int>)
    returns (nScan: int, errY: int, ghost done: seq<int>)
    requires Sized(src, width, height, bpp) && height > 0 && h > 0 && 0 <= i < height
    requires InRange(cols, 0, width) && nLine == Times(|cols|, bpp) && 0 <= nLine && tData.Length == Times(h, nLine)
    requires rows == done0 + DrainFrom(height, h, i, errY0) && InRange(done0, 0, height)
    requires Times(|done0|, height) + errY0 == Times(i + 1, h) && 0 <= errY0
    requires nScan0 == Times(|done0|, nLine) && 0 <= nScan0 <= tData.Length
    requires tData[..nScan0] == LinesOf(src, width, height, bpp, cols, done0)
    requires height <= errY0 ==>
      nScan0 + nLine <= tData.Length && tData[nScan0..nScan0 + nLine] == LineOf(src, width, height, bpp, cols, i)
    modifies tData
    ensures 0 <= errY < height
    ensures rows == done + PicksFrom(height, h, i + 1, errY) && InRange(done, 0, height)
    ensures Times(|done|, height) + errY == Times(i + 1, h)
    ensures nScan == Times(|done|, nLine) && 0 <= nScan <= tData.Length
    ensures tData[..nScan] == LinesOf(src, width, height, bpp, cols, done)
  {
    ghost var line := LineOf(src, width, height, bpp, cols, i);
    ghost var t0 := tData[..];
    DrainRoom(t0, src, width, height, bpp, h, nLine, i, cols, rows, done0, errY0, nScan0, line);
    nScan, errY, done := DrainLines(tData, nLine, height, i, nScan0, errY0, done0);
    DrainKeeps(t0, src, width, height, bpp, h, nLine, i, cols, rows, done0, errY0, nScan0, line);
    assert DrainFrom(height, h, i, errY) == PicksFrom(height, h, i + 1, errY);
  }

  /**
   * One pass of scale's row loop (lines 279-310): old row i is resampled
   * into the next free line, then that line is repeated as often as the row
   * error calls for.
   */
  method ScaleRow(tData: array<byte>, src: seq<byte>, width: int, height: int, bpp: int, w: int, h: int,
                  nLine: int, oLine: int, i: int, nScan0: int, oScan: int, errY0: int,
                  ghost cols: seq<int>, ghost rows: seq<int>, ghost done0: seq<int>)
    returns (nScan: int, errY: int, ghost done: seq<int>)
    requires RowLoop(tData[..], src, width, height, bpp, w, h, nLine, oLine, cols, rows, i, errY0, done0, nScan0, oScan)
    requires i < height
    modifies tData
    ensures RowLoop(tData[..], src, width, height, bpp, w, h, nLine, oLine, cols, rows, i + 1, errY, done, nScan, oScan + oLine)
  {
    RowLoopRoom(tData[..], src, width, height, bpp, w, h, nLine, oLine, cols, rows, i, errY0, done0, nScan0, oScan);
    ghost var before := tData[..];
    ScaleLine(tData, nScan0, src, oScan, width, height, bpp, w, nLine, i, cols);
    assert tData[..nScan0] == before[..nScan0];
    assert tData[nScan0..nScan0 + nLine] == LineOf(src, width, height, bpp, cols, i);
    nScan, errY, done := CopyRows(tData, src, width, height, bpp, h, nLine, i, nScan0, errY0 + h, cols, rows, done0);
    TimesSucc(i, oLine);
  }

  /** Before old row i the next new line fits, and oScan addresses row i. */
  lemma RowLoopRoom(t: seq<byte>, src: seq<byte>, width: int, height: int, bpp: int, w: int, h: int,
                    nLine: int, oLine: int, cols: seq<int>, rows: seq<int>,
                    i: int, errY: int, done: seq<int>, nScan: int, oScan: int)
    requires RowLoop(t, src, width, height, bpp, w, h, nLine, oLine, cols, rows, i, errY, done, nScan, oScan)
    requires i < height
    ensures nScan + nLine <= |t| && oScan == Times(i, Times(width, bpp))
  {
    StepsBelow(|done|, errY, height, i, h);
    TimesMono(|done| + 1, h, nLine);
    TimesSucc(|done|, nLine);
  }

  /**
   * The row loop of scale (lines 279-310) writing the new buffer tData from
   * the old pixels src, with nLine bytes per new scan line and width * bpp
   * per old one: it ends holding one new line per row pick.
   */
  method ScaleRows(tData: array<byte>, src: seq<byte>, width: int, height: int, bpp: int, w: int, h: int,
                   nLineBytes: int, oLineBytes: int, ghost cols: seq<int>, ghost rows: seq<int>)
    requires Sized(src, width, height, bpp) && width > 0 && height > 0 && w > 0 && h > 0
    requires ColumnsOf(cols, width, w) && RowsOf(rows, height, h)
    requires nLineBytes == Times(w, bpp) && 0 <= nLineBytes && oLineBytes == Times(width, bpp)
    requires tData.Length == Times(h, nLineBytes)
    modifies tData
    ensures tData[..] == LinesOf(src, width, height, bpp, cols, rows)
  {
    var nScanLine := 0;
    var oScanLine := 0;
    var errY := 0;
    ghost var done: seq<int> := [];
    RowLoopStart(tData[..], src, width, height, bpp, w, h, nLineBytes, oLineBytes, cols, rows);
    for i := 0 to height
      invariant RowLoop(tData[..], src, width, height, bpp, w, h, nLineBytes, oLineBytes, cols, rows, i, errY, done, nScanLine, oScanLine)
    {
      nScanLine, errY, done := ScaleRow(tData, src, width, height, bpp, w, h, nLineBytes, oLineBytes, i, nScanLine, oScanLine, errY, cols, rows, done);
      oScanLine := oScanLine + oLineBytes;
    }
    RowLoopDone(tData[..], src, width, height, bpp, w, h, nLineBytes, oLineBytes, cols, rows, errY, done, nScanLine, oScanLine);
  }

  /** Before the first old row nothing is written. */
  lemma RowLoopStart(t: seq<byte>, src: seq<byte>, width: int, height: int, bpp: int, w: int, h: int,
                     nLine: int, oLine: int, cols: seq<int>, rows: seq<int>)
    requires Sized(src, width, height, bpp) && width > 0 && height > 0 && w > 0 && h > 0
    requires ColumnsOf(cols, width, w) && RowsOf(rows, height, h)
    requires nLine == Times(w, bpp) && 0 <= nLine && oLine == Times(width, bpp) && |t| == Times(h, nLine)
    ensures RowLoop(t, src, width, height, bpp, w, h, nLine, oLine, cols, rows, 0, 0, [], 0, 0)
  {
    assert rows == [] + PicksFrom(height, h, 0, 0);
  }

  /** After the last old row every row pick has its new line: the buffer is complete. */
  lemma RowLoopDone(t: seq<byte>, src: seq<byte>, width: int, height: int, bpp: int, w: int, h: int,
                    nLine: int, oLine: int, cols: seq<int>, rows: seq<int>,
                    errY: int, done: seq<int>, nScan: int, oScan: int)
    requires RowLoop(t, src, width, height, bpp, w, h, nLine, oLine, cols, rows, height, errY, done, nScan, oScan)
    ensures t == LinesOf(src, width, height, bpp, cols, rows)
  {
    assert PicksFrom(height, h, height, errY) == [];
    assert done == rows;
    assert t[..nScan] == t;
  }

  /** Scale's resampling of the old pixels src into the new w x h buffer tData (lines 272-310). */
  method ScaleBuffer(tData: array<byte>, src: seq<byte>, width: int, height: int, bpp: int, w: int, h: int)
    requires Fits(src, width, height, bpp) && width > 0 && height > 0 && w > 0 && h > 0
    requires tData.Length == w * h * bpp
    modifies tData
    ensures tData[..] == Scaled(src, width, height, bpp, w, h)
  {
    var nLineBytes := w * bpp;
    var oLineBytes := width * bpp;
    FitsSized(src, width, height, bpp);
    BufferIsLines(w, h, bpp);
    TimesIsMul(w, bpp);
    TimesIsMul(width, bpp);
    TimesIsMul(h, nLineBytes);
    ScaleRows(tData, src, width, height, bpp, w, h, nLineBytes, oLineBytes, ColumnPicks(width, w), RowPicks(height, h));
  }

  /** Writing pixel bytes px just after a partly built line extends the line by px. */
  lemma ScaleLineStep(before: seq<byte>, after: seq<byte>, t0: seq<byte>, nScan: int, line: seq<byte>, px: seq<byte>, len: int, bpp: int)
    requires 0 <= nScan && len == |line| && |px| == bpp && 0 <= bpp && nScan + len + bpp <= |t0| == |before|
    requires before == t0[..nScan] + line + t0[nScan + len..]
    requires after == before[..nScan + len] + px + before[nScan + len + bpp..]
    ensures after == t0[..nScan] + (line + px) + t0[nScan + len + bpp..]
  {
    assert before[..nScan + len] == t0[..nScan] + line;
    assert before[nScan + len + bpp..] == t0[nScan + len + bpp..];
  }

  /** Stores one decoded pixel at byte at, right after the pixels stored (lines 395-396 and 420-421). */
  method StorePixel(data: array<byte>, at: int, pixel: seq<byte>, pc: nat, bpp: nat, ghost d0: seq<byte>, ghost stored: seq<Pixel>)
    requires Loaded(data[..], d0, stored, at, bpp) && |stored| < pc && |pixel| == bpp && |d0| == Times(pc, bpp)
    modifies data
    ensures Loaded(data[..], d0, stored + [pixel], at + bpp, bpp)
  {
    TimesMono(|stored| + 1, pc, bpp);
    TimesSucc(|stored|, bpp);
    ghost var t := data[..];
    MoveBytes(data, at, pixel, 0, bpp);
    WholeSlice(pixel, bpp);
    LoadedStore(t, data[..], d0, stored, pixel, at, bpp);
  }

  /**
   * The n literal pixels of a raw packet (lines 383-405), read from
   * input[pos0..]; the pixel count is checked before each pixel is stored.
   */
  method LoadLiteral(data: array<byte>, input: seq<byte>, pos0: nat, n: nat, cur0: nat, at0: int, pc: nat, bpp: nat,
                     ghost d0: seq<byte>, ghost stored0: seq<Pixel>)
    returns (ok: bool, pos: nat, cur: nat, at: int, ghost stored: seq<Pixel>)
    requires Loaded(data[..], d0, stored0, at0, bpp) && |stored0| == cur0 <= pc && |d0| == Times(pc, bpp)
    requires pos0 <= |input| && n >= 1
    modifies data
    ensures Loaded(data[..], d0, stored, at, bpp) && |stored| == cur <= pc && pos <= |input|
    ensures Prepend(stored0, Expand(input[pos0..], n, Literal, cur0, pc, bpp)) ==
      if ok then Prepend(stored, Decode(input[pos..], cur, pc, bpp)) else Decoded(false, stored)
    ensures ok ==> cur0 < cur
  {
    pos, cur, at, stored := pos0, cur0, at0, stored0;
    for i := 0 to n
      invariant Loaded(data[..], d0, stored, at, bpp) && |stored| == cur == cur0 + i <= pc && pos <= |input|
      invariant Prepend(stored0, Expand(input[pos0..], n, Literal, cur0, pc, bpp)) ==
        Prepend(stored, Expand(input[pos..], n - i, Literal, cur, pc, bpp))
    {
      LiteralStep(input, pos, n - i, cur, pc, bpp);
      if |input| - pos < bpp || cur == pc {
        assert stored + [] == stored;
        ok := false;
        return;
      }
      var pixel := input[pos..pos + bpp];
      StorePixel(data, at, pixel, pc, bpp, d0, stored);
      PrependTwice(stored, [pixel], Expand(input[pos + bpp..], n - i - 1, Literal, cur + 1, pc, bpp));
      pos, cur, at, stored := pos + bpp, cur + 1, at + bpp, stored + [pixel];
    }
    ok := true;
  }

  /** The n copies of the pixel of a repeat packet (lines 417-430); the count is checked before each copy. */
  method LoadRepeat(data: array<byte>, pixel: seq<byte>, n: nat, cur0: nat, at0: int, pc: nat, bpp: nat,
                    ghost d0: seq<byte>, ghost stored0: seq<Pixel>, ghost rest: seq<byte>)
    returns (ok: bool, cur: nat, at: int, ghost stored: seq<Pixel>)
    requires Loaded(data[..], d0, stored0, at0, bpp) && |stored0| == cur0 <= pc && |d0| == Times(pc, bpp)
    requires |pixel| == bpp && n >= 1
    modifies data
    ensures Loaded(data[..], d0, stored, at, bpp) && |stored| == cur <= pc
    ensures Prepend(stored0, Expand(rest, n, Repeat(pixel), cur0, pc, bpp)) ==
      if ok then Prepend(stored, Decode(rest, cur, pc, bpp)) else Decoded(false, stored)
    ensures ok ==> cur0 < cur
  {
    cur, at, stored := cur0, at0, stored0;
    for i := 0 to n
      invariant Loaded(data[..], d0, stored, at, bpp) && |stored| == cur == cur0 + i <= pc
      invariant Prepend(stored0, Expand(rest, n, Repeat(pixel), cur0, pc, bpp)) ==
        Prepend(stored, Expand(rest, n - i, Repeat(pixel), cur, pc, bpp))
    {
      if cur == pc {
        assert stored + [] == stored;
        ok := false;
        return;
      }
      StorePixel(data, at, pixel, pc, bpp, d0, stored);
      PrependTwice(stored, [pixel], Expand(rest, n - i - 1, Repeat(pixel), cur + 1, pc, bpp));
      cur, at, stored := cur + 1, at + bpp, stored + [pixel];
    }
    ok := true;
  }

  /** One packet of loadRLEData (lines 373-431): its header byte at pos0, then its pixels. */
  method LoadPacket(data: array<byte>, input: seq<byte>, pos0: nat, cur0: nat, at0: int, pc: nat, bpp: nat,
                    ghost d0: seq<byte>, ghost stored0: seq<Pixel>)
    returns (ok: bool, pos: nat, cur: nat, at: int, ghost stored: seq<Pixel>)
    requires Loaded(data[..], d0, stored0, at0, bpp) && |stored0| == cur0 < pc && |d0| == Times(pc, bpp)
    requires pos0 < |input|
    modifies data
    ensures Loaded(data[..], d0, stored, at, bpp) && |stored| == cur <= pc && pos <= |input|
    ensures Prepend(stored0, Decode(input[pos0..], cur0, pc, bpp)) ==
      if ok then Prepend(stored, Decode(input[pos..], cur, pc, bpp)) else Decoded(false, stored)
    ensures ok ==> cur0 < cur
  {
    var header := input[pos0];
    DecodeStep(input, pos0, cur0, pc, bpp);
    if header < 128 {
      ok, pos, cur, at, stored := LoadLiteral(data, input, pos0 + 1, header as nat + 1, cur0, at0, pc, bpp, d0, stored0);
    } else if |input| - (pos0 + 1) < bpp {
      assert stored0 + [] == stored0;
      ok, pos, cur, at, stored := false, pos0, cur0, at0, stored0;
    } else {
      var pixel := input[pos0 + 1..pos0 + 1 + bpp];
      ok, cur, at, stored := LoadRepeat(data, pixel, header as nat - 127, cur0, at0, pc, bpp, d0, stored0, input[pos0 + 1 + bpp..]);
      pos := pos0 + 1 + bpp;
    }
  }

  /** The buffer once decoding has stopped with the pixels stored: the decoded bytes, then the old ones. */
  lemma LoadedResult(t: seq<byte>, d0: seq<byte>, stored: seq<Pixel>, at: int, bpp: nat, r: Decoded)
    requires Loaded(t, d0, stored, at, bpp) && r.pixels == stored
    ensures |Flatten(r.pixels)| <= |t| && t == Flatten(r.pixels) + d0[|Flatten(r.pixels)|..]
  {}

  /**
   * loadRLEData (lines 364-435) on the stream input, into a buffer of pc
   * pixels: packets are read until pc pixels are stored, and reading fails
   * when the stream ends inside a packet or a packet holds more pixels than
   * are left.
   */
  method LoadRLE(data: array<byte>, input: seq<byte>, pc: nat, bpp: nat) returns (ok: bool)
    requires data.Length == Times(pc, bpp)
    modifies data
    ensures var r := Decode(input, 0, pc, bpp);
      ok == r.ok && |Flatten(r.pixels)| <= data.Length && data[..] == Flatten(r.pixels) + old(data[..])[|Flatten(r.pixels)|..]
  {
    ghost var d0 := data[..];
    ghost var goal := Decode(input, 0, pc, bpp);
    ghost var stored: seq<Pixel> := [];
    var pos, cur, at := 0, 0, 0;
    assert input[0..] == input && data[..] == Flatten(stored) + d0[0..];
    ok := true;
    while ok && cur < pc
      invariant 0 <= pos <= |input| && |stored| == cur <= pc
      invariant Loaded(data[..], d0, stored, at, bpp)
      invariant goal == if ok then Prepend(stored, Decode(input[pos..], cur, pc, bpp)) else Decoded(false, stored)
      decreases pc - cur, ok
    {
      if pos == |input| {
        assert stored + [] == stored;
        ok := false;
      } else {
        ok, pos, cur, at, stored := LoadPacket(data, input, pos, cur, at, pc, bpp, d0, stored);
      }
    }
    if ok {
      assert stored + [] == stored;
    }
    LoadedResult(data[..], d0, stored, at, bpp, goal);
  }

  /** The comparison of lines 454-456: do the bpp bytes at a equal the bpp bytes after them? */
  method SamePixels(data: seq<byte>, a: int, bpp: int) returns (eq: bool)
    requires 0 <= a && 0 <= bpp && a + bpp + bpp <= |data|
    ensures eq == (data[a..a + bpp] == data[a + bpp..a + bpp + bpp])
  {
    eq := true;
    var i := 0;
    while eq && i < bpp
      invariant 0 <= i <= bpp
      invariant eq == (data[a..a + i] == data[a + bpp..a + bpp + i])
    {
      assert data[a..a + i + 1] == data[a..a + i] + [data[a + i]];
      assert data[a + bpp..a + bpp + i + 1] == data[a + bpp..a + bpp + i] + [data[a + bpp + i]];
      eq := data[a + i] == data[a + bpp + i];
      i := i + 1;
    }
    if !eq {
      assert data[a..a + bpp][..i] == data[a..a + i];
      assert data[a + bpp..a + bpp + bpp][..i] == data[a + bpp..a + bpp + i];
    }
  }

  /** The inner loop of unloadRLEData (lines 445-473): the length and kind of the packet starting at pixel cur. */
  method ScanChunk(data: seq<byte>, np: nat, bpp: nat, cur: nat) returns (runLength: nat, raw: bool)
    requires Shaped(data, np, bpp) && cur < np
    ensures Chunk(runLength, raw) == Scan(PixelList(data, np, bpp), cur, cur + 1, true)
  {
    ghost var px := PixelList(data, np, bpp);
    ghost var goal := Scan(px, cur, cur + 1, true);
    runLength, raw := 1, true;
    var currentByte := cur * bpp;
    while cur + runLength < np && runLength < MaxChunkLength
      invariant 1 <= runLength <= MaxChunkLength && cur + runLength <= np
      invariant runLength == 1 ==> raw
      invariant !raw ==> runLength >= 2
      invariant Scan(px, cur, cur + runLength, raw) == goal
      invariant currentByte == (cur + runLength - 1) * bpp
      decreases MaxChunkLength - runLength
    {
      var k := cur + runLength - 1;
      NextPixelBytes(data, np, bpp, k, currentByte);
      var succEq := SamePixels(data, currentByte, bpp);
      SameAt(data, np, bpp, k, currentByte, succEq);
      ScanNext(px, cur, cur + runLength, raw, succEq);
      currentByte := currentByte + bpp;
      if runLength == 1 {
        raw := !succEq;
      }
      if raw && succEq {
        runLength := runLength - 1;
        break;
      }
      if !raw && !succEq {
        break;
      }
      runLength := runLength + 1;
    }
  }

  /**
   * Lines 475-485 of unloadRLEData: the header of the packet for a chunk of
   * runLength pixels at pixel cur, and the bytes written after it: all the
   * chunk's pixels when it is raw, its first pixel when it repeats.
   */
  method PacketPayload(data: seq<byte>, np: nat, bpp: nat, cur: nat, runLength: nat, raw: bool) returns (header: byte, bytes: seq<byte>)
    requires Shaped(data, np, bpp) && 1 <= runLength <= MaxChunkLength && cur + runLength <= np
    requires !raw ==> runLength >= 2
    ensures var pk := ChunkPacket(PixelList(data, np, bpp), cur, Chunk(runLength, raw));
      header == pk.header && bytes == Flatten(pk.payload)
  {
    var chunkStart := cur * bpp;
    var n := if raw then runLength * bpp else bpp;
    header := if raw then (runLength - 1) as byte else (runLength + 127) as byte;
    ChunkBytes(data, np, bpp, cur, runLength, raw, chunkStart, n);
    bytes := data[chunkStart..chunkStart + n];
  }

  /**
   * One pass of the outer loop of unloadRLEData (lines 445-491): the header
   * and the payload bytes of the packet for the chunk at pixel cur, and the
   * pixel after the chunk.
   */
  method NextPacket(data: seq<byte>, np: nat, bpp: nat, cur: nat) returns (next: nat, header: byte, bytes: seq<byte>)
    requires Shaped(data, np, bpp) && cur < np
    ensures var px := PixelList(data, np, bpp); var c := Scan(px, cur, cur + 1, true);
      next == cur + c.length && header == ChunkPacket(px, cur, c).header && bytes == Flatten(ChunkPacket(px, cur, c).payload)
  {
    var runLength, raw := ScanChunk(data, np, bpp, cur);
    header, bytes := PacketPayload(data, np, bpp, cur, runLength, raw);
    next := cur + runLength;
  }

  /**
   * unloadRLEData (lines 437-494) on a buffer of np pixels: the packets it
   * writes, each a header byte and then a chunk's pixels or the one pixel
   * it repeats.
   */
  method UnloadRLE(data: seq<byte>, np: nat, bpp: nat) returns (out: seq<byte>)
    requires Shaped(data, np, bpp)
    ensures out == Encode(data, np, bpp)
  {
    ghost var px := PixelList(data, np, bpp);
    out := [];
    var cur := 0;
    while cur < np
      invariant cur <= np
      invariant Serialize(Chunks(px, 0)) == out + Serialize(Chunks(px, cur))
      decreases np - cur
    {
      var next, header, bytes := NextPacket(data, np, bpp, cur);
      ChunksWritten(px, cur, out, next, header, bytes);
      out := out + [header] + bytes;
      cur := next;
    }
  }

  class Image {
    var data: array?<byte>
    var width: int
    var height: int
    var bytespp: int

    /** A buffer, when there is one, holds exactly the image's pixels. */
    ghost predicate Valid()
      reads this, data
    {
      data != null ==> Fits(data[..], width, height, bytespp)
    }

    /** TGAImage(): no buffer, all sizes zero (line 35). */
    constructor ()
      ensures Valid() && data == null && width == 0 && height == 0 && bytespp == 0
    {
      data := null;
      width, height, bytespp := 0, 0, 0;
    }

    /** TGAImage(w, h, bpp): a zeroed buffer of w * h * bpp bytes (lines 37-43). */
    constructor Sized(w: int, h: int, bpp: int)
      requires 0 <= w && 0 <= h && 1 <= bpp <= 4
      ensures Valid() && data != null && fresh(data)
      ensures width == w && height == h && bytespp == bpp
      ensures data[..] == Zeroed(w * h * bpp)
    {
      width, height, bytespp := w, h, bpp;
      MulMono(0, w, h);
      MulMono(0, w * h, bpp);
      var buffer := new byte[w * h * bpp](_ => 0);
      assert buffer[..] == Zeroed(w * h * bpp);
      data := buffer;
    }

    /** get(x, y) (lines 319-325). */
    method Get(x: int, y: int) returns (c: Color)
      requires Valid()
      ensures c == if data == null then Default() else PixelAt(data[..], width, height, bytespp, x, y)
    {
      if data == null || x < 0 || y < 0 || width <= x || height <= y {
        return Default();
      }
      PixelInBuffer(width, height, bytespp, x, y);
      var o := Start(width, bytespp, x, y);
      c := FromBytes(data[o..o + bytespp], bytespp);
      assert data[..][o..o + bytespp] == data[o..o + bytespp];
    }

    /** set(x, y, c) (lines 327-334): false, and no change, outside the image. */
    method Set(x: int, y: int, c: Color) returns (ok: bool)
      requires Valid() && |c.raw| == 4
      modifies data
      ensures Valid()
      ensures ok == (data != null && InImage(width, height, x, y))
      ensures data != null ==> data[..] == Put(old(data[..]), width, height, bytespp, x, y, c)
    {
      if data == null || x < 0 || y < 0 || width <= x || height <= y {
        if data != null {
          PutOutside(data[..], width, height, bytespp, x, y, c);
        }
        return false;
      }
      PutSlices(data[..], width, height, bytespp, x, y, c);
      var o := (x + y * width) * bytespp;
      ghost var before := data[..];
      MoveBytes(data, o, c.raw, 0, bytespp);
      assert before[..o] == old(data[..o]) && before[o + bytespp..] == old(data[o + bytespp..]);
      return true;
    }

    /**
     * clear() (line 344): every byte of the buffer becomes zero; with no
     * buffer the memset covers zero bytes.
     */
    method Clear()
      requires Valid() && (data != null || width * height * bytespp == 0)
      modifies data
      ensures Valid()
      ensures data != null ==> data[..] == Zeroed(data.Length)
    {
      if data == null {
        return;
      }
      var k := 0;
      while k < data.Length
        invariant 0 <= k <= data.Length
        invariant forall i :: 0 <= i < k ==> data[i] == 0
      {
        data[k] := 0;
        k := k + 1;
      }
    }

    /** getWidth(), getHeight(), getBytesPP() (lines 336-340). */
    function Width(): int
      reads this
    {
      width
    }

    function Height(): int
      reads this
    {
      height
    }

    function BytesPP(): int
      reads this
    {
      bytespp
    }

    /**
     * scale(w, h) (lines 267-317): the new buffer holds, at new pixel
     * (x, y), the old pixel at column ColumnPicks(width, w)[x] and row
     * RowPicks(height, h)[y]; false, and no change, for a size below one or
     * no buffer.
     */
    method Scale(w: int, h: int) returns (ok: bool)
      requires Valid()
      modifies this
      ensures Valid()
      ensures ok == (w > 0 && h > 0 && old(data) != null)
      ensures !ok ==> data == old(data) && width == old(width) && height == old(height) && bytespp == old(bytespp)
      ensures ok ==> fresh(data) && width == w && height == h && bytespp == old(bytespp)
      ensures ok && old(width) > 0 && old(height) > 0 ==>
        data[..] == Scaled(old(data[..]), old(width), old(height), old(bytespp), w, h)
    {
      if w <= 0 || h <= 0 || data == null {
        return false;
      }
      var bpp := bytespp;
      MulMono(0, w, h);
      MulMono(0, w * h, bpp);
      var tData := new byte[w * h * bpp];
      if width == 0 || height == 0 {
        data, width, height := tData, w, h;
        return true;
      }
      ScaleBuffer(tData, data[..], width, height, bpp, w, h);
      data, width, height := tData, w, h;
      return true;
    }

    /**
     * flipVertically() (lines 245-265): for each i below height / 2, lines
     * i and height - 1 - i trade places through a one-line buffer.
     */
    method FlipVertically() returns (ok: bool)
      requires Valid()
      modifies data
      ensures Valid()
      ensures ok == (data != null)
      ensures data != null ==> data[..] == FlipV(old(data[..]), width, height, bytespp)
    {
      if data == null {
        return false;
      }
      var bpl := width * bytespp;
      BufferIsLines(width, height, bytespp);
      MulMono(0, width, bytespp);
      var line := new byte[bpl];
      var half := height / 2;
      ghost var d0 := data[..];
      for i := 0 to half
        invariant data.Length == |d0| == height * bpl
        invariant FlippedBelow(data[..], d0, bpl, height, i)
      {
        ghost var prev := data[..];
        var l2 := height - i - 1;
        SwapLines(data, line, bpl, i, l2);
        SwappedLinesLines(prev, bpl, i, l2);
        FlippedBelowAdvance(prev, data[..], d0, bpl, height, i, l2);
      }
      FlippedBelowDone(data[..], d0, width, height, bytespp);
      return true;
    }

    /**
     * flipHorizontally() (lines 224-243): for each column i below
     * width / 2 and each row j, pixels (i, j) and (width - i - 1, j) trade
     * places through get and set.
     */
    method FlipHorizontally() returns (ok: bool)
      requires Valid()
      modifies data
      ensures Valid()
      ensures ok == (data != null)
      ensures data != null ==> data[..] == FlipH(old(data[..]), width, height, bytespp)
    {
      if data == null {
        return false;
      }
      ghost var d0 := data[..];
      FlipHPartialStart(d0, width, height, bytespp);
      var half := width / 2;
      for i := 0 to half
        invariant Valid() && data.Length == |d0|
        invariant data[..] == FlipHPartial(d0, width, height, bytespp, i, 0)
      {
        var m := width - i - 1;
        for j := 0 to height
          invariant Valid() && data.Length == |d0|
          invariant data[..] == FlipHPartial(d0, width, height, bytespp, i, j)
        {
          var c1 := Get(i, j);
          var c2 := Get(m, j);
          var _ := Set(i, j, c2);
          var _ := Set(m, j, c1);
          FlipHStep(d0, width, height, bytespp, i, m, j, c1, c2);
        }
        FlipHPartialNextColumn(d0, width, height, bytespp, i);
      }
      FlipHPartialDone(d0, width, height, bytespp);
      return true;
    }

    /**
     * loadRLEData(in) (lines 364-435): run-length packets from input fill the
     * buffer from its start; ok when all width * height pixels were read.
     */
    method LoadRLEData(input: seq<byte>) returns (ok: bool)
      requires Valid() && data != null
      modifies data
      ensures Valid()
      ensures var r := Decode(input, 0, width * height, bytespp);
        ok == r.ok && |Flatten(r.pixels)| <= data.Length &&
        data[..] == Flatten(r.pixels) + old(data[..])[|Flatten(r.pixels)|..]
    {
      MulMono(0, width, height);
      TimesIsMul(width * height, bytespp);
      ok := LoadRLE(data, input, width * height, bytespp);
    }

    /**
     * unloadRLEData(out) (lines 437-494): the packets written for the buffer.
     * An image without pixels writes nothing, buffer or not: the loop over
     * nPixels = width * height never runs.
     */
    method UnloadRLEData() returns (out: seq<byte>)
      requires Valid() && (data != null || width * height == 0)
      ensures data != null ==> out == Encode(data[..], width * height, bytespp)
      ensures data == null ==> out == []
    {
      if data == null {
        return [];
      }
      MulMono(0, width, height);
      out := UnloadRLE(data[..], width * height, bytespp);
    }

    /**
     * Lines 101-109 of readTGAFile: the buffer filled straight from the
     * stream; a stream shorter than the buffer is a failed read.
     */
    method ReadRawData(body: seq<byte>) returns (ok: bool)
      requires Valid() && data != null
      modifies data
      ensures Valid()
      ensures ok == (|body| >= data.Length)
      ensures ok ==> data[..] == body[..data.Length]
    {
      var n := data.Length;
      if |body| < n {
        MoveBytes(data, 0, body, 0, |body|);
        return false;
      }
      ghost var before := data[..];
      MoveBytes(data, 0, body, 0, n);
      Overwritten(before, body[0..n], data[..], n);
      assert body[0..n] == body[..n];
      return true;
    }

    /**
     * Lines 97-126 of readTGAFile: a fresh buffer of the header's size, read
     * raw or from run-length packets; false for an unknown type, a short
     * read or a bad packet stream.
     */
    method LoadPixels(h: Header, body: seq<byte>) returns (ok: bool)
      requires Acceptable(h) && width == h.width && height == h.height && bytespp == BytesPerPixel(h)
      modifies this
      ensures Valid() && data != null && fresh(data)
      ensures width == old(width) && height == old(height) && bytespp == old(bytespp)
      ensures ok == TgaFile.ReadPixels(h, body).Some?
      ensures ok ==> data[..] == TgaFile.ReadPixels(h, body).value
    {
      MulMono(0, width, height);
      MulMono(0, width * height, bytespp);
      var n := width * height * bytespp;
      data := new byte[n];
      match StorageOf(h.dataTypeCode) {
        case Uncompressed =>
          ok := ReadRawData(body);
        case RunLength =>
          ok := LoadRLEData(body);
          if ok {
            ghost var r := Decode(body, 0, width * height, bytespp);
            DecodeWithinBuffer(body, 0, width * height, bytespp);
            FlattenLength(r.pixels, bytespp);
            assert data[..] == Flatten(r.pixels);
          }
        case Unknown =>
          return false;
      }
    }

    /**
     * readTGAFile (lines 59-137) on the bytes of a file: the old buffer is
     * dropped; a short header leaves the sizes as they were, a header with
     * bad sizes or depth keeps the sizes it gives and no buffer, and an
     * accepted one gets a fresh buffer of its size, filled raw or from
     * packets, then flipped as its descriptor asks.
     */
    method ReadTGAFile(file: seq<byte>) returns (ok: bool)
      requires Valid()
      modifies this
      ensures Valid()
      ensures ok == TgaFile.Read(file).Some?
      ensures ok ==> var im := TgaFile.Read(file).value;
        data != null && width == im.width && height == im.height && bytespp == im.bytespp && data[..] == im.data
      ensures ParseHeader(file).None? ==>
        data == null && width == old(width) && height == old(height) && bytespp == old(bytespp)
      ensures ParseHeader(file).Some? && !Acceptable(ParseHeader(file).value) ==>
        var h := ParseHeader(file).value;
        data == null && width == h.width && height == h.height && bytespp == BytesPerPixel(h)
      ensures ParseHeader(file).Some? && Acceptable(ParseHeader(file).value) ==>
        var h := ParseHeader(file).value;
        data != null && width == h.width && height == h.height && bytespp == BytesPerPixel(h)
      ensures data != null ==> fresh(data)
    {
      data := null;
      var parsed := ParseHeader(file);
      if parsed.None? {
        return false;
      }
      var h := parsed.value;
      width, height, bytespp := h.width, h.height, BytesPerPixel(h);
      if width <= 0 || height <= 0 || (bytespp != GRAYSCALE && bytespp != RGB && bytespp != RGBA) {
        return false;
      }
      ok := LoadPixels(h, file[HeaderSize..]);
      if !ok {
        return false;
      }
      if FlipsRows(h) {
        var _ := FlipVertically();
      }
      if FlipsColumns(h) {
        var _ := FlipHorizontally();
      }
      return true;
    }

    /**
     * writeTGAFile (lines 139-222) as the bytes it writes: the header, the
     * buffer raw or as run-length packets, and the trailer. As in the
     * source's declaration, `rle` defaults to true. An image without pixels
     * and without a buffer, such as a default-constructed one, is written as
     * its header followed by the trailer.
     */
    method WriteTGAFile(rle: bool := true) returns (file: seq<byte>)
      requires Valid() && (data != null || width * height == 0)
      ensures data != null ==> file == TgaFile.Write(data[..], width, height, bytespp, rle)
      ensures data == null ==> file == HeaderBytes(WriterHeader(width, height, bytespp, rle)) + TgaFile.Trailer
    {
      var header := HeaderBytes(WriterHeader(width, height, bytespp, rle));
      var pixels: seq<byte>;
      if data == null {
        pixels := [];
      } else if !rle {
        pixels := data[..];
      } else {
        pixels := UnloadRLEData();
      }
      file := header + pixels + TgaFile.Trailer;
    }
  }
}
